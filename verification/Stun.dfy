/** STUN messages and their bytes. */
module Stun {
  import opened Bytes

  type u16 = x: int | 0 <= x < 0x1_0000
  type u32 = x: int | 0 <= x < 0x1_0000_0000

  const HEADER_SIZE: nat := 20
  const STUN_MAX_STRING := 256
  const IPV4_FAMILY: byte := 1

  const MAPPED_ADDRESS: u16 := 0x0001
  const RESPONSE_ADDRESS: u16 := 0x0002
  const CHANGE_REQUEST: u16 := 0x0003
  const SOURCE_ADDRESS: u16 := 0x0004
  const CHANGED_ADDRESS: u16 := 0x0005
  const USERNAME: u16 := 0x0006
  const PASSWORD: u16 := 0x0007
  const MESSAGE_INTEGRITY: u16 := 0x0008
  const ERROR_CODE: u16 := 0x0009
  const UNKNOWN_ATTRIBUTE: u16 := 0x000A
  const REFLECTED_FROM: u16 := 0x000B
  const XOR_MAPPED_ADDRESS: u16 := 0x8020
  const XOR_ONLY: u16 := 0x0021
  const SERVER_NAME: u16 := 0x8022
  const SECONDARY_ADDRESS: u16 := 0x8050

  datatype Header = Header(msgType: u16, msgLength: u16, id: seq<byte>)

  datatype Address = Address(pad: byte, family: byte, port: u16, addr: u32)

  /** A field of a message, and whether it is present: an absent field still has a value. */
  datatype Field<T> = Field(has: bool, value: T)

  datatype Message = Message(hdr: Header,
                             mapped: Field<Address>, response: Field<Address>, change: Field<u32>,
                             source: Field<Address>, changed: Field<Address>,
                             username: Field<seq<byte>>, password: Field<seq<byte>>,
                             reflected: Field<Address>, xorMapped: Field<Address>,
                             serverName: Field<seq<byte>>, secondary: Field<Address>)

  // Numbers in network order

  function Bytes16(v: u16): (b: seq<byte>)
    ensures |b| == 2
  {
    [v / 256, v % 256]
  }

  function Bytes32(v: u32): (b: seq<byte>)
    ensures |b| == 4
  {
    Bytes16(v / 0x1_0000) + Bytes16(v % 0x1_0000)
  }

  function Get16(b: seq<byte>): u16
    requires |b| >= 2
  {
    var hi: int, lo: int := b[0], b[1];
    hi * 256 + lo
  }

  function Get32(b: seq<byte>): u32
    requires |b| >= 4
  {
    Get16(b) * 0x1_0000 + Get16(b[2..])
  }

  lemma Got16(v: u16, rest: seq<byte>)
    ensures Get16(Bytes16(v) + rest) == v && (Bytes16(v) + rest)[2..] == rest
  {}

  lemma Got32(v: u32, rest: seq<byte>)
    ensures Get32(Bytes32(v) + rest) == v && (Bytes32(v) + rest)[4..] == rest
  {
    var hi, lo := Bytes16(v / 0x1_0000), Bytes16(v % 0x1_0000);
    assert Bytes32(v) + rest == hi + (lo + rest);
    Got16(v / 0x1_0000, lo + rest);
    Got16(v % 0x1_0000, rest);
  }

  // Attributes

  /** One attribute as it is written. */
  datatype Attribute =
    | AddressAttr(kind: u16, a: Address)
    | ChangeAttr(flags: u32)
    | StringAttr(kind: u16, s: seq<byte>)

  predicate AddressKind(t: u16) {
    t in {MAPPED_ADDRESS, RESPONSE_ADDRESS, SOURCE_ADDRESS, CHANGED_ADDRESS, REFLECTED_FROM, XOR_MAPPED_ADDRESS, SECONDARY_ADDRESS}
  }

  predicate StringKind(t: u16) { t in {USERNAME, PASSWORD, SERVER_NAME} }

  predicate Proper(a: Attribute) {
    match a
    case AddressAttr(t, _) => AddressKind(t)
    case ChangeAttr(_) => true
    case StringAttr(t, s) => StringKind(t) && |s| <= STUN_MAX_STRING && |s| % 4 == 0
  }

  /** The bytes of an address; the family written is that of IPv4. */
  function AddressBytes(a: Address): (b: seq<byte>)
    ensures |b| == 8
  {
    [a.pad, IPV4_FAMILY] + Bytes16(a.port) + Bytes32(a.addr)
  }

  function AttrBytes(a: Attribute): seq<byte>
    requires Proper(a)
  {
    match a
    case AddressAttr(t, x) => Bytes16(t) + Bytes16(8) + AddressBytes(x)
    case ChangeAttr(v) => Bytes16(CHANGE_REQUEST) + Bytes16(4) + Bytes32(v)
    case StringAttr(t, s) => Bytes16(t) + Bytes16(|s|) + s
  }

  predicate AllProper(attrs: seq<Attribute>) {
    forall i :: 0 <= i < |attrs| ==> Proper(attrs[i])
  }

  function AttrsBytes(attrs: seq<Attribute>): seq<byte>
    requires AllProper(attrs)
  {
    if attrs == [] then [] else AttrBytes(attrs[0]) + AttrsBytes(attrs[1..])
  }

  /** The outcome of parsing; fields read before a message is rejected stay as they were read.
      Attributes that this model does not have a field for are Foreign. */
  datatype Outcome = Parsed(m: Message) | Rejected(m: Message) | Foreign

  /** The address in the first eight bytes, over what was there before. */
  function AddressIn(body: seq<byte>, old_: Address): Address
    requires |body| >= 8
  {
    if body[1] == IPV4_FAMILY then Address(body[0], body[1], Get16(body[2..]), Get32(body[4..]))
    else Address(body[0], body[1], old_.port, old_.addr)
  }

  function AddressOf(m: Message, t: u16): Field<Address>
    requires AddressKind(t)
  {
    if t == MAPPED_ADDRESS then m.mapped
    else if t == RESPONSE_ADDRESS then m.response
    else if t == SOURCE_ADDRESS then m.source
    else if t == CHANGED_ADDRESS then m.changed
    else if t == REFLECTED_FROM then m.reflected
    else if t == XOR_MAPPED_ADDRESS then m.xorMapped
    else m.secondary
  }

  function WithAddress(m: Message, t: u16, f: Field<Address>): Message
    requires AddressKind(t)
  {
    if t == MAPPED_ADDRESS then m.(mapped := f)
    else if t == RESPONSE_ADDRESS then m.(response := f)
    else if t == SOURCE_ADDRESS then m.(source := f)
    else if t == CHANGED_ADDRESS then m.(changed := f)
    else if t == REFLECTED_FROM then m.(reflected := f)
    else if t == XOR_MAPPED_ADDRESS then m.(xorMapped := f)
    else m.(secondary := f)
  }

  function StringOf(m: Message, t: u16): Field<seq<byte>>
    requires StringKind(t)
  {
    if t == USERNAME then m.username else if t == PASSWORD then m.password else m.serverName
  }

  function WithString(m: Message, t: u16, f: Field<seq<byte>>): Message
    requires StringKind(t)
  {
    if t == USERNAME then m.(username := f)
    else if t == PASSWORD then m.(password := f)
    else m.(serverName := f)
  }

  /** One attribute of type t with the bytes of body. */
  function ParseAttr(t: u16, body: seq<byte>, m: Message): Outcome {
    if AddressKind(t) then
      if |body| != 8 then Rejected(WithAddress(m, t, AddressOf(m, t).(has := true)))
      else
        var m' := WithAddress(m, t, Field(true, AddressIn(body, AddressOf(m, t).value)));
        if body[1] == IPV4_FAMILY then Parsed(m') else Rejected(m')
    else if t == CHANGE_REQUEST then
      if |body| != 4 then Rejected(m.(change := m.change.(has := true)))
      else Parsed(m.(change := Field(true, Get32(body))))
    else if StringKind(t) then
      if |body| >= STUN_MAX_STRING || |body| % 4 != 0 then Rejected(WithString(m, t, StringOf(m, t).(has := true)))
      else Parsed(WithString(m, t, Field(true, body)))
    else if t in {MESSAGE_INTEGRITY, ERROR_CODE, UNKNOWN_ATTRIBUTE, XOR_ONLY} then Foreign
    else if t <= 0x7FFF then Rejected(m)
    else Parsed(m)
  }

  /** The attributes one after the other. */
  function ParseAttrs(body: seq<byte>, m: Message): Outcome {
    if body == [] then Parsed(m)
    else if |body| < 4 || 4 + Get16(body[2..]) > |body| then Rejected(m)
    else
      var n := Get16(body[2..]);
      var out := ParseAttr(Get16(body), body[4..4 + n], m);
      if out.Parsed? then ParseAttrs(body[4 + n..], out.m) else out
  }

  /** A whole message, read into m, whose fields are not cleared: only the first eight bytes are. */
  function Parse(buf: seq<byte>, m: Message): Outcome
    requires |m.hdr.id| == 16
  {
    if |buf| < HEADER_SIZE then Rejected(m.(hdr := Header(0, 0, [0, 0, 0, 0] + m.hdr.id[4..])))
    else
      var m' := m.(hdr := Header(Get16(buf), Get16(buf[2..]), buf[4..20]));
      if m'.hdr.msgLength + HEADER_SIZE != |buf| then Rejected(m') else ParseAttrs(buf[20..], m')
  }

  function AddressAttrs(t: u16, f: Field<Address>): seq<Attribute> {
    if f.has then [AddressAttr(t, f.value)] else []
  }

  function StringAttrs(t: u16, f: Field<seq<byte>>): seq<Attribute> {
    if f.has then [StringAttr(t, f.value)] else []
  }

  function ChangeAttrs(f: Field<u32>): seq<Attribute> {
    if f.has then [ChangeAttr(f.value)] else []
  }

  /** The attributes that are written for a message, in order. */
  function Attrs(m: Message): seq<Attribute> {
    FirstAttrs(m) + MiddleAttrs(m) + LastAttrs(m)
  }

  function FirstAttrs(m: Message): seq<Attribute> {
    AddressAttrs(MAPPED_ADDRESS, m.mapped) + AddressAttrs(RESPONSE_ADDRESS, m.response) + ChangeAttrs(m.change)
    + AddressAttrs(SOURCE_ADDRESS, m.source)
  }

  function MiddleAttrs(m: Message): seq<Attribute> {
    AddressAttrs(CHANGED_ADDRESS, m.changed) + StringAttrs(USERNAME, m.username) + StringAttrs(PASSWORD, m.password)
    + AddressAttrs(REFLECTED_FROM, m.reflected)
  }

  function LastAttrs(m: Message): seq<Attribute> {
    AddressAttrs(XOR_MAPPED_ADDRESS, m.xorMapped) + StringAttrs(SERVER_NAME, m.serverName)
    + AddressAttrs(SECONDARY_ADDRESS, m.secondary)
  }

  /** Strings fill their fields at most and have lengths divisible by four, as encoding demands. */
  predicate Encodable(m: Message) {
    |m.hdr.id| == 16 && StringOk(m.username) && StringOk(m.password) && StringOk(m.serverName)
  }

  predicate StringOk(f: Field<seq<byte>>) { |f.value| <= STUN_MAX_STRING && (f.has ==> |f.value| % 4 == 0) }

  // Reading what was written

  /** What reading an attribute makes of a message: an address comes out as one of IPv4. */
  function Put(m: Message, a: Attribute): Message
    requires Proper(a)
  {
    match a
    case AddressAttr(t, x) => WithAddress(m, t, Field(true, x.(family := IPV4_FAMILY)))
    case ChangeAttr(v) => m.(change := Field(true, v))
    case StringAttr(t, s) => WithString(m, t, Field(true, s))
  }

  /** A string that is too long for the reader to put its end mark after it is not accepted. */
  predicate Short(a: Attribute) { a.StringAttr? ==> |a.s| < STUN_MAX_STRING }

  function Kind(a: Attribute): u16 {
    match a
    case AddressAttr(t, _) => t
    case ChangeAttr(_) => CHANGE_REQUEST
    case StringAttr(t, _) => t
  }

  /** The bytes of an attribute after its type and length. */
  function Body(a: Attribute): (b: seq<byte>)
    requires Proper(a)
  {
    match a
    case AddressAttr(_, x) => AddressBytes(x)
    case ChangeAttr(v) => Bytes32(v)
    case StringAttr(_, s) => s
  }

  lemma AttrBytesIs(a: Attribute)
    requires Proper(a)
    ensures |Body(a)| <= STUN_MAX_STRING && AttrBytes(a) == Bytes16(Kind(a)) + Bytes16(|Body(a)|) + Body(a)
  {}

  lemma AddressRead(x: Address, old_: Address)
    ensures AddressBytes(x)[1] == IPV4_FAMILY && AddressIn(AddressBytes(x), old_) == x.(family := IPV4_FAMILY)
  {
    var b := AddressBytes(x);
    assert b[2..] == Bytes16(x.port) + Bytes32(x.addr);
    assert b[4..] == Bytes32(x.addr) + [];
    Got16(x.port, Bytes32(x.addr));
    Got32(x.addr, []);
  }

  lemma BodyRead(a: Attribute, m: Message)
    requires Proper(a)
    ensures Short(a) ==> ParseAttr(Kind(a), Body(a), m) == Parsed(Put(m, a))
    ensures !Short(a) ==> ParseAttr(Kind(a), Body(a), m).Rejected?
  {
    match a
    case AddressAttr(t, x) => AddressRead(x, AddressOf(m, t).value);
    case ChangeAttr(v) =>
      assert Bytes32(v) == Bytes32(v) + [];
      Got32(v, []);
    case StringAttr(_, _) =>
  }

  lemma Split(t: u16, n: u16, b: seq<byte>, rest: seq<byte>)
    requires |b| == n
    ensures var all := Bytes16(t) + Bytes16(n) + b + rest;
            && |all| >= 4 + n && Get16(all) == t && Get16(all[2..]) == n
            && all[4..4 + n] == b && all[4 + n..] == rest
  {
    var all := Bytes16(t) + Bytes16(n) + b + rest;
    assert all == Bytes16(t) + (Bytes16(n) + (b + rest));
    Got16(t, Bytes16(n) + (b + rest));
    Got16(n, b + rest);
  }

  /** The first attribute is read back, if it is accepted. */
  lemma {:induction false} FirstRead(a: Attribute, rest: seq<byte>, m: Message)
    requires Proper(a)
    ensures Short(a) ==> ParseAttrs(AttrBytes(a) + rest, m) == ParseAttrs(rest, Put(m, a))
    ensures !Short(a) ==> ParseAttrs(AttrBytes(a) + rest, m).Rejected?
  {
    AttrBytesIs(a);
    Split(Kind(a), |Body(a)|, Body(a), rest);
    BodyRead(a, m);
  }

  function PutAll(m: Message, attrs: seq<Attribute>): Message
    requires AllProper(attrs)
    decreases |attrs|
  {
    if attrs == [] then m else PutAll(Put(m, attrs[0]), attrs[1..])
  }

  predicate AllShort(attrs: seq<Attribute>) {
    forall i :: 0 <= i < |attrs| ==> Short(attrs[i])
  }

  /** A list of attributes is read back, and accepted exactly if no string is too long. */
  lemma {:induction false} AttrsRead(attrs: seq<Attribute>, m: Message)
    requires AllProper(attrs)
    ensures AllShort(attrs) ==> ParseAttrs(AttrsBytes(attrs), m) == Parsed(PutAll(m, attrs))
    ensures !AllShort(attrs) ==> ParseAttrs(AttrsBytes(attrs), m).Rejected?
    decreases |attrs|
  {
    if attrs != [] {
      FirstRead(attrs[0], AttrsBytes(attrs[1..]), m);
      AttrsRead(attrs[1..], Put(m, attrs[0]));
      assert AllShort(attrs) <==> Short(attrs[0]) && AllShort(attrs[1..]);
    }
  }

  lemma {:induction false} PutAllAppend(m: Message, a: seq<Attribute>, b: seq<Attribute>)
    requires AllProper(a) && AllProper(b)
    ensures PutAll(m, a + b) == PutAll(PutAll(m, a), b)
    decreases |a|
  {
    if a == [] {
      assert a + b == b;
    } else {
      assert (a + b)[1..] == a[1..] + b;
      PutAllAppend(Put(m, a[0]), a[1..], b);
    }
  }

  function Taken(f: Field<Address>, g: Field<Address>): Field<Address> {
    if f.has then Field(true, f.value.(family := IPV4_FAMILY)) else g
  }

  /** What reading message m back over a message m0 gives: the fields of m where they are present. */
  function Over(m: Message, m0: Message): Message {
    m0.(mapped := Taken(m.mapped, m0.mapped), response := Taken(m.response, m0.response),
        change := if m.change.has then m.change else m0.change,
        source := Taken(m.source, m0.source), changed := Taken(m.changed, m0.changed),
        username := if m.username.has then m.username else m0.username,
        password := if m.password.has then m.password else m0.password,
        reflected := Taken(m.reflected, m0.reflected), xorMapped := Taken(m.xorMapped, m0.xorMapped),
        serverName := if m.serverName.has then m.serverName else m0.serverName,
        secondary := Taken(m.secondary, m0.secondary))
  }

  lemma {:induction false} PutAddress(m: Message, t: u16, f: Field<Address>)
    requires AddressKind(t)
    ensures PutAll(m, AddressAttrs(t, f)) == WithAddress(m, t, Taken(f, AddressOf(m, t)))
  {
    if f.has { assert PutAll(Put(m, AddressAttr(t, f.value)), []) == Put(m, AddressAttr(t, f.value)); }
  }

  lemma {:induction false} PutString(m: Message, t: u16, f: Field<seq<byte>>)
    requires StringKind(t) && StringOk(f)
    ensures PutAll(m, StringAttrs(t, f)) == WithString(m, t, if f.has then f else StringOf(m, t))
  {
    if f.has { assert PutAll(Put(m, StringAttr(t, f.value)), []) == Put(m, StringAttr(t, f.value)); }
  }

  lemma {:induction false} PutChange(m: Message, f: Field<u32>)
    ensures PutAll(m, ChangeAttrs(f)) == m.(change := if f.has then f else m.change)
  {
    if f.has { assert PutAll(Put(m, ChangeAttr(f.value)), []) == Put(m, ChangeAttr(f.value)); }
  }

  lemma {:induction false} Put4(m: Message, a: seq<Attribute>, b: seq<Attribute>, c: seq<Attribute>, d: seq<Attribute>)
    requires AllProper(a) && AllProper(b) && AllProper(c) && AllProper(d)
    ensures PutAll(m, a + b + c + d) == PutAll(PutAll(PutAll(PutAll(m, a), b), c), d)
  {
    PutAllAppend(m, a + b + c, d);
    PutAllAppend(m, a + b, c);
    PutAllAppend(m, a, b);
  }

  function OverFirst(m: Message, m0: Message): Message {
    m0.(mapped := Taken(m.mapped, m0.mapped), response := Taken(m.response, m0.response),
        change := if m.change.has then m.change else m0.change, source := Taken(m.source, m0.source))
  }

  lemma {:induction false} PutFirst(m: Message, m0: Message)
    ensures PutAll(m0, FirstAttrs(m)) == OverFirst(m, m0)
  {
    Put4(m0, AddressAttrs(MAPPED_ADDRESS, m.mapped), AddressAttrs(RESPONSE_ADDRESS, m.response), ChangeAttrs(m.change),
         AddressAttrs(SOURCE_ADDRESS, m.source));
    PutAddress(m0, MAPPED_ADDRESS, m.mapped);
    var m1 := m0.(mapped := Taken(m.mapped, m0.mapped));
    PutAddress(m1, RESPONSE_ADDRESS, m.response);
    var m2 := m1.(response := Taken(m.response, m0.response));
    PutChange(m2, m.change);
    PutAddress(m2.(change := if m.change.has then m.change else m0.change), SOURCE_ADDRESS, m.source);
  }

  function OverMiddle(m: Message, m0: Message): Message {
    m0.(changed := Taken(m.changed, m0.changed), username := if m.username.has then m.username else m0.username,
        password := if m.password.has then m.password else m0.password, reflected := Taken(m.reflected, m0.reflected))
  }

  lemma {:induction false} PutMiddle(m: Message, m0: Message)
    requires Encodable(m)
    ensures PutAll(m0, MiddleAttrs(m)) == OverMiddle(m, m0)
  {
    Put4(m0, AddressAttrs(CHANGED_ADDRESS, m.changed), StringAttrs(USERNAME, m.username),
         StringAttrs(PASSWORD, m.password), AddressAttrs(REFLECTED_FROM, m.reflected));
    PutAddress(m0, CHANGED_ADDRESS, m.changed);
    var m1 := m0.(changed := Taken(m.changed, m0.changed));
    PutString(m1, USERNAME, m.username);
    var m2 := m1.(username := if m.username.has then m.username else m0.username);
    PutString(m2, PASSWORD, m.password);
    PutAddress(m2.(password := if m.password.has then m.password else m0.password), REFLECTED_FROM, m.reflected);
  }

  function OverLast(m: Message, m0: Message): Message {
    m0.(xorMapped := Taken(m.xorMapped, m0.xorMapped),
        serverName := if m.serverName.has then m.serverName else m0.serverName,
        secondary := Taken(m.secondary, m0.secondary))
  }

  lemma {:induction false} PutLast(m: Message, m0: Message)
    requires Encodable(m)
    ensures PutAll(m0, LastAttrs(m)) == OverLast(m, m0)
  {
    var a, b := AddressAttrs(XOR_MAPPED_ADDRESS, m.xorMapped), StringAttrs(SERVER_NAME, m.serverName);
    PutAllAppend(m0, a + b, AddressAttrs(SECONDARY_ADDRESS, m.secondary));
    PutAllAppend(m0, a, b);
    PutAddress(m0, XOR_MAPPED_ADDRESS, m.xorMapped);
    var m1 := m0.(xorMapped := Taken(m.xorMapped, m0.xorMapped));
    PutString(m1, SERVER_NAME, m.serverName);
    PutAddress(m1.(serverName := if m.serverName.has then m.serverName else m0.serverName), SECONDARY_ADDRESS, m.secondary);
  }

  lemma ProperAppend(a: seq<Attribute>, b: seq<Attribute>)
    requires AllProper(a) && AllProper(b)
    ensures AllProper(a + b)
  {}

  lemma FirstProper(m: Message)
    ensures AllProper(FirstAttrs(m)) && |FirstAttrs(m)| <= 4
  {}

  lemma MiddleProper(m: Message)
    requires StringOk(m.username) && StringOk(m.password)
    ensures AllProper(MiddleAttrs(m)) && |MiddleAttrs(m)| <= 4
  {}

  lemma LastProper(m: Message)
    requires StringOk(m.serverName)
    ensures AllProper(LastAttrs(m)) && |LastAttrs(m)| <= 3
  {}

  lemma AttrsProper(m: Message)
    requires Encodable(m)
    ensures AllProper(FirstAttrs(m)) && AllProper(MiddleAttrs(m)) && AllProper(LastAttrs(m)) && AllProper(Attrs(m))
    ensures |Attrs(m)| <= 11
  {
    FirstProper(m);
    MiddleProper(m);
    LastProper(m);
    ProperAppend(FirstAttrs(m), MiddleAttrs(m));
    ProperAppend(FirstAttrs(m) + MiddleAttrs(m), LastAttrs(m));
  }

  lemma {:induction false} PutAttrs(m: Message, m0: Message)
    requires Encodable(m)
    ensures AllProper(Attrs(m)) && PutAll(m0, Attrs(m)) == Over(m, m0)
  {
    AttrsProper(m);
    PutAllAppend(m0, FirstAttrs(m) + MiddleAttrs(m), LastAttrs(m));
    PutAllAppend(m0, FirstAttrs(m), MiddleAttrs(m));
    PutFirst(m, m0);
    PutMiddle(m, OverFirst(m, m0));
    PutLast(m, OverMiddle(m, OverFirst(m, m0)));
  }

  lemma {:induction false} AttrsLen(attrs: seq<Attribute>)
    requires AllProper(attrs)
    ensures |AttrsBytes(attrs)| <= 260 * |attrs|
  {
    if attrs != [] {
      AttrBytesIs(attrs[0]);
      AttrsLen(attrs[1..]);
    }
  }

  /** The bytes of a message. */
  function Encode(m: Message): (b: seq<byte>)
    requires Encodable(m)
    ensures HEADER_SIZE <= |b| < 0x1_0000
  {
    AttrsProper(m);
    AttrsLen(Attrs(m));
    var body := AttrsBytes(Attrs(m));
    Bytes16(m.hdr.msgType) + Bytes16(|body|) + m.hdr.id + body
  }

  /** Every string present is shorter than the field that receives it. */
  predicate StringsShort(m: Message) {
    && (m.username.has ==> |m.username.value| < STUN_MAX_STRING)
    && (m.password.has ==> |m.password.value| < STUN_MAX_STRING)
    && (m.serverName.has ==> |m.serverName.value| < STUN_MAX_STRING)
  }

  lemma ShortAppend(a: seq<Attribute>, b: seq<Attribute>)
    ensures AllShort(a + b) <==> AllShort(a) && AllShort(b)
  {
    if AllShort(a + b) {
      forall i | 0 <= i < |a| ensures Short(a[i]) { assert (a + b)[i] == a[i]; }
      forall i | 0 <= i < |b| ensures Short(b[i]) { assert (a + b)[|a| + i] == b[i]; }
    }
  }

  lemma ShortAttrs(m: Message)
    ensures AllShort(Attrs(m)) <==> StringsShort(m)
  {
    ShortAppend(FirstAttrs(m) + MiddleAttrs(m), LastAttrs(m));
    ShortAppend(FirstAttrs(m), MiddleAttrs(m));
    ShortFirst(m);
    ShortMiddle(m);
    ShortLast(m);
  }

  lemma ShortFirst(m: Message)
    ensures AllShort(FirstAttrs(m))
  {}

  lemma ShortMiddle(m: Message)
    ensures AllShort(MiddleAttrs(m)) <==> (m.username.has ==> |m.username.value| < STUN_MAX_STRING)
                                          && (m.password.has ==> |m.password.value| < STUN_MAX_STRING)
  {
    var c, u, p, r := AddressAttrs(CHANGED_ADDRESS, m.changed), StringAttrs(USERNAME, m.username),
                      StringAttrs(PASSWORD, m.password), AddressAttrs(REFLECTED_FROM, m.reflected);
    ShortAppend(c + u + p, r);
    ShortAppend(c + u, p);
    ShortAppend(c, u);
    ShortString(USERNAME, m.username);
    ShortString(PASSWORD, m.password);
  }

  lemma ShortLast(m: Message)
    ensures AllShort(LastAttrs(m)) <==> (m.serverName.has ==> |m.serverName.value| < STUN_MAX_STRING)
  {
    var x, n := AddressAttrs(XOR_MAPPED_ADDRESS, m.xorMapped), StringAttrs(SERVER_NAME, m.serverName);
    ShortAppend(x + n, AddressAttrs(SECONDARY_ADDRESS, m.secondary));
    ShortAppend(x, n);
    ShortString(SERVER_NAME, m.serverName);
  }

  lemma ShortString(t: u16, f: Field<seq<byte>>)
    ensures AllShort(StringAttrs(t, f)) <==> (f.has ==> |f.value| < STUN_MAX_STRING)
  {
    if f.has { assert StringAttrs(t, f)[0] == StringAttr(t, f.value); }
  }

  /** A message that was encoded is parsed again exactly if no string fills its field to the last
      byte; its fields are then those of the message, over those that were there before. */
  lemma RoundTrip(m: Message, m0: Message)
    requires Encodable(m) && |m0.hdr.id| == 16
    ensures StringsShort(m) ==>
              Parse(Encode(m), m0) == Parsed(Over(m, m0).(hdr := Header(m.hdr.msgType, |Encode(m)| - HEADER_SIZE, m.hdr.id)))
    ensures !StringsShort(m) ==> Parse(Encode(m), m0).Rejected?
  {
    AttrsProper(m);
    AttrsLen(Attrs(m));
    var body := AttrsBytes(Attrs(m));
    HeaderRead(m.hdr.msgType, |body|, m.hdr.id, body);
    var m1 := m0.(hdr := Header(m.hdr.msgType, |body|, m.hdr.id));
    AttrsRead(Attrs(m), m1);
    PutAttrs(m, m1);
    ShortAttrs(m);
  }

  lemma HeaderRead(t: u16, n: u16, id: seq<byte>, body: seq<byte>)
    requires |id| == 16
    ensures var b := Bytes16(t) + Bytes16(n) + id + body;
            Get16(b) == t && Get16(b[2..]) == n && b[4..20] == id && b[20..] == body
  {
    var b := Bytes16(t) + Bytes16(n) + id + body;
    assert b == Bytes16(t) + (Bytes16(n) + (id + body));
    Got16(t, Bytes16(n) + (id + body));
    Got16(n, id + body);
  }

  predicate Cleared(m: Message) {
    && !m.mapped.has && !m.response.has && !m.change.has && !m.source.has && !m.changed.has && !m.username.has
    && !m.password.has && !m.reflected.has && !m.xorMapped.has && !m.serverName.has && !m.secondary.has
  }

  /** The same presence, and the same value if present. */
  predicate Same<T(==)>(f: Field<T>, g: Field<T>) { f.has == g.has && (f.has ==> f.value == g.value) }

  predicate SameFields(m: Message, n: Message) {
    && Same(m.mapped, n.mapped) && Same(m.response, n.response) && Same(m.change, n.change) && Same(m.source, n.source)
    && Same(m.changed, n.changed) && Same(m.username, n.username) && Same(m.password, n.password)
    && Same(m.reflected, n.reflected) && Same(m.xorMapped, n.xorMapped) && Same(m.serverName, n.serverName)
    && Same(m.secondary, n.secondary)
  }

  predicate V4(f: Field<Address>) { f.has ==> f.value.family == IPV4_FAMILY }

  /** Read into a cleared message, the fields and flags are those of the message that was encoded,
      exactly if its addresses are marked as IPv4. */
  lemma RoundTripFields(m: Message, m0: Message)
    requires Encodable(m) && |m0.hdr.id| == 16 && StringsShort(m) && Cleared(m0)
    ensures Parse(Encode(m), m0).Parsed?
    ensures SameFields(m, Parse(Encode(m), m0).m) <==>
            V4(m.mapped) && V4(m.response) && V4(m.source) && V4(m.changed) && V4(m.reflected) && V4(m.xorMapped)
            && V4(m.secondary)
  {
    RoundTrip(m, m0);
  }
}
