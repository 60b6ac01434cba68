/** The bytes of a STUN message, one by one. */
module StunLayout {
  import opened Bytes
  import opened Stun

  /** An address attribute of the type hi * 256 + lo, if there is one. */
  function AddressPart(hi: byte, lo: byte, f: Field<Address>): seq<byte> {
    if !f.has then []
    else
      var a := f.value;
      [hi, lo, 0, 8, a.pad, 1, a.port / 256, a.port % 256,
       a.addr / 0x100_0000, a.addr / 0x1_0000 % 256, a.addr / 256 % 256, a.addr % 256]
  }

  function FlagsPart(f: Field<u32>): seq<byte> {
    if !f.has then []
    else [0, 3, 0, 4, f.value / 0x100_0000, f.value / 0x1_0000 % 256, f.value / 256 % 256, f.value % 256]
  }

  function StringPart(hi: byte, lo: byte, f: Field<seq<byte>>): seq<byte>
    requires StringOk(f)
  {
    if !f.has then [] else [hi, lo, |f.value| / 256, |f.value| % 256] + f.value
  }

  lemma {:induction false} BytesAppend(a: seq<Attribute>, b: seq<Attribute>)
    requires AllProper(a) && AllProper(b)
    ensures AllProper(a + b) && AttrsBytes(a + b) == AttrsBytes(a) + AttrsBytes(b)
  {
    ProperAppend(a, b);
    if a == [] {
      assert a + b == b;
    } else {
      assert (a + b)[1..] == a[1..] + b;
      BytesAppend(a[1..], b);
    }
  }

  lemma OneAttr(a: Attribute)
    requires Proper(a)
    ensures AttrsBytes([a]) == AttrBytes(a)
  {
    assert [a][1..] == [];
    assert AttrsBytes([a][1..]) == [];
  }

  lemma AddressLayout(t: u16, f: Field<Address>)
    requires AddressKind(t)
    ensures AllProper(AddressAttrs(t, f)) && AttrsBytes(AddressAttrs(t, f)) == AddressPart(t / 256, t % 256, f)
  {
    if f.has {
      OneAttr(AddressAttr(t, f.value));
      Four(f.value.addr);
    }
  }

  lemma Four(v: u32)
    ensures Stun.Bytes32(v) == [v / 0x100_0000, v / 0x1_0000 % 256, v / 256 % 256, v % 256]
  {
    HighByte(v);
    LowBytes(v / 0x1_0000, v % 0x1_0000);
    assert v == v / 0x1_0000 * 0x1_0000 + v % 0x1_0000;
  }

  lemma HighByte(v: nat)
    ensures v / 0x1_0000 / 256 == v / 0x100_0000
  {}

  lemma LowBytes(hi: nat, lo: nat)
    requires lo < 0x1_0000
    ensures (hi * 0x1_0000 + lo) / 256 % 256 == lo / 256 && (hi * 0x1_0000 + lo) % 256 == lo % 256
  {
    assert hi * 0x1_0000 + lo == 256 * (256 * hi + lo / 256) + lo % 256;
    assert (hi * 0x1_0000 + lo) / 256 == 256 * hi + lo / 256;
  }

  lemma FlagsLayout(f: Field<u32>)
    ensures AllProper(ChangeAttrs(f)) && AttrsBytes(ChangeAttrs(f)) == FlagsPart(f)
  {
    if f.has {
      OneAttr(ChangeAttr(f.value));
      Four(f.value);
    }
  }

  lemma StringLayout(t: u16, f: Field<seq<byte>>)
    requires StringKind(t) && StringOk(f)
    ensures AllProper(StringAttrs(t, f)) && AttrsBytes(StringAttrs(t, f)) == StringPart(t / 256, t % 256, f)
  {
    if f.has { OneAttr(StringAttr(t, f.value)); }
  }

  lemma FirstLayout(m: Message)
    ensures AllProper(FirstAttrs(m))
    ensures AttrsBytes(FirstAttrs(m)) ==
            AddressPart(0, 1, m.mapped) + AddressPart(0, 2, m.response) + FlagsPart(m.change) + AddressPart(0, 4, m.source)
  {
    AddressLayout(MAPPED_ADDRESS, m.mapped);
    AddressLayout(RESPONSE_ADDRESS, m.response);
    FlagsLayout(m.change);
    AddressLayout(SOURCE_ADDRESS, m.source);
    Join4(AddressAttrs(MAPPED_ADDRESS, m.mapped), AddressAttrs(RESPONSE_ADDRESS, m.response), ChangeAttrs(m.change),
          AddressAttrs(SOURCE_ADDRESS, m.source));
  }

  lemma {:induction false} Join4(a: seq<Attribute>, b: seq<Attribute>, c: seq<Attribute>, d: seq<Attribute>)
    requires AllProper(a) && AllProper(b) && AllProper(c) && AllProper(d)
    ensures AllProper(a + b + c + d) && AttrsBytes(a + b + c + d) == AttrsBytes(a) + AttrsBytes(b) + AttrsBytes(c) + AttrsBytes(d)
  {
    BytesAppend(a, b);
    BytesAppend(a + b, c);
    BytesAppend(a + b + c, d);
  }

  lemma MiddleLayout(m: Message)
    requires StringOk(m.username) && StringOk(m.password)
    ensures AllProper(MiddleAttrs(m))
    ensures AttrsBytes(MiddleAttrs(m)) ==
            AddressPart(0, 5, m.changed) + StringPart(0, 6, m.username) + StringPart(0, 7, m.password) + AddressPart(0, 11, m.reflected)
  {
    AddressLayout(CHANGED_ADDRESS, m.changed);
    StringLayout(USERNAME, m.username);
    StringLayout(PASSWORD, m.password);
    AddressLayout(REFLECTED_FROM, m.reflected);
    Join4(AddressAttrs(CHANGED_ADDRESS, m.changed), StringAttrs(USERNAME, m.username), StringAttrs(PASSWORD, m.password),
          AddressAttrs(REFLECTED_FROM, m.reflected));
  }

  lemma LastLayout(m: Message)
    requires StringOk(m.serverName)
    ensures AllProper(LastAttrs(m))
    ensures AttrsBytes(LastAttrs(m)) ==
            AddressPart(128, 32, m.xorMapped) + StringPart(128, 34, m.serverName) + AddressPart(128, 80, m.secondary)
  {
    AddressLayout(XOR_MAPPED_ADDRESS, m.xorMapped);
    StringLayout(SERVER_NAME, m.serverName);
    AddressLayout(SECONDARY_ADDRESS, m.secondary);
    BytesAppend(AddressAttrs(XOR_MAPPED_ADDRESS, m.xorMapped), StringAttrs(SERVER_NAME, m.serverName));
    BytesAppend(AddressAttrs(XOR_MAPPED_ADDRESS, m.xorMapped) + StringAttrs(SERVER_NAME, m.serverName),
                AddressAttrs(SECONDARY_ADDRESS, m.secondary));
  }

  /** What follows the header. */
  function Body(m: Message): seq<byte>
    requires Encodable(m)
  {
    (AddressPart(0, 1, m.mapped) + AddressPart(0, 2, m.response) + FlagsPart(m.change) + AddressPart(0, 4, m.source))
    + (AddressPart(0, 5, m.changed) + StringPart(0, 6, m.username) + StringPart(0, 7, m.password) + AddressPart(0, 11, m.reflected))
    + (AddressPart(128, 32, m.xorMapped) + StringPart(128, 34, m.serverName) + AddressPart(128, 80, m.secondary))
  }

  /** The bytes of a message: type, length and identifier, then the attributes that are present, each
      with the number that RFC 3489 or its extensions give it, its length and its value. */
  lemma Layout(m: Message)
    requires Encodable(m)
    ensures |Body(m)| < 0x1_0000
    ensures Encode(m) == [m.hdr.msgType / 256, m.hdr.msgType % 256, |Body(m)| / 256, |Body(m)| % 256] + m.hdr.id + Body(m)
  {
    FirstLayout(m);
    MiddleLayout(m);
    LastLayout(m);
    BytesAppend(FirstAttrs(m), MiddleAttrs(m));
    BytesAppend(FirstAttrs(m) + MiddleAttrs(m), LastAttrs(m));
    AttrsProper(m);
    AttrsLen(Attrs(m));
  }

  lemma ReadHead(hi: byte, lo: byte, body: seq<byte>, rest: seq<byte>)
    requires |body| < 0x1_0000
    ensures var b := [hi, lo, |body| / 256, |body| % 256] + body + rest;
            && Get16(b) == hi * 256 + lo && Get16(b[2..]) == |body| && b[4..4 + |body|] == body && b[4 + |body|..] == rest
  {
    var b := [hi, lo, |body| / 256, |body| % 256] + body + rest;
    assert b[2..][0] == |body| / 256 && b[2..][1] == |body| % 256;
  }

  /** An attribute that is not known is skipped if its type is at least 0x8000, and otherwise makes the
      message rejected; the message read so far stays. */
  lemma {:induction false} UnknownRead(hi: byte, lo: byte, body: seq<byte>, rest: seq<byte>, m: Message)
    requires |body| < 0x1_0000
    requires (hi, lo) !in {(0, 33), (128, 32), (128, 34), (128, 80)} && !(hi == 0 && 1 <= lo <= 11)
    ensures ParseAttrs([hi, lo, |body| / 256, |body| % 256] + body + rest, m) ==
            if hi >= 128 then ParseAttrs(rest, m) else Rejected(m)
  {
    ReadHead(hi, lo, body, rest);
  }

  /** An attribute that says it is longer than what is left makes the message rejected. */
  lemma {:induction false} TruncatedRejected(hi: byte, lo: byte, n: nat, rest: seq<byte>, m: Message)
    requires |rest| < n < 0x1_0000
    ensures ParseAttrs([hi, lo, n / 256, n % 256] + rest, m) == Rejected(m)
  {
    var b := [hi, lo, n / 256, n % 256] + rest;
    assert b[2..][0] == n / 256 && b[2..][1] == n % 256;
  }
}
