/** Writing and reading STUN messages in buffers. */
module StunBuffers {
  import opened Bytes
  import opened Stun

  /** Copies bytes into the buffer at ptr. */
  method Write(buf: array<byte>, ptr: nat, data: seq<byte>) returns (next: nat)
    requires ptr + |data| <= buf.Length
    modifies buf
    ensures next == ptr + |data| && buf[..next] == old(buf[..ptr]) + data
  {
    forall i | 0 <= i < |data| {
      buf[ptr + i] := data[i];
    }
    next := ptr + |data|;
  }

  /** The buffer goes on with some attributes. */
  ghost predicate Extends(before: seq<byte>, after: seq<byte>, attrs: seq<Attribute>) {
    AllProper(attrs) && after == before + AttrsBytes(attrs)
  }

  lemma OneAttr(a: Attribute)
    requires Proper(a)
    ensures AttrsBytes([a]) == AttrBytes(a)
  {
    assert AttrsBytes([a][1..]) == [];
  }

  method WriteAddress(buf: array<byte>, ptr: nat, t: u16, f: Field<Address>) returns (next: nat)
    requires AddressKind(t) && ptr + |AttrsBytes(AddressAttrs(t, f))| <= buf.Length
    modifies buf
    ensures next == ptr + |AttrsBytes(AddressAttrs(t, f))| && Extends(old(buf[..ptr]), buf[..next], AddressAttrs(t, f))
  {
    next := ptr;
    if f.has {
      OneAttr(AddressAttr(t, f.value));
      next := Write(buf, next, Bytes16(t));
      next := Write(buf, next, Bytes16(8));
      next := Write(buf, next, AddressBytes(f.value));
    }
  }

  method WriteChange(buf: array<byte>, ptr: nat, f: Field<u32>) returns (next: nat)
    requires ptr + |AttrsBytes(ChangeAttrs(f))| <= buf.Length
    modifies buf
    ensures next == ptr + |AttrsBytes(ChangeAttrs(f))| && Extends(old(buf[..ptr]), buf[..next], ChangeAttrs(f))
  {
    next := ptr;
    if f.has {
      OneAttr(ChangeAttr(f.value));
      next := Write(buf, next, Bytes16(CHANGE_REQUEST));
      next := Write(buf, next, Bytes16(4));
      next := Write(buf, next, Bytes32(f.value));
    }
  }

  method WriteString(buf: array<byte>, ptr: nat, t: u16, f: Field<seq<byte>>) returns (next: nat)
    requires StringKind(t) && StringOk(f) && ptr + |AttrsBytes(StringAttrs(t, f))| <= buf.Length
    modifies buf
    ensures next == ptr + |AttrsBytes(StringAttrs(t, f))| && Extends(old(buf[..ptr]), buf[..next], StringAttrs(t, f))
  {
    next := ptr;
    if f.has {
      OneAttr(StringAttr(t, f.value));
      next := Write(buf, next, Bytes16(t));
      next := Write(buf, next, Bytes16(|f.value|));
      next := Write(buf, next, f.value);
    }
  }

  lemma {:induction false} BytesAppend(a: seq<Attribute>, b: seq<Attribute>)
    requires AllProper(a) && AllProper(b)
    ensures AttrsBytes(a + b) == AttrsBytes(a) + AttrsBytes(b)
  {
    if a == [] {
      assert a + b == b;
    } else {
      assert (a + b)[1..] == a[1..] + b;
      BytesAppend(a[1..], b);
    }
  }

  lemma Associative(x: seq<byte>, a: seq<byte>, b: seq<byte>)
    ensures (x + a) + b == x + (a + b)
  {}

  lemma ProperAppend(a: seq<Attribute>, b: seq<Attribute>)
    requires AllProper(a) && AllProper(b)
    ensures AllProper(a + b)
  {}

  lemma ExtendsTwice(x: seq<byte>, y: seq<byte>, z: seq<byte>, a: seq<Attribute>, b: seq<Attribute>)
    requires Extends(x, y, a) && Extends(y, z, b)
    ensures Extends(x, z, a + b)
  {
    ProperAppend(a, b);
    BytesAppend(a, b);
    Associative(x, AttrsBytes(a), AttrsBytes(b));
  }

  lemma {:induction false} LenAppend(a: seq<Attribute>, b: seq<Attribute>)
    requires AllProper(a) && AllProper(b)
    ensures AllProper(a + b) && |AttrsBytes(a + b)| == |AttrsBytes(a)| + |AttrsBytes(b)|
  {
    BytesAppend(a, b);
  }

  /** Four lists of attributes one after the other. */
  lemma Four(x: seq<byte>, x1: seq<byte>, x2: seq<byte>, x3: seq<byte>, x4: seq<byte>, a: seq<Attribute>,
             b: seq<Attribute>, c: seq<Attribute>, d: seq<Attribute>)
    requires Extends(x, x1, a) && Extends(x1, x2, b) && Extends(x2, x3, c) && Extends(x3, x4, d)
    ensures Extends(x, x4, a + b + c + d)
  {
    ExtendsTwice(x, x1, x2, a, b);
    ExtendsTwice(x, x2, x3, a + b, c);
    ExtendsTwice(x, x3, x4, a + b + c, d);
  }

  lemma {:induction false} FourLens(a: seq<Attribute>, b: seq<Attribute>, c: seq<Attribute>, d: seq<Attribute>)
    requires AllProper(a) && AllProper(b) && AllProper(c) && AllProper(d)
    ensures AllProper(a + b + c + d)
    ensures |AttrsBytes(a + b + c + d)| == |AttrsBytes(a)| + |AttrsBytes(b)| + |AttrsBytes(c)| + |AttrsBytes(d)|
  {
    LenAppend(a, b);
    LenAppend(a + b, c);
    LenAppend(a + b + c, d);
  }

  method WriteFirst(m: Message, buf: array<byte>, ptr: nat) returns (next: nat)
    requires AllProper(FirstAttrs(m)) && ptr + |AttrsBytes(FirstAttrs(m))| <= buf.Length
    modifies buf
    ensures next == ptr + |AttrsBytes(FirstAttrs(m))| && Extends(old(buf[..ptr]), buf[..next], FirstAttrs(m))
  {
    ghost var a, b, c, d := AddressAttrs(MAPPED_ADDRESS, m.mapped), AddressAttrs(RESPONSE_ADDRESS, m.response),
                            ChangeAttrs(m.change), AddressAttrs(SOURCE_ADDRESS, m.source);
    FourLens(a, b, c, d);
    ghost var x := buf[..ptr];
    next := WriteAddress(buf, ptr, MAPPED_ADDRESS, m.mapped);
    ghost var x1 := buf[..next];
    next := WriteAddress(buf, next, RESPONSE_ADDRESS, m.response);
    ghost var x2 := buf[..next];
    next := WriteChange(buf, next, m.change);
    ghost var x3 := buf[..next];
    next := WriteAddress(buf, next, SOURCE_ADDRESS, m.source);
    Four(x, x1, x2, x3, buf[..next], a, b, c, d);
  }

  method WriteMiddle(m: Message, buf: array<byte>, ptr: nat) returns (next: nat)
    requires Encodable(m) && AllProper(MiddleAttrs(m)) && ptr + |AttrsBytes(MiddleAttrs(m))| <= buf.Length
    modifies buf
    ensures next == ptr + |AttrsBytes(MiddleAttrs(m))| && Extends(old(buf[..ptr]), buf[..next], MiddleAttrs(m))
  {
    ghost var a, b, c, d := AddressAttrs(CHANGED_ADDRESS, m.changed), StringAttrs(USERNAME, m.username),
                            StringAttrs(PASSWORD, m.password), AddressAttrs(REFLECTED_FROM, m.reflected);
    FourLens(a, b, c, d);
    ghost var x := buf[..ptr];
    next := WriteAddress(buf, ptr, CHANGED_ADDRESS, m.changed);
    ghost var x1 := buf[..next];
    next := WriteString(buf, next, USERNAME, m.username);
    ghost var x2 := buf[..next];
    next := WriteString(buf, next, PASSWORD, m.password);
    ghost var x3 := buf[..next];
    next := WriteAddress(buf, next, REFLECTED_FROM, m.reflected);
    Four(x, x1, x2, x3, buf[..next], a, b, c, d);
  }

  method WriteLast(m: Message, buf: array<byte>, ptr: nat) returns (next: nat)
    requires Encodable(m) && AllProper(LastAttrs(m)) && ptr + |AttrsBytes(LastAttrs(m))| <= buf.Length
    modifies buf
    ensures next == ptr + |AttrsBytes(LastAttrs(m))| && Extends(old(buf[..ptr]), buf[..next], LastAttrs(m))
  {
    ghost var a, b, c := AddressAttrs(XOR_MAPPED_ADDRESS, m.xorMapped), StringAttrs(SERVER_NAME, m.serverName),
                         AddressAttrs(SECONDARY_ADDRESS, m.secondary);
    LenAppend(a, b);
    LenAppend(a + b, c);
    ghost var x := buf[..ptr];
    next := WriteAddress(buf, ptr, XOR_MAPPED_ADDRESS, m.xorMapped);
    ghost var x1 := buf[..next];
    next := WriteString(buf, next, SERVER_NAME, m.serverName);
    ghost var x2 := buf[..next];
    next := WriteAddress(buf, next, SECONDARY_ADDRESS, m.secondary);
    ExtendsTwice(x, x1, x2, a, b);
    ExtendsTwice(x, x2, buf[..next], a + b, c);
  }

  method WriteAttrs(m: Message, buf: array<byte>, ptr: nat) returns (next: nat)
    requires Encodable(m) && AllProper(Attrs(m)) && ptr + |AttrsBytes(Attrs(m))| <= buf.Length
    modifies buf
    ensures next == ptr + |AttrsBytes(Attrs(m))| && Extends(old(buf[..ptr]), buf[..next], Attrs(m))
  {
    AttrsProper(m);
    LenAppend(FirstAttrs(m), MiddleAttrs(m));
    LenAppend(FirstAttrs(m) + MiddleAttrs(m), LastAttrs(m));
    ghost var x := buf[..ptr];
    next := WriteFirst(m, buf, ptr);
    ghost var x1 := buf[..next];
    next := WriteMiddle(m, buf, next);
    ghost var x2 := buf[..next];
    next := WriteLast(m, buf, next);
    ExtendsTwice(x, x1, x2, FirstAttrs(m), MiddleAttrs(m));
    ExtendsTwice(x, x2, buf[..next], FirstAttrs(m) + MiddleAttrs(m), LastAttrs(m));
  }

  /** Encodes a message into a buffer, with its length filled in last. */
  method EncodeMessage(m: Message, buf: array<byte>) returns (len: nat)
    requires Encodable(m) && buf.Length >= |Encode(m)|
    modifies buf
    ensures len == |Encode(m)| && buf[..len] == Encode(m)
  {
    AttrsProper(m);
    AttrsLen(Attrs(m));
    ghost var head, body := Bytes16(m.hdr.msgType) + Bytes16(0) + m.hdr.id, AttrsBytes(Attrs(m));
    var ptr := WriteHeader(buf, m.hdr);
    len := WriteAttrs(m, buf, ptr);
    assert buf[..len] == head + body;
    Patch(buf, 2, len - HEADER_SIZE, len);
    Patched(Bytes16(m.hdr.msgType), |body|, m.hdr.id, body);
  }

  /** Writes the header, the length as zero. */
  method WriteHeader(buf: array<byte>, h: Header) returns (ptr: nat)
    requires |h.id| == 16 && buf.Length >= HEADER_SIZE
    modifies buf
    ensures ptr == HEADER_SIZE && buf[..ptr] == Bytes16(h.msgType) + Bytes16(0) + h.id
  {
    ptr := Write(buf, 0, Bytes16(h.msgType));
    ptr := Write(buf, ptr, Bytes16(0));
    ptr := Write(buf, ptr, h.id);
  }

  /** Overwrites two bytes. */
  method Patch(buf: array<byte>, at: nat, v: u16, ghost len: nat)
    requires at + 2 <= len <= buf.Length
    modifies buf
    ensures buf[..len] == old(buf[..len])[..at] + Bytes16(v) + old(buf[..len])[at + 2..]
  {
    buf[at], buf[at + 1] := v / 256, v % 256;
  }

  lemma Patched(t: seq<byte>, n: u16, id: seq<byte>, body: seq<byte>)
    requires |t| == 2
    ensures var b := t + Bytes16(0) + id + body; b[..2] + Bytes16(n) + b[4..] == t + Bytes16(n) + id + body
  {
    var b := t + Bytes16(0) + id + body;
    assert b == t + (Bytes16(0) + (id + body));
    assert b[..2] == t && b[4..] == id + body;
  }

  /** Parses the first bufLen bytes of a buffer over message m. */
  method ParseMessage(buf: array<byte>, bufLen: nat, m: Message) returns (out: Outcome)
    requires bufLen <= buf.Length && |m.hdr.id| == 16
    ensures out == Parse(buf[..bufLen], m)
  {
    if bufLen < HEADER_SIZE {
      return Rejected(m.(hdr := Header(0, 0, [0, 0, 0, 0] + m.hdr.id[4..])));
    }
    var msg := m.(hdr := Header(Get16(buf[..2]), Get16(buf[2..4]), buf[4..20]));
    HeaderParts(buf[..bufLen]);
    assert buf[..bufLen][4..20] == buf[4..20];
    if msg.hdr.msgLength + HEADER_SIZE != bufLen {
      return Rejected(msg);
    }
    out := ParseBody(buf, bufLen, msg);
  }

  lemma HeaderParts(b: seq<byte>)
    requires |b| >= 4
    ensures Get16(b[..2]) == Get16(b) && Get16(b[2..4]) == Get16(b[2..])
  {}

  lemma Slices(s: seq<byte>, from: nat, i: nat, j: nat, to: nat)
    requires i <= j && from + j <= to <= |s|
    ensures s[from..to][i..j] == s[from + i..from + j] && s[from..to][j..] == s[from + j..to]
  {
    var a, b := s[from..to][i..j], s[from + i..from + j];
    assert |a| == |b| && forall k :: 0 <= k < |a| ==> a[k] == b[k];
  }

  /** Parses attribute after attribute. */
  method ParseBody(buf: array<byte>, bufLen: nat, m: Message) returns (out: Outcome)
    requires HEADER_SIZE <= bufLen <= buf.Length
    ensures out == ParseAttrs(buf[HEADER_SIZE..bufLen], m)
  {
    var msg, body := m, HEADER_SIZE;
    while bufLen - body > 0
      invariant body <= bufLen
      invariant ParseAttrs(buf[HEADER_SIZE..bufLen], m) == ParseAttrs(buf[body..bufLen], msg)
    {
      var next;
      out, next := ParseOne(buf, body, bufLen, msg);
      if !out.Parsed? {
        return;
      }
      msg, body := out.m, next;
    }
    return Parsed(msg);
  }

  /** Parses the attribute at body. A rest of fewer than four bytes is too short for whatever length
      is read behind it. */
  method ParseOne(buf: array<byte>, body: nat, bufLen: nat, msg: Message) returns (out: Outcome, next: nat)
    requires body < bufLen <= buf.Length
    ensures out.Parsed? ==> body < next <= bufLen
    ensures ParseAttrs(buf[body..bufLen], msg) == if out.Parsed? then ParseAttrs(buf[next..bufLen], out.m) else out
  {
    ghost var rest := buf[body..bufLen];
    next := body;
    if bufLen - body < 4 {
      return Rejected(msg), next;
    }
    var atrType, attrLen := Get16(buf[body..body + 2]), Get16(buf[body + 2..body + 4]);
    Slices(buf[..], body, 0, 2, bufLen);
    Slices(buf[..], body, 2, 4, bufLen);
    HeaderParts(rest);
    if attrLen + 4 > bufLen - body {
      return Rejected(msg), next;
    }
    next := body + 4 + attrLen;
    Slices(buf[..], body, 4, 4 + attrLen, bufLen);
    out := ParseAttr(atrType, buf[body + 4..next], msg);
  }
}
