/** Cutting a message into packets. */
module Fragments {
  import opened Bytes
  import opened Wire

  const MON_HEADER_SPACE: nat := 32

  /** The largest message a receiver takes. */
  const MAX_MESSAGE: nat := 0x20000

  /** A message under way: the slots of its connection at the sender and at the receiver, its
      number, its type, its bytes and the monitoring header sent ahead of them. */
  datatype Message = Message(senderId: int, receiverId: int, seqNum: int, msgType: int, data: seq<byte>, hdr: seq<byte>)

  function Min(a: int, b: int): int { if a < b then a else b }

  /** Where packet i begins in the message. */
  function Offset(ps: seq<Packet>, i: nat): nat
    requires i < |ps|
  {
    ps[i].header.offset
  }

  /** Where packet i ends. */
  function End(ps: seq<Packet>, i: nat): nat
    requires i < |ps|
  {
    ps[i].header.offset + |ps[i].payload|
  }

  /** Packet p carries the bytes of the message that begin at its offset. */
  predicate Carries(m: Message, p: Packet) {
    && p.header == MsgHeader(p.header.offset, |m.data|, m.senderId, m.receiverId, m.seqNum, m.msgType, |m.hdr|,
                             |p.monPacketHdr|)
    && p.header.offset + |p.payload| <= |m.data|
    && p.payload == m.data[p.header.offset..p.header.offset + |p.payload|]
    && p.monDataHdr == (if p.header.offset == 0 then m.hdr else [])
  }

  /** The packets carry consecutive parts of the message, from its first byte on. */
  predicate Prefix(m: Message, ps: seq<Packet>) {
    && (forall i :: 0 <= i < |ps| ==> Carries(m, ps[i]))
    && (forall i :: 0 <= i < |ps| ==> Offset(ps, i) == if i == 0 then 0 else End(ps, i - 1))
    && (forall i :: 0 <= i < |ps| && m.data != [] ==> ps[i].payload != [])
  }

  /** The packets carry the whole message. */
  predicate Fragmentation(m: Message, ps: seq<Packet>) {
    Prefix(m, ps) && ps != [] && End(ps, |ps| - 1) == |m.data| && (m.data == [] ==> |ps| == 1)
  }

  /** Parts do not overlap and come in order. */
  lemma {:induction false} InOrder(m: Message, ps: seq<Packet>, i: nat, j: nat)
    requires Prefix(m, ps) && i < j < |ps|
    ensures End(ps, i) <= Offset(ps, j)
    decreases j
  {
    if i < j - 1 { InOrder(m, ps, i, j - 1); }
  }

  /** Every byte lies in exactly one packet. */
  lemma Partition(m: Message, ps: seq<Packet>, p: nat)
    requires Fragmentation(m, ps) && p < |m.data|
    ensures exists i :: 0 <= i < |ps| && Offset(ps, i) <= p < End(ps, i)
    ensures forall i, j | 0 <= i < |ps| && 0 <= j < |ps| && Offset(ps, i) <= p < End(ps, i) && Offset(ps, j) <= p < End(ps, j)
              :: i == j
  {
    var _ := Locate(m, ps, p, |ps|);
    forall i, j | 0 <= i < |ps| && 0 <= j < |ps| && Offset(ps, i) <= p < End(ps, i) && Offset(ps, j) <= p < End(ps, j)
      ensures i == j
    {
      if i < j { InOrder(m, ps, i, j); }
      if j < i { InOrder(m, ps, j, i); }
    }
  }

  lemma {:induction false} Locate(m: Message, ps: seq<Packet>, p: nat, n: nat) returns (i: nat)
    requires Prefix(m, ps) && 0 < n <= |ps| && p < End(ps, n - 1)
    ensures i < n && Offset(ps, i) <= p < End(ps, i)
  {
    if Offset(ps, n - 1) <= p {
      i := n - 1;
    } else {
      i := Locate(m, ps, p, n - 1);
    }
  }

  /** One packet of a message. */
  function Part(m: Message, offset: nat, len: nat, pktHdr: seq<byte>, priority: byte, msgLength: nat): Packet
    requires offset + len <= |m.data|
  {
    Packet(MsgHeader(offset, msgLength, m.senderId, m.receiverId, m.seqNum, m.msgType, |m.hdr|, |pktHdr|),
           pktHdr, if offset == 0 then m.hdr else [], m.data[offset..offset + len], priority)
  }

  /** The smaller packet size to try next. */
  const MAX := 1472
  const DSL := 1464
  const DSLMEDIUM := 1422
  const DSLSLIM := 1372
  const BELOWDSL := 1172
  const MIN := 472
  const P_ERROR := -1

  function PmtuDecrement(pmtu: int): int {
    if pmtu == MAX then DSLSLIM
    else if pmtu == DSL then DSLMEDIUM
    else if pmtu == DSLMEDIUM then DSLSLIM
    else if pmtu == DSLSLIM then MIN
    else if pmtu == BELOWDSL then MIN
    else if pmtu == MIN then P_ERROR
    else MIN
  }

  /** How often a size can be decremented before the error value comes up. */
  function PmtuRank(pmtu: int): (r: nat) {
    if pmtu == P_ERROR then 0
    else if pmtu == MIN then 1
    else if pmtu == DSLSLIM then 2
    else if pmtu == DSLMEDIUM || pmtu == MAX then 3
    else if pmtu == DSL then 4
    else 2
  }

  lemma PmtuRankIs(pmtu: int)
    ensures PmtuRank(pmtu) == 0 <==> pmtu == P_ERROR
    ensures pmtu != P_ERROR ==> PmtuRank(PmtuDecrement(pmtu)) == PmtuRank(pmtu) - 1
    ensures PmtuRank(pmtu) <= 4
    ensures PmtuDecrement(pmtu) < pmtu <==> pmtu >= MIN
  {}

  /** What is left of a packet for the payload. */
  function Room(pmtu: int, m: Message, offset: nat, pktHdr: seq<byte>): int {
    pmtu - (if offset == 0 then |m.hdr| else 0) - |pktHdr| - MSG_HEADER_SIZE
  }

  /** How much of the message is to go into the packet, as a signed number. */
  function PayloadLen(pmtu: int, m: Message, offset: nat, pktHdr: seq<byte>): int {
    Min(Room(pmtu, m, offset, pktHdr), |m.data| - offset)
  }

  /** The length is negative exactly if the headers are larger than the packet size, and sending gets
      on exactly if they are smaller. */
  lemma PayloadLenSign(pmtu: int, m: Message, offset: nat, pktHdr: seq<byte>)
    requires offset <= |m.data|
    ensures PayloadLen(pmtu, m, offset, pktHdr) < 0 <==> Room(pmtu, m, offset, pktHdr) < 0
    ensures offset < |m.data| ==> (PayloadLen(pmtu, m, offset, pktHdr) > 0 <==> Room(pmtu, m, offset, pktHdr) > 0)
    ensures Room(pmtu, m, offset, pktHdr) < 0 <==>
            pmtu < MSG_HEADER_SIZE + |pktHdr| + if offset == 0 then |m.hdr| else 0
  {}

  /** A size of 10, which a peer may ask for, and the error value, which a failed attempt leaves behind,
      give a packet with a negative length. */
  lemma SizesBelowHeaders(m: Message)
    requires m.hdr == []
    ensures PayloadLen(10, m, 0, []) == -13 && PayloadLen(P_ERROR, m, 0, []) == -24
  {}

  /** The packet size is larger than all headers; for an empty message it may be as large. */
  ghost predicate Roomy(pmtu: int, m: Message, pktHdr: nat -> seq<byte>) {
    forall i :: var room := Room(pmtu, m, 0, pktHdr(i)); room > 0 || (room == 0 && m.data == [])
  }

  /** The packet size is at least as large as the headers. */
  ghost predicate NotBelowHeaders(pmtu: int, m: Message, pktHdr: nat -> seq<byte>) {
    forall i :: Room(pmtu, m, 0, pktHdr(i)) >= 0
  }

  /** The monitoring headers fit in the space there is for them. */
  ghost predicate HeadersFit(m: Message, pktHdr: nat -> seq<byte>) {
    |m.hdr| <= MON_HEADER_SPACE && forall i :: |pktHdr(i)| <= MON_HEADER_SPACE
  }

  lemma PrefixSnoc(m: Message, ps: seq<Packet>, p: Packet)
    requires Prefix(m, ps) && Carries(m, p) && (m.data != [] ==> p.payload != [])
    requires p.header.offset == if ps == [] then 0 else End(ps, |ps| - 1)
    ensures Prefix(m, ps + [p])
  {
    var qs := ps + [p];
    forall i | 0 <= i < |qs| ensures Offset(qs, i) == if i == 0 then 0 else End(qs, i - 1) {
      assert i < |ps| ==> Offset(ps, i) == if i == 0 then 0 else End(ps, i - 1);
    }
  }

  /** How an attempt to send ended. */
  datatype Outcome = Done | TooLong | Stopped

  /** How many packets of the last attempt were refused. */
  function Refusals(out: Outcome): nat { if out == Done then 0 else 1 }

  /** Packets that fit in a packet size. */
  predicate Within(ps: seq<Packet>, pmtu: int) {
    forall p :: p in ps ==> PktLen(p) <= pmtu
  }

  /** All packets but the one that ends the message are as long as the packet size. */
  predicate Filled(m: Message, ps: seq<Packet>, pmtu: int) {
    forall i :: 0 <= i < |ps| ==> End(ps, i) == |m.data| || PktLen(ps[i]) == pmtu
  }

  /** The packets have these monitoring headers, from the k0-th on. */
  predicate HeadersOf(ps: seq<Packet>, pktHdr: nat -> seq<byte>, k0: nat) {
    forall i :: 0 <= i < |ps| ==> ps[i].monPacketHdr == pktHdr(k0 + i)
  }

  lemma FilledSnoc(m: Message, ps: seq<Packet>, p: Packet, pmtu: int, pktHdr: nat -> seq<byte>, k0: nat)
    requires Filled(m, ps, pmtu) && HeadersOf(ps, pktHdr, k0) && p.monPacketHdr == pktHdr(k0 + |ps|)
    requires p.header.offset + |p.payload| == |m.data| || PktLen(p) == pmtu
    ensures Filled(m, ps + [p], pmtu) && HeadersOf(ps + [p], pktHdr, k0)
  {
    var qs := ps + [p];
    forall i | 0 <= i < |qs| ensures End(qs, i) == |m.data| || PktLen(qs[i]) == pmtu {
      assert i < |ps| ==> End(qs, i) == End(ps, i);
    }
  }

  lemma OneMore(m: Message, ps: seq<Packet>, p: Packet, pmtu: int, pktHdr: nat -> seq<byte>, k0: nat)
    requires Prefix(m, ps) && Within(ps, pmtu) && Filled(m, ps, pmtu) && HeadersOf(ps, pktHdr, k0)
    requires Carries(m, p) && (m.data != [] ==> p.payload != []) && p.monPacketHdr == pktHdr(k0 + |ps|)
    requires p.header.offset == (if ps == [] then 0 else End(ps, |ps| - 1)) && PktLen(p) <= pmtu
    requires p.header.offset + |p.payload| == |m.data| || PktLen(p) == pmtu
    ensures var qs := ps + [p];
            Prefix(m, qs) && Within(qs, pmtu) && Filled(m, qs, pmtu) && HeadersOf(qs, pktHdr, k0)
  {
    PrefixSnoc(m, ps, p);
    FilledSnoc(m, ps, p, pmtu, pktHdr, k0);
  }

  /** The monitoring header goes with the first packet, which begins where nothing else does. */
  lemma HeaderOnce(m: Message, ps: seq<Packet>, i: nat)
    requires Prefix(m, ps) && i < |ps|
    ensures |ps[i].monDataHdr| == (if i == 0 || m.data == [] then |m.hdr| else 0) && End(ps, i) <= |m.data|
    ensures Offset(ps, i) == if i == 0 then 0 else End(ps, i - 1)
  {
    assert Carries(m, ps[i]);
    if i > 0 { assert Carries(m, ps[i - 1]); }
  }

  /** Filled packets get at least as far as any packets with the same headers and size. */
  lemma {:induction false} GetsFarthest(m: Message, ps: seq<Packet>, qs: seq<Packet>, pmtu: int, pktHdr: nat -> seq<byte>,
                                        k0: nat, i: nat)
    requires Prefix(m, ps) && Filled(m, ps, pmtu) && HeadersOf(ps, pktHdr, k0)
    requires Prefix(m, qs) && Within(qs, pmtu) && HeadersOf(qs, pktHdr, k0)
    requires i < |ps| && i < |qs|
    ensures End(qs, i) <= End(ps, i)
  {
    HeaderOnce(m, ps, i);
    HeaderOnce(m, qs, i);
    if i > 0 { GetsFarthest(m, ps, qs, pmtu, pktHdr, k0, i - 1); }
    assert qs[i] in qs && ps[i].monPacketHdr == qs[i].monPacketHdr;
  }

  lemma NotDoneBefore(m: Message, ps: seq<Packet>, i: nat)
    requires Fragmentation(m, ps) && i + 1 < |ps|
    ensures End(ps, i) < |m.data|
  {
    HeaderOnce(m, ps, i + 1);
  }

  /** No other way to cut a message into packets of that size, with these headers, takes fewer. */
  lemma FewestPackets(m: Message, ps: seq<Packet>, qs: seq<Packet>, pmtu: int, pktHdr: nat -> seq<byte>, k0: nat)
    requires Fragmentation(m, ps) && Filled(m, ps, pmtu) && HeadersOf(ps, pktHdr, k0)
    requires Fragmentation(m, qs) && Within(qs, pmtu) && HeadersOf(qs, pktHdr, k0)
    ensures |ps| <= |qs|
  {
    if |qs| < |ps| {
      GetsFarthest(m, ps, qs, pmtu, pktHdr, k0, |qs| - 1);
      NotDoneBefore(m, ps, |qs| - 1);
    }
  }

  /** Offers the packets of a message to the queue, once, until one is not taken: codes(k) is what
      the queue answers to the k-th packet offered, and pktHdr(k) the monitoring header put on it. */
  method SendOnce(m: Message, pmtu: int, pktHdr: nat -> seq<byte>, codes: nat -> Code, k0: nat)
    returns (out: Outcome, sent: seq<Packet>, k: nat)
    requires Roomy(pmtu, m, pktHdr)
    ensures Prefix(m, sent) && Within(sent, pmtu) && Filled(m, sent, pmtu) && HeadersOf(sent, pktHdr, k0)
    ensures k > k0 && (out == Done <==> codes(k - 1) == OK)
    ensures out == Done ==> Fragmentation(m, sent) && k == k0 + |sent|
    ensures out != Done ==> k == k0 + |sent| + 1 && (out == TooLong <==> codes(k - 1) == MSGLEN)
    ensures forall j :: k0 <= j < k0 + |sent| ==> codes(j) == OK
  {
    var offset := 0;
    sent, k := [], k0;
    while true
      invariant k == k0 + |sent| && offset == (if sent == [] then 0 else End(sent, |sent| - 1))
      invariant Prefix(m, sent) && Within(sent, pmtu) && Filled(m, sent, pmtu) && HeadersOf(sent, pktHdr, k0)
      invariant offset < |m.data| || (m.data == [] && sent == [])
      invariant forall j :: k0 <= j < k0 + |sent| ==> codes(j) == OK
      decreases |m.data| - offset, |sent| == 0
    {
      RoomIs(pmtu, m, offset, pktHdr, k);
      var len := PayloadLen(pmtu, m, offset, pktHdr(k));
      var p := Part(m, offset, len, pktHdr(k), 0, |m.data|);
      k := k + 1;
      match codes(k - 1) {
        case OK =>
          OneMore(m, sent, p, pmtu, pktHdr, k0);
          sent := sent + [p];
          offset := offset + len;
        case MSGLEN =>
          return TooLong, sent, k;
        case FAILURE =>
          return Stopped, sent, k;
        case THROTTLE =>
          return Stopped, sent, k;
      }
      if offset == |m.data| {
        return Done, sent, k;
      }
    }
  }

  /** Sending gets on, within the packet size. */
  lemma RoomIs(pmtu: int, m: Message, offset: nat, pktHdr: nat -> seq<byte>, k: nat)
    requires Roomy(pmtu, m, pktHdr) && offset <= |m.data|
    ensures PayloadLen(pmtu, m, offset, pktHdr(k)) >= 0
    ensures offset < |m.data| ==> PayloadLen(pmtu, m, offset, pktHdr(k)) > 0
  {
    assert Room(pmtu, m, offset, pktHdr(k)) >= Room(pmtu, m, 0, pktHdr(k));
  }

  /** The sizes that come after a decrement are larger than all headers. */
  lemma DecrementRoomy(pmtu: int, m: Message, pktHdr: nat -> seq<byte>)
    requires HeadersFit(m, pktHdr) && pmtu >= MIN
    ensures Roomy(pmtu, m, pktHdr) && NotBelowHeaders(pmtu, m, pktHdr)
  {
    forall i ensures Room(pmtu, m, 0, pktHdr(i)) > 0 {
      assert |pktHdr(i)| <= MON_HEADER_SPACE;
    }
  }

  /** How often the queue called a packet too long in its first k answers. */
  function TooLongs(codes: nat -> Code, k: nat): nat {
    if k == 0 then 0 else TooLongs(codes, k - 1) + if codes(k - 1) == MSGLEN then 1 else 0
  }

  lemma {:induction false} TooLongsSame(codes: nat -> Code, k0: nat, k: nat)
    requires k0 <= k && forall j :: k0 <= j < k ==> codes(j) == OK
    ensures TooLongs(codes, k) == TooLongs(codes, k0)
  {
    if k0 < k { TooLongsSame(codes, k0, k - 1); }
  }

  /** The packet size after n decrements. */
  function Decremented(pmtu: int, n: nat): int {
    if n == 0 then pmtu else PmtuDecrement(Decremented(pmtu, n - 1))
  }

  lemma LastPart(a: seq<Packet>, b: seq<Packet>)
    ensures (a + b)[|a + b| - |b|..] == b
  {}

  ghost predicate Attempted(k: int) { true }

  /** What an attempt with a packet size sent, with headers from the k0-th on. Only proofs that mention
      Attempted look at how. */
  ghost predicate Attempt(m: Message, ps: seq<Packet>, out: Outcome, size: int, pktHdr: nat -> seq<byte>, k0: nat) {
    forall k {:trigger Attempted(k)} :: Attempted(k) ==>
      && Prefix(m, ps) && Within(ps, size) && Filled(m, ps, size) && HeadersOf(ps, pktHdr, k0)
      && (out == Done ==> Fragmentation(m, ps))
  }

  method TryOnce(m: Message, pmtu: int, pktHdr: nat -> seq<byte>, codes: nat -> Code, k0: nat)
    returns (out: Outcome, sent: seq<Packet>, k: nat)
    requires Roomy(pmtu, m, pktHdr)
    ensures Attempt(m, sent, out, pmtu, pktHdr, k0) && k == k0 + |sent| + Refusals(out) && k > k0
    ensures (out == Done <==> codes(k - 1) == OK) && (out == TooLong <==> codes(k - 1) == MSGLEN)
    ensures TooLongs(codes, k - 1) == TooLongs(codes, k0)
    ensures TooLongs(codes, k) == TooLongs(codes, k0) + if out == TooLong then 1 else 0
  {
    out, sent, k := SendOnce(m, pmtu, pktHdr, codes, k0);
    TooLongsSame(codes, k0, k - 1);
  }

  /** Sends a message: when a packet is too long for the path, starts over with smaller packets. */
  method SendMsg(m: Message, pmtu0: int, pktHdr: nat -> seq<byte>, codes: nat -> Code)
    returns (out: Outcome, sent: seq<Packet>, last: seq<Packet>, pmtu: int, delay: bool, k: nat)
    requires HeadersFit(m, pktHdr) && Roomy(pmtu0, m, pktHdr)
    ensures Prefix(m, last) && (out == Done ==> Fragmentation(m, last))
    ensures var size := if out == TooLong then MIN else pmtu; Within(last, size) && Filled(m, last, size)
    ensures k >= |last| + Refusals(out) && HeadersOf(last, pktHdr, k - Refusals(out) - |last|)
    ensures |last| <= |sent| && sent[|sent| - |last|..] == last && (!delay ==> sent == last)
    ensures k > 0 && (out == Done <==> codes(k - 1) == OK) && (out == TooLong <==> codes(k - 1) == MSGLEN)
    ensures pmtu == Decremented(pmtu0, TooLongs(codes, k)) && (delay <==> TooLongs(codes, k - 1) > 0)
    ensures out == TooLong ==> pmtu == P_ERROR
    ensures delay ==> PmtuRank(pmtu) < PmtuRank(pmtu0)
  {
    out, sent, last, pmtu, delay, k := SendUntilShort(m, pmtu0, pktHdr, codes);
    assert Attempted(0);
  }

  method SendUntilShort(m: Message, pmtu0: int, pktHdr: nat -> seq<byte>, codes: nat -> Code)
    returns (out: Outcome, sent: seq<Packet>, last: seq<Packet>, pmtu: int, delay: bool, k: nat)
    requires HeadersFit(m, pktHdr) && Roomy(pmtu0, m, pktHdr)
    ensures k >= |last| + Refusals(out)
    ensures Attempt(m, last, out, if out == TooLong then MIN else pmtu, pktHdr, k - Refusals(out) - |last|)
    ensures |last| <= |sent| && sent[|sent| - |last|..] == last && (!delay ==> sent == last)
    ensures k > 0 && (out == Done <==> codes(k - 1) == OK) && (out == TooLong <==> codes(k - 1) == MSGLEN)
    ensures pmtu == Decremented(pmtu0, TooLongs(codes, k)) && (delay <==> TooLongs(codes, k - 1) > 0)
    ensures out == TooLong ==> pmtu == P_ERROR
    ensures delay ==> PmtuRank(pmtu) < PmtuRank(pmtu0)
  {
    pmtu, delay, k, sent := pmtu0, false, 0, [];
    while true
      invariant Roomy(pmtu, m, pktHdr)
      invariant !delay ==> sent == []
      invariant pmtu == Decremented(pmtu0, TooLongs(codes, k)) && (delay <==> TooLongs(codes, k) > 0)
      invariant if delay then PmtuRank(pmtu) < PmtuRank(pmtu0) else pmtu == pmtu0
      decreases PmtuRank(pmtu)
    {
      var before := sent;
      out, last, k := TryOnce(m, pmtu, pktHdr, codes, k);
      sent := before + last;
      LastPart(before, last);
      if out != TooLong {
        return;
      }
      NextSize(pmtu, m, pktHdr);
      pmtu := PmtuDecrement(pmtu);
      if pmtu <= 0 {
        return;
      }
      delay := true;
    }
  }

  /** The size after one that is too long: a smaller rank, and larger than all headers, or none. */
  lemma NextSize(pmtu: int, m: Message, pktHdr: nat -> seq<byte>)
    requires HeadersFit(m, pktHdr) && Roomy(pmtu, m, pktHdr)
    ensures var next := PmtuDecrement(pmtu);
            && PmtuRank(next) < PmtuRank(pmtu)
            && if next <= 0 then pmtu == MIN && next == P_ERROR else Roomy(next, m, pktHdr)
  {
    assert Room(pmtu, m, 0, pktHdr(0)) >= 0;
    PmtuRankIs(pmtu);
    if PmtuDecrement(pmtu) > 0 { DecrementRoomy(PmtuDecrement(pmtu), m, pktHdr); }
  }

  /** Sends a control message as one packet, cut off where the packet is full. */
  method SendTruncable(m: Message, pmtu0: int, pktHdr: nat -> seq<byte>, codes: nat -> Code)
    returns (out: Outcome, p: Packet, pmtu: int, delay: bool, k: nat)
    requires HeadersFit(m, pktHdr) && NotBelowHeaders(pmtu0, m, pktHdr)
    ensures |p.payload| <= |m.data| && p == Part(m, 0, |p.payload|, p.monPacketHdr, 0, |p.payload|)
    ensures var size := if out == TooLong then MIN else pmtu; PktLen(p) <= size && (p.payload == m.data || PktLen(p) == size)
    ensures pmtu0 >= MIN && |m.data| <= MIN - MSG_HEADER_SIZE - 2 * MON_HEADER_SPACE ==> p.payload == m.data
    ensures k > 0 && (out == Done <==> codes(k - 1) == OK) && (out == TooLong <==> codes(k - 1) == MSGLEN)
    ensures out == TooLong ==> pmtu == P_ERROR
    ensures pmtu == Decremented(pmtu0, TooLongs(codes, k)) && p.monPacketHdr == pktHdr(k - 1)
    ensures TooLongs(codes, k - 1) == k - 1 && (delay <==> k > 1)
  {
    pmtu, delay, k := pmtu0, false, 0;
    while true
      invariant TooLongs(codes, k) == k && pmtu == Decremented(pmtu0, k) && (delay <==> k > 0)
      invariant NotBelowHeaders(pmtu, m, pktHdr)
      invariant if delay then pmtu >= MIN else pmtu == pmtu0
      decreases if delay then 0 else 1, PmtuRank(pmtu)
    {
      assert Room(pmtu, m, 0, pktHdr(k)) >= 0;
      var len := PayloadLen(pmtu, m, 0, pktHdr(k));
      p := Part(m, 0, len, pktHdr(k), 0, len);
      k := k + 1;
      match codes(k - 1) {
        case OK =>
          return Done, p, pmtu, delay, k;
        case MSGLEN =>
        case FAILURE =>
          return Stopped, p, pmtu, delay, k;
        case THROTTLE =>
          return Stopped, p, pmtu, delay, k;
      }
      PmtuRankIs(pmtu);
      pmtu := PmtuDecrement(pmtu);
      if pmtu <= 0 {
        return TooLong, p, pmtu, delay, k;
      }
      DecrementRoomy(pmtu, m, pktHdr);
      delay := true;
    }
  }
}
