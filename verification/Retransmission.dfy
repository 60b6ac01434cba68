/** Asking for the missing packets of a message, and sending them again. */
module Retransmission {
  import opened Bytes
  import opened Wire
  import opened Fragments
  import opened Reassembly
  import opened Tracking
  import Delivery
  import Queues

  /** The retransmission queue holds all packets of the message that begin in a range, and no other
      packets with the message's numbers. */
  ghost predicate QueueHolds(queue: seq<Packet>, m: Message, ps: seq<Packet>, from: int, to: int) {
    && (forall i :: 0 <= i < |ps| && from <= Offset(ps, i) < to ==> ps[i] in queue)
    && NoOthers(queue, m, ps)
  }

  ghost predicate NoOthers(queue: seq<Packet>, m: Message, ps: seq<Packet>) {
    forall p :: p in queue && p.header.localConId == m.senderId && p.header.msgSeqNum == m.seqNum ==> p in ps
  }

  lemma SameOffset(m: Message, ps: seq<Packet>, i: nat, j: nat)
    requires Fragmentation(m, ps) && m.data != [] && i < |ps| && j < |ps| && Offset(ps, i) == Offset(ps, j)
    ensures i == j
  {
    assert ps[i].payload != [] && ps[j].payload != [];
    if i < j { InOrder(m, ps, i, j); }
    if j < i { InOrder(m, ps, j, i); }
  }

  /** The packets from number a on, up to offset end. */
  ghost predicate Run(ps: seq<Packet>, sent: seq<Packet>, a: nat, end: int) {
    && a < |ps| && a + |sent| <= |ps| && sent == ps[a..a + |sent|]
    && end == if sent == [] then Offset(ps, a) else End(ps, a + |sent| - 1)
  }

  /** The packet that begins where a run ends is the next one. */
  lemma RunStep(m: Message, ps: seq<Packet>, front: seq<Packet>, a: nat, i: nat)
    requires Fragmentation(m, ps) && m.data != [] && i < |ps| && Run(ps, front, a, Offset(ps, i))
    ensures Run(ps, front + [ps[i]], a, End(ps, i))
  {
    if front == [] { SameOffset(m, ps, a, i); } else { EndsThere(m, ps, a + |front| - 1, i); }
    assert ps[a..i + 1] == ps[a..i] + [ps[i]];
  }

  /** What is sent again is a run of the message's packets, in order. */
  lemma {:induction false} ChainIsRun(queue: seq<Packet>, m: Message, ps: seq<Packet>, sent: seq<Packet>, end: int, a: nat)
    requires Fragmentation(m, ps) && m.data != [] && a < |ps| && NoOthers(queue, m, ps)
    requires Queues.Chain(sent, queue, m.senderId, m.seqNum, Offset(ps, a), end)
    ensures Run(ps, sent, a, end)
  {
    if sent != [] {
      var front, p := sent[..|sent| - 1], sent[|sent| - 1];
      ChainFront(sent, queue, m, Offset(ps, a), end);
      ChainIsRun(queue, m, ps, front, p.header.offset, a);
      var i := NumberOf(queue, m, ps, p);
      RunStep(m, ps, front, a, i);
      assert sent == front + [p];
    }
  }

  lemma ChainFront(sent: seq<Packet>, queue: seq<Packet>, m: Message, from: int, end: int)
    requires sent != [] && Queues.Chain(sent, queue, m.senderId, m.seqNum, from, end)
    ensures var p := sent[|sent| - 1];
            && p in queue && p.header.localConId == m.senderId && p.header.msgSeqNum == m.seqNum
            && end == p.header.offset + |p.payload|
            && Queues.Chain(sent[..|sent| - 1], queue, m.senderId, m.seqNum, from, p.header.offset)
  {}

  lemma NumberOf(queue: seq<Packet>, m: Message, ps: seq<Packet>, p: Packet) returns (i: nat)
    requires NoOthers(queue, m, ps) && p in queue && p.header.localConId == m.senderId && p.header.msgSeqNum == m.seqNum
    ensures i < |ps| && ps[i] == p
  {
    i :| 0 <= i < |ps| && ps[i] == p;
  }

  lemma EndsThere(m: Message, ps: seq<Packet>, i: nat, j: nat)
    requires Fragmentation(m, ps) && m.data != [] && i < |ps| && j < |ps| && End(ps, i) == Offset(ps, j)
    ensures j == i + 1
  {
    assert Carries(m, ps[j]) && ps[j].payload != [];
    if i + 1 < |ps| {
      assert Offset(ps, i + 1) == End(ps, i);
      SameOffset(m, ps, i + 1, j);
    }
  }

  /** The packets are consecutive ones that begin at an offset and reach another one. */
  ghost predicate Covers(ps: seq<Packet>, sent: seq<Packet>, from: int, to: int) {
    exists a, b :: 0 <= a < b <= |ps| && sent == ps[a..b] && Offset(ps, a) == from && End(ps, b - 1) >= to
  }

  /** If the queue holds the packets of a range that begins at a packet, they are all sent again: the
      retransmission goes through and covers the range. */
  lemma ResendCovers(queue: seq<Packet>, m: Message, ps: seq<Packet>, from: int, to: int, rc: int, sent: seq<Packet>)
    requires Fragmentation(m, ps) && m.data != [] && Boundary(m, ps, from) && from < to <= |m.data|
    requires QueueHolds(queue, m, ps, from, to) && Queues.Resent(queue, m.senderId, m.seqNum, from, to, rc, sent)
    ensures rc == 0
    ensures Covers(ps, sent, from, to)
  {
    var a :| 0 <= a < |ps| && from == Offset(ps, a);
    var end :| Queues.Chain(sent, queue, m.senderId, m.seqNum, from, end)
               && Queues.Stopped(queue, m.senderId, m.seqNum, end, to, rc);
    ChainIsRun(queue, m, ps, sent, end, a);
    if end < to {
      NextIsHeld(queue, m, ps, sent, from, to, end, a);
      assert false;
    }
    RunCovers(ps, sent, a, end, to);
  }

  lemma RunCovers(ps: seq<Packet>, sent: seq<Packet>, a: nat, end: int, to: int)
    requires Run(ps, sent, a, end) && Offset(ps, a) < to <= end
    ensures Covers(ps, sent, Offset(ps, a), to)
  {
    var b := a + |sent|;
    assert a < b <= |ps| && sent == ps[a..b] && End(ps, b - 1) >= to;
  }

  /** As long as the range is not covered, the packet that comes next is in the queue. */
  lemma NextIsHeld(queue: seq<Packet>, m: Message, ps: seq<Packet>, sent: seq<Packet>, from: int, to: int, end: int,
                   a: nat)
    requires Fragmentation(m, ps) && m.data != [] && QueueHolds(queue, m, ps, from, to) && to <= |m.data|
    requires Run(ps, sent, a, end) && Offset(ps, a) == from && end < to
    ensures exists p :: p in queue && Queues.Matches(p, m.senderId, m.seqNum, end)
  {
    NextStart(m, ps, sent, a, end);
    var p := ps[a + |sent|];
    assert Carries(m, p) && Offset(ps, a + |sent|) == end;
    assert p in queue && Queues.Matches(p, m.senderId, m.seqNum, end);
  }

  lemma NextStart(m: Message, ps: seq<Packet>, sent: seq<Packet>, a: nat, end: int)
    requires Fragmentation(m, ps) && m.data != [] && Run(ps, sent, a, end) && end < |m.data|
    ensures a + |sent| < |ps| && Offset(ps, a + |sent|) == end >= Offset(ps, a)
  {
    var b := a + |sent|;
    if sent != [] {
      assert b != |ps|;
      assert Offset(ps, b) == End(ps, b - 1);
      InOrder(m, ps, a, b);
    }
  }

  /** The queue never makes the retransmission stand still. */
  lemma NeverStandsStill(queue: seq<Packet>, m: Message, ps: seq<Packet>, from: int, to: int)
    requires Fragmentation(m, ps) && m.data != [] && QueueHolds(queue, m, ps, from, to)
    ensures Queues.NoEmptyPacket(queue, m.senderId, m.seqNum)
  {
    forall p | p in queue && p.header.localConId == m.senderId && p.header.msgSeqNum == m.seqNum
      ensures p.payload != []
    {
      var i :| 0 <= i < |ps| && ps[i] == p;
    }
  }

  /** A request for missing bytes: the connection's slot at the sender, the message and a range. */
  datatype Nack = Nack(conId: int, seqNum: int, from: int, to: int)

  /** A 32-bit number as the machine stores it, the lowest byte first. */
  function Bytes32(x: int): (b: seq<byte>)
    ensures |b| == 4
  {
    var y := x % 0x1_0000_0000;
    [y % 256, y / 256 % 256, y / 0x1_0000 % 256, y / 0x100_0000]
  }

  function Int32(b: seq<byte>): int
    requires |b| == 4
  {
    var b0: int, b1: int, b2: int, b3: int := b[0], b[1], b[2], b[3];
    var y := b0 + 256 * b1 + 0x1_0000 * b2 + 0x100_0000 * b3;
    if y < 0x8000_0000 then y else y - 0x1_0000_0000
  }

  predicate Is32(x: int) { -0x8000_0000 <= x < 0x8000_0000 }

  lemma Int32Back(x: int)
    requires Is32(x)
    ensures Int32(Bytes32(x)) == x
  {
    var y := x % 0x1_0000_0000;
    Digits(y);
  }

  lemma Digits(y: int)
    ensures y == y % 256 + 256 * (y / 256 % 256) + 0x1_0000 * (y / 0x1_0000 % 256) + 0x100_0000 * (y / 0x100_0000)
  {
    assert y / 0x1_0000 == y / 256 / 256 && y / 0x100_0000 == y / 0x1_0000 / 256;
  }

  const NACK_SIZE: nat := 16

  /** The bytes of a request. */
  function NackBytes(n: Nack): (b: seq<byte>)
    ensures |b| == NACK_SIZE
  {
    Bytes32(n.conId) + Bytes32(n.seqNum) + Bytes32(n.from) + Bytes32(n.to)
  }

  function NackOf(b: seq<byte>): Nack
    requires |b| >= NACK_SIZE
  {
    Nack(Int32(b[..4]), Int32(b[4..8]), Int32(b[8..12]), Int32(b[12..16]))
  }

  /** A request is read as it was written. */
  lemma NackBack(n: Nack)
    requires Is32(n.conId) && Is32(n.seqNum) && Is32(n.from) && Is32(n.to)
    ensures NackOf(NackBytes(n)) == n
  {
    var b := NackBytes(n);
    assert b[..4] == Bytes32(n.conId) && b[4..8] == Bytes32(n.seqNum);
    assert b[8..12] == Bytes32(n.from) && b[12..16] == Bytes32(n.to);
    Int32Back(n.conId);
    Int32Back(n.seqNum);
    Int32Back(n.from);
    Int32Back(n.to);
  }

  /** The requests the timers make: one for each gap that is not closed, one for the tail. */
  ghost predicate Requested(s: Slot, n: Nack) {
    && n.conId == s.txConnectionId && n.seqNum == s.seqNum
    && ((Gap(n.from, n.to) in s.gaps && n.from != n.to)
        || (n.from == s.expectedOffset != n.to && n.to == |s.buf| - s.hdrLen))
  }

  /** The packet of the message that holds byte p. */
  ghost predicate Has(q: Packet, p: int) { q.header.offset <= p < q.header.offset + |q.payload| }

  /** However the request is answered from the queue, the packet that holds byte p is sent again. */
  ghost predicate Recovers(queue: seq<Packet>, n: Nack, p: int) {
    forall rc, sent :: Queues.Resent(queue, n.conId, n.seqNum, n.from, n.to, rc, sent) ==>
                       rc == 0 && exists q :: q in sent && Has(q, p)
  }

  lemma {:induction false} ArrivedHeard(m: Message, ps: seq<Packet>, idx: seq<nat>, p: int)
    requires Fragmentation(m, ps) && Numbered(ps, idx) && p in Arrived(ArrivalsOf(ps, idx))
    ensures HeardByte(ps, idx, p)
  {
    var k := |idx| - 1;
    var arrivals := ArrivalsOf(ps, idx);
    assert arrivals[..k] == ArrivalsOf(ps, idx[..k]) && arrivals[k] == ArrivalOf(ps[idx[k]]);
    HeaderLens(m, ps[idx[k]]);
    if p in Arrived(arrivals[..k]) {
      ArrivedHeard(m, ps, idx[..k], p);
      var j :| 0 <= j < k && Offset(ps, idx[..k][j]) <= p < End(ps, idx[..k][j]);
      assert idx[j] == idx[..k][j];
    } else {
      assert Offset(ps, idx[k]) <= p < End(ps, idx[k]);
    }
  }

  lemma ReachedCovered(m: Message, ps: seq<Packet>, idx: seq<nat>)
    requires Fragmentation(m, ps) && Numbered(ps, idx) && |Reached(m, ps, idx).gaps| < RTX_MAX_GAPS
    ensures Covered(Reached(m, ps, idx), Arrived(ArrivalsOf(ps, idx)))
  {
    ArrivalsFit(m, ps, idx);
    CoveredAlways(NewSlot(ps[0].header), ArrivalsOf(ps, idx));
  }

  /** A range that the timers ask for and that has the byte. */
  lemma RangeOf(m: Message, ps: seq<Packet>, s: Slot, arrived: iset<int>, p: int) returns (n: Nack)
    requires Bounds(m, ps, s) && IsFor(s, m) && |s.buf| == |m.hdr| + |m.data|
    requires Covered(s, arrived) && 0 <= p < |m.data| && p !in arrived
    ensures Requested(s, n) && n.conId == m.senderId && n.seqNum == m.seqNum && n.from <= p < n.to
    ensures Boundary(m, ps, n.from) && Boundary(m, ps, n.to)
  {
    if p < s.expectedOffset {
      assert InSomeGap(s.gaps, p);
      var i :| 0 <= i < |s.gaps| && InGap(s.gaps[i], p);
      n := Nack(s.txConnectionId, s.seqNum, s.gaps[i].from, s.gaps[i].to);
      assert s.gaps[i] in s.gaps && GapBounds(m, ps, s.gaps[i]);
    } else {
      n := Nack(s.txConnectionId, s.seqNum, s.expectedOffset, |m.data|);
    }
  }

  /** Loss recovery: whatever packets of a message arrived, how often and in whatever order, as long
      as fewer than RTX_MAX_GAPS gaps were opened, for every missing byte one of the requests is
      answered with the packet that holds it, if the sender still has the message's packets. */
  lemma LossRecovered(m: Message, ps: seq<Packet>, idx: seq<nat>, queue: seq<Packet>, p: int) returns (n: Nack)
    requires Fragmentation(m, ps) && m.data != [] && Numbered(ps, idx)
    requires |Reached(m, ps, idx).gaps| < RTX_MAX_GAPS
    requires 0 <= p < |m.data| && !HeardByte(ps, idx, p) && QueueHolds(queue, m, ps, 0, |m.data|)
    ensures Requested(Reached(m, ps, idx), n) && Recovers(queue, n, p)
  {
    ReachedTracks(m, ps, idx);
    ReachedCovered(m, ps, idx);
    if p in Arrived(ArrivalsOf(ps, idx)) { ArrivedHeard(m, ps, idx, p); }
    n := RangeOf(m, ps, Reached(m, ps, idx), Arrived(ArrivalsOf(ps, idx)), p);
    RangeRecovers(m, ps, queue, n, p);
  }

  lemma RangeRecovers(m: Message, ps: seq<Packet>, queue: seq<Packet>, n: Nack, p: int)
    requires Fragmentation(m, ps) && m.data != [] && QueueHolds(queue, m, ps, 0, |m.data|)
    requires n.conId == m.senderId && n.seqNum == m.seqNum && n.from <= p < n.to
    requires Boundary(m, ps, n.from) && Boundary(m, ps, n.to)
    ensures Recovers(queue, n, p)
  {
    BoundaryBelow(m, ps, n.from);
    BoundaryBelow(m, ps, n.to);
    forall rc, sent | Queues.Resent(queue, n.conId, n.seqNum, n.from, n.to, rc, sent)
      ensures rc == 0 && exists q :: q in sent && Has(q, p)
    {
      Answered(queue, m, ps, n.from, n.to, rc, sent, p);
    }
  }

  /** The same in any run in which packets of several messages arrive: the message's slot in the table
      is one from which every missing byte is recovered. */
  lemma RunLossRecovered(sends: seq<Delivery.Sending>, items: seq<Delivery.Item>, size: nat, a: nat,
                         queue: seq<Packet>, p: int) returns (t: nat, n: Nack)
    requires Delivery.Proper(sends) && Delivery.AllItems(sends, items)
    requires Delivery.SlotsSuffice(sends, items, size) && a < |sends|
    requires Numbered(sends[a].ps, Delivery.Numbers(items, a)) && Delivery.Numbers(items, a) != []
    requires |Reached(sends[a].m, sends[a].ps, Delivery.Numbers(items, a)).gaps| < RTX_MAX_GAPS
    requires 0 <= p < |sends[a].m.data| && !HeardByte(sends[a].ps, Delivery.Numbers(items, a), p)
    requires QueueHolds(queue, sends[a].m, sends[a].ps, 0, |sends[a].m.data|)
    ensures var table := Delivery.Run(sends, items, size).table;
            t < |table| && table[t].Some? && Requested(table[t].value, n) && Recovers(queue, n, p)
  {
    var owner := Delivery.RunDelivers(sends, items, size);
    t :| 0 <= t < |owner| && owner[t] == a;
    Delivery.OwnedIsReached(sends, items, Delivery.Run(sends, items, size).table[t], a);
    n := LossRecovered(sends[a].m, sends[a].ps, Delivery.Numbers(items, a), queue, p);
  }

  lemma Answered(queue: seq<Packet>, m: Message, ps: seq<Packet>, from: int, to: int, rc: int, sent: seq<Packet>, p: int)
    requires Fragmentation(m, ps) && m.data != [] && Boundary(m, ps, from) && 0 <= from <= p < to <= |m.data|
    requires QueueHolds(queue, m, ps, 0, |m.data|) && Queues.Resent(queue, m.senderId, m.seqNum, from, to, rc, sent)
    ensures rc == 0 && exists q :: q in sent && Has(q, p)
  {
    ResendCovers(queue, m, ps, from, to, rc, sent);
    ByteCovered(m, ps, sent, from, to, p);
  }

  lemma ByteCovered(m: Message, ps: seq<Packet>, sent: seq<Packet>, from: int, to: int, p: int)
    requires Prefix(m, ps) && Covers(ps, sent, from, to) && 0 <= from <= p < to
    ensures exists q :: q in sent && Has(q, p)
  {
    var a, b :| 0 <= a < b <= |ps| && sent == ps[a..b] && Offset(ps, a) == from && End(ps, b - 1) >= to;
    var i := LocateFrom(m, ps, p, a, b);
    assert ps[i] == sent[i - a] && Has(ps[i], p);
  }

  lemma BoundaryBelow(m: Message, ps: seq<Packet>, x: int)
    requires Fragmentation(m, ps) && Boundary(m, ps, x)
    ensures 0 <= x <= |m.data|
  {
    if x != |m.data| {
      var i :| 0 <= i < |ps| && x == Offset(ps, i);
      assert Carries(m, ps[i]);
    }
  }

  lemma {:induction false} LocateFrom(m: Message, ps: seq<Packet>, p: nat, a: nat, b: nat) returns (i: nat)
    requires Prefix(m, ps) && a < b <= |ps| && Offset(ps, a) <= p < End(ps, b - 1)
    ensures a <= i < b && Has(ps[i], p)
  {
    if Offset(ps, b - 1) <= p {
      i := b - 1;
    } else {
      i := LocateFrom(m, ps, p, a, b - 1);
    }
  }
}
