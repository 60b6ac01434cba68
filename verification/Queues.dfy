/** The queue of packets that wait to be sent, and the queue of packets kept for retransmission. */
module Queues {
  import opened Bytes
  import opened Wire
  import opened TokenBucket

  class PacketContainer {
    const packet: Packet
    var timeStamp: timestamp
    var next: PacketContainer?

    constructor (p: Packet)
      ensures packet == p && next == null
    {
      packet := p;
      timeStamp := Time(0, 0);
      next := null;
    }
  }

  /** Does packet p of this connection and message start at this offset? */
  predicate Matches(p: Packet, conId: int, seqNum: int, offset: int) {
    p.header.localConId == conId && p.header.msgSeqNum == seqNum && p.header.offset == offset
  }

  /** The first packet of the message that starts at an offset, or the end of the queue. */
  function FirstMatch(packets: seq<Packet>, conId: int, seqNum: int, offset: int): (i: nat)
    ensures i <= |packets| && (i < |packets| ==> Matches(packets[i], conId, seqNum, offset))
    ensures forall j :: 0 <= j < i ==> !Matches(packets[j], conId, seqNum, offset)
  {
    if packets == [] || Matches(packets[0], conId, seqNum, offset) then 0
    else 1 + FirstMatch(packets[1..], conId, seqNum, offset)
  }

  /** How many entries at the front are too old. */
  function Stale(times: seq<timestamp>, now: timestamp, hold: int): (d: nat)
    ensures d <= |times|
    ensures forall i :: 0 <= i < d ==> now.sec - times[i].sec > hold
    ensures d < |times| ==> now.sec - times[d].sec <= hold
  {
    if times != [] && now.sec - times[0].sec > hold then 1 + Stale(times[1..], now, hold) else 0
  }

  /** How many packets at the front must go to make room for len bytes. */
  function Crowd(packets: seq<Packet>, len: nat, max: nat): (d: nat)
    requires len <= max
    ensures d <= |packets| && TotalLen(packets[d..]) + len <= max
    ensures forall i :: 0 <= i < d ==> TotalLen(packets[i..]) + len > max
  {
    assert packets[0..] == packets;
    if TotalLen(packets) + len <= max then 0
    else
      var d := 1 + Crowd(packets[1..], len, max);
      assert forall i :: 1 <= i <= |packets| ==> packets[i..] == packets[1..][i - 1..];
      d
  }

  /** How many packets are evicted to add one of len bytes. */
  function Evicted(packets: seq<Packet>, times: seq<timestamp>, now: timestamp, hold: int, len: nat, max: nat): (d: nat)
    requires |packets| == |times| && len <= max
    ensures d <= |packets|
  {
    var d := Stale(times, now, hold);
    d + Crowd(packets[d..], len, max)
  }

  lemma {:induction false} TotalLenSuffix(packets: seq<Packet>, i: nat, j: nat)
    requires i <= j <= |packets|
    ensures TotalLen(packets[j..]) <= TotalLen(packets[i..])
    decreases j - i
  {
    if i < j {
      assert packets[i..][1..] == packets[i + 1..];
      TotalLenSuffix(packets, i + 1, j);
    }
  }

  /** On a monotone clock exactly those packets stay that are young enough and, with all newer ones,
      fit beside the new packet. */
  lemma EvictedExact(packets: seq<Packet>, times: seq<timestamp>, now: timestamp, hold: int, len: nat, max: nat, i: nat)
    requires |packets| == |times| && len <= max && i < |packets|
    requires forall j, k :: 0 <= j < k < |times| ==> times[j].sec <= times[k].sec
    ensures i >= Evicted(packets, times, now, hold, len, max)
            <==> now.sec - times[i].sec <= hold && TotalLen(packets[i..]) + len <= max
  {
    var s := Stale(times, now, hold);
    if i < s {
      assert now.sec - times[i].sec > hold;
    } else {
      assert times[s].sec <= times[i].sec;
      CrowdExact(packets[s..], len, max, i - s);
      assert packets[s..][i - s..] == packets[i..];
    }
  }

  /** Those packets stay that fit together with all newer ones. */
  lemma {:induction false} CrowdExact(packets: seq<Packet>, len: nat, max: nat, i: nat)
    requires len <= max && i < |packets|
    ensures i >= Crowd(packets, len, max) <==> TotalLen(packets[i..]) + len <= max
  {
    var c := Crowd(packets, len, max);
    if i >= c { TotalLenSuffix(packets, c, i); }
  }

  ghost predicate Inside(k: int) { true }

  ghost predicate Measured(k: int) { true }

  class PacketQueue {
    var head: PacketContainer?
    var tail: PacketContainer?
    var size: int

    /** The containers of the list, in order, and as a set. */
    ghost var spine: seq<PacketContainer>
    ghost var nodes: set<PacketContainer>
    /** The packets in the queue, the oldest first, and when they were put there. */
    ghost var packets: seq<Packet>
    ghost var times: seq<timestamp>

    ghost predicate Linked()
      reads this, nodes
    {
      && (if spine == [] then head == null else head == spine[0] && tail == spine[|spine| - 1])
      && (forall i :: 0 <= i < |spine| ==> spine[i] in nodes)
      && (forall i, j :: 0 <= i < j < |spine| ==> spine[i] != spine[j])
      && (forall i :: 0 <= i < |spine| - 1 ==> spine[i].next == spine[i + 1])
      && (spine != [] ==> spine[|spine| - 1].next == null)
    }

    ghost predicate Carries()
      reads this, nodes
    {
      && |spine| == |packets| == |times|
      && forall i :: 0 <= i < |spine| ==>
           spine[i] in nodes && spine[i].packet == packets[i] && spine[i].timeStamp == times[i]
    }

    ghost predicate Represents()
      reads this, nodes
    {
      Linked() && Carries()
    }

    /** The fields represent the packets. Only proofs that mention Inside or Measured look at how. */
    ghost predicate Valid()
      reads this, nodes
    {
      && |packets| == |times|
      && (forall k {:trigger Inside(k)} :: Inside(k) ==> Represents())
      && (forall k {:trigger Measured(k)} :: Measured(k) ==> size == TotalLen(packets))
    }

    constructor ()
      ensures Valid() && nodes == {} && packets == []
    {
      head, tail, size := null, null, 0;
      spine, nodes, packets, times := [], {}, [], [];
    }

    method IsEmpty() returns (empty: bool)
      requires Valid()
      ensures empty <==> packets == []
    {
      assert Inside(0);
      empty := head == null;
    }

    /** The size of the oldest packet. */
    method FirstPacketSize() returns (n: int)
      requires Valid()
      ensures n == if packets == [] then 0 else PktLen(packets[0])
    {
      assert Inside(0);
      if head == null {
        n := 0;
      } else {
        n := PktLen(head.packet);
      }
    }

    /** Adds a container at the end. */
    method Append(c: PacketContainer)
      requires Valid() && c !in nodes && c.next == null
      modifies this, nodes
      ensures Valid() && nodes == old(nodes) + {c}
      ensures packets == old(packets) + [c.packet] && times == old(times) + [c.timeStamp]
    {
      assert Measured(0);
      assert Inside(0);
      TotalLenSnoc(packets, c.packet);
      size := size + PktLen(c.packet);
      if head == null {
        head := c;
        tail := c;
      } else {
        tail.next := c;
        tail := c;
      }
      spine, nodes := spine + [c], nodes + {c};
      packets, times := packets + [c.packet], times + [c.timeStamp];
    }

    /** Queues a packet for sending unless the queue is full. */
    method AddPacketTX(c: PacketContainer, maxSize: int) returns (ok: bool)
      requires Valid() && c !in nodes && c.next == null
      modifies this, nodes
      ensures Valid() && ok == (TotalLen(old(packets)) + PktLen(c.packet) <= maxSize)
      ensures packets == if ok then old(packets) + [c.packet] else old(packets)
      ensures nodes == if ok then old(nodes) + {c} else old(nodes)
    {
      assert Measured(0);
      assert Inside(0);
      if size + PktLen(c.packet) > maxSize {
        return false;
      }
      Append(c);
      return true;
    }

    /** Takes out the oldest packet. */
    method TakePacketToSend() returns (c: PacketContainer?)
      requires Valid()
      modifies this, nodes
      ensures Valid() && (c == null <==> old(packets) == [])
      ensures c == null ==> packets == [] && nodes == old(nodes)
      ensures c != null ==> c in old(nodes) && nodes == old(nodes) - {c} && c.next == null
      ensures c != null ==> c.packet == old(packets)[0] && packets == old(packets)[1..]
    {
      assert Measured(0);
      assert Inside(0);
      if head == null {
        return null;
      }
      c := head;
      assert |spine| == 1 || spine[1..][|spine| - 2] == tail;
      size := size - PktLen(c.packet);
      head := head.next;
      c.next := null;
      if head == null {
        tail := null;
      }
      spine, nodes, packets, times := spine[1..], nodes - {c}, packets[1..], times[1..];
    }

    /** Drops the oldest packet. */
    method RemoveOldestPacket() returns (rc: int)
      requires Valid()
      modifies this
      ensures Valid() && rc == (if old(packets) == [] then 1 else 0) && nodes == old(nodes)
      ensures rc == 1 ==> packets == [] && times == []
      ensures rc == 0 ==> packets == old(packets)[1..] && times == old(times)[1..]
    {
      assert Measured(0);
      assert Inside(0);
      if head == null {
        return 1;
      }
      size := size - PktLen(head.packet);
      head := head.next;
      spine, packets, times := spine[1..], packets[1..], times[1..];
      return 0;
    }

    /** Drops the packets at the front that are too old. */
    method RemoveStale(now: timestamp, hold: int)
      requires Valid()
      modifies this
      ensures Valid() && StaleGone(now, hold, old(packets), old(times), packets, times) && nodes == old(nodes)
    {
      assert Inside(0);
      ghost var d := 0;
      while head != null && now.sec - head.timeStamp.sec > hold
        invariant Valid() && d <= |old(times)|
        invariant Dropped(d, old(packets), old(times), packets, times) && nodes == old(nodes)
        invariant forall i :: 0 <= i < d ==> now.sec - old(times)[i].sec > hold
        decreases |packets|
      {
        DroppedMore(d, old(packets), old(times), packets, times);
        var _ := RemoveOldestPacket();
        d := d + 1;
      }
      StaleIs(old(times), now, hold, d);
    }

    /** Makes room for len bytes. */
    method RemoveCrowd(len: nat, maxSize: nat)
      requires Valid() && len <= maxSize
      modifies this
      ensures Valid() && CrowdGone(len, maxSize, old(packets), old(times), packets, times) && nodes == old(nodes)
      ensures TotalLen(packets) + len <= maxSize
    {
      assert Measured(0);
      ghost var d, ps, ts := 0, packets, times;
      while size + len > maxSize
        invariant Valid() && nodes == old(nodes)
        invariant Dropped(d, ps, ts, packets, times) && TooMuch(d, ps, len, maxSize)
        decreases |packets|
      {
        DroppedMore(d, ps, ts, packets, times);
        TooMuchMore(d, ps, len, maxSize);
        var _ := RemoveOldestPacket();
        d := d + 1;
      }
      CrowdIs(ps, len, maxSize, d);
    }

    /** Keeps a sent packet for retransmission, evicting old packets and as many as its room takes. */
    method AddPacketRTX(c: PacketContainer, now: timestamp, stamp: timestamp, hold: int, maxSize: nat)
      requires Valid() && c !in nodes && PktLen(c.packet) <= maxSize
      modifies this, nodes, c
      ensures Valid() && TotalLen(packets) <= maxSize && nodes == old(nodes) + {c}
      ensures Added(c.packet, now, stamp, hold, maxSize, old(packets), old(times), packets, times)
    {
      MakeRoom(now, hold, PktLen(c.packet), maxSize);
      Keep(c, stamp);
    }

    method Keep(c: PacketContainer, stamp: timestamp)
      requires Valid() && c !in nodes
      modifies this, nodes, c
      ensures Valid() && packets == old(packets) + [c.packet] && times == old(times) + [stamp] && nodes == old(nodes) + {c}
      ensures TotalLen(packets) == TotalLen(old(packets)) + PktLen(c.packet)
    {
      assert Measured(0);
      assert Inside(0);
      TotalLenSnoc(packets, c.packet);
      c.timeStamp := stamp;
      c.next := null;
      Append(c);
    }

    method MakeRoom(now: timestamp, hold: int, len: nat, maxSize: nat)
      requires Valid() && len <= maxSize
      modifies this
      ensures Valid() && TotalLen(packets) + len <= maxSize && nodes == old(nodes)
      ensures EvictedGone(now, hold, len, maxSize, old(packets), old(times), packets, times)
    {
      ghost var ps, ts := packets, times;
      RemoveStale(now, hold);
      ghost var ps', ts' := packets, times;
      RemoveCrowd(len, maxSize);
      EvictedTwice(now, hold, len, maxSize, ps, ts, ps', ts', packets, times);
    }

    /** Finds the first packet of a message that starts at an offset. */
    method SearchPacketInRTX(conId: int, seqNum: int, offset: int) returns (c: PacketContainer?)
      requires Valid()
      ensures c == null <==> FirstMatch(packets, conId, seqNum, offset) == |packets|
      ensures c != null ==> c.packet == packets[FirstMatch(packets, conId, seqNum, offset)]
    {
      assert Inside(0);
      c := head;
      ghost var i := 0;
      while c != null
        invariant 0 <= i <= |spine| && c == if i == |spine| then null else spine[i]
        invariant forall j :: 0 <= j < i ==> !Matches(packets[j], conId, seqNum, offset)
        decreases |spine| - i
      {
        if Matches(c.packet, conId, seqNum, offset) {
          FirstMatchIs(packets, conId, seqNum, offset, i);
          return;
        }
        c := c.next;
        i := i + 1;
      }
      FirstMatchIs(packets, conId, seqNum, offset, i);
    }

    /** Sends again the packets of a message from one offset up to another. */
    method RtxPacketsFromTo(conId: int, seqNum: int, from: int, to: int) returns (rc: int, sent: seq<Packet>)
      requires Valid() && NoEmptyPacket(packets, conId, seqNum)
      ensures Resent(packets, conId, seqNum, from, to, rc, sent)
    {
      var offset := from;
      sent := [];
      ChainStart(packets, conId, seqNum, from);
      while offset < to
        invariant Chain(sent, packets, conId, seqNum, from, offset) && AllBefore(sent, to)
      {
        var c := SearchPacketInRTX(conId, seqNum, offset);
        if c == null {
          return 1, sent;
        }
        ChainSnoc(sent, c.packet, packets, conId, seqNum, from, offset);
        sent := sent + [c.packet];
        offset := offset + |c.packet.payload|;
      }
      return 0, sent;
    }
  }

  /** The first d entries are gone. */
  ghost predicate Dropped(d: nat, ps: seq<Packet>, ts: seq<timestamp>, ps': seq<Packet>, ts': seq<timestamp>) {
    |ps| == |ts| && d <= |ps| && ps' == ps[d..] && ts' == ts[d..]
  }

  lemma DroppedMore(d: nat, ps: seq<Packet>, ts: seq<timestamp>, ps': seq<Packet>, ts': seq<timestamp>)
    requires Dropped(d, ps, ts, ps', ts')
    ensures ps' == ps[d..] && ts' == ts[d..]
    ensures ps' != [] ==> Dropped(d + 1, ps, ts, ps'[1..], ts'[1..])
  {}

  ghost predicate StaleGone(now: timestamp, hold: int, ps: seq<Packet>, ts: seq<timestamp>,
                            ps': seq<Packet>, ts': seq<timestamp>) {
    Dropped(Stale(ts, now, hold), ps, ts, ps', ts')
  }

  ghost predicate CrowdGone(len: nat, max: nat, ps: seq<Packet>, ts: seq<timestamp>,
                            ps': seq<Packet>, ts': seq<timestamp>) {
    len <= max && Dropped(Crowd(ps, len, max), ps, ts, ps', ts')
  }

  ghost predicate EvictedGone(now: timestamp, hold: int, len: nat, max: nat, ps: seq<Packet>, ts: seq<timestamp>,
                              ps': seq<Packet>, ts': seq<timestamp>) {
    |ps| == |ts| && len <= max && Dropped(Evicted(ps, ts, now, hold, len, max), ps, ts, ps', ts')
  }

  /** The new packet comes after what is left of the old ones. */
  ghost predicate Added(p: Packet, now: timestamp, stamp: timestamp, hold: int, max: nat, ps: seq<Packet>,
                        ts: seq<timestamp>, ps': seq<Packet>, ts': seq<timestamp>) {
    && |ps| == |ts| && PktLen(p) <= max
    && var d := Evicted(ps, ts, now, hold, PktLen(p), max);
       ps' == ps[d..] + [p] && ts' == ts[d..] + [stamp]
  }

  lemma EvictedTwice(now: timestamp, hold: int, len: nat, max: nat, ps: seq<Packet>, ts: seq<timestamp>,
                     ps': seq<Packet>, ts': seq<timestamp>, ps'': seq<Packet>, ts'': seq<timestamp>)
    requires StaleGone(now, hold, ps, ts, ps', ts') && CrowdGone(len, max, ps', ts', ps'', ts'')
    ensures EvictedGone(now, hold, len, max, ps, ts, ps'', ts'')
  {
    DroppedTwice(Stale(ts, now, hold), Crowd(ps', len, max), ps, ts, ps', ts', ps'', ts'');
  }

  lemma DroppedTwice(a: nat, b: nat, ps: seq<Packet>, ts: seq<timestamp>, ps': seq<Packet>, ts': seq<timestamp>,
                     ps'': seq<Packet>, ts'': seq<timestamp>)
    requires Dropped(a, ps, ts, ps', ts') && Dropped(b, ps', ts', ps'', ts'')
    ensures ps' == ps[a..] && Dropped(a + b, ps, ts, ps'', ts'')
  {
    Twice(ps, a, b);
    Twice(ts, a, b);
  }

  lemma Twice<T>(s: seq<T>, a: nat, b: nat)
    requires a + b <= |s|
    ensures s[a..][b..] == s[a + b..]
  {}

  lemma {:induction false} FirstMatchIs(packets: seq<Packet>, conId: int, seqNum: int, offset: int, i: nat)
    requires i <= |packets| && forall j :: 0 <= j < i ==> !Matches(packets[j], conId, seqNum, offset)
    requires i < |packets| ==> Matches(packets[i], conId, seqNum, offset)
    ensures FirstMatch(packets, conId, seqNum, offset) == i
  {
    if FirstMatch(packets, conId, seqNum, offset) < i { assert false; }
  }

  lemma {:induction false} StaleIs(times: seq<timestamp>, now: timestamp, hold: int, d: nat)
    requires d <= |times| && forall i :: 0 <= i < d ==> now.sec - times[i].sec > hold
    requires d < |times| ==> now.sec - times[d].sec <= hold
    ensures Stale(times, now, hold) == d
  {
    var s := Stale(times, now, hold);
    if s < d { assert false; }
  }

  /** Dropping fewer than d packets does not make room. */
  ghost predicate TooMuch(d: nat, packets: seq<Packet>, len: nat, max: nat) {
    d <= |packets| && forall i :: 0 <= i < d ==> TotalLen(packets[i..]) + len > max
  }

  lemma TooMuchMore(d: nat, packets: seq<Packet>, len: nat, max: nat)
    requires TooMuch(d, packets, len, max) && len <= max && TotalLen(packets[d..]) + len > max
    ensures d < |packets| && TooMuch(d + 1, packets, len, max)
  {}

  lemma {:induction false} CrowdIs(packets: seq<Packet>, len: nat, max: nat, d: nat)
    requires len <= max && TooMuch(d, packets, len, max) && TotalLen(packets[d..]) + len <= max
    ensures Crowd(packets, len, max) == d
  {
    var c := Crowd(packets, len, max);
    if c < d { assert false; }
  }

  /** No packet kept for a message is without payload. */
  ghost predicate NoEmptyPacket(packets: seq<Packet>, conId: int, seqNum: int) {
    forall p :: p in packets && p.header.localConId == conId && p.header.msgSeqNum == seqNum ==> p.payload != []
  }

  /** Packets of one message, each beginning where the one before ends. */
  ghost predicate Chain(sent: seq<Packet>, packets: seq<Packet>, conId: int, seqNum: int, from: int, to: int)
    decreases |sent|
  {
    if sent == [] then from == to
    else
      var p := sent[|sent| - 1];
      && p in packets && Matches(p, conId, seqNum, p.header.offset)
      && p.header.offset + |p.payload| == to
      && Chain(sent[..|sent| - 1], packets, conId, seqNum, from, p.header.offset)
  }

  lemma {:induction false} ChainStart(packets: seq<Packet>, conId: int, seqNum: int, from: int)
    ensures Chain([], packets, conId, seqNum, from, from)
  {}

  lemma ChainSnoc(sent: seq<Packet>, p: Packet, packets: seq<Packet>, conId: int, seqNum: int, from: int, offset: int)
    requires Chain(sent, packets, conId, seqNum, from, offset)
    requires p in packets && Matches(p, conId, seqNum, offset)
    ensures Chain(sent + [p], packets, conId, seqNum, from, offset + |p.payload|)
  {
    assert (sent + [p])[..|sent|] == sent;
  }

  /** Retransmission goes on from packet to packet until the range is covered (0), or the packet
      that would come next is not there (1). */
  ghost predicate Resent(packets: seq<Packet>, conId: int, seqNum: int, from: int, to: int, rc: int, sent: seq<Packet>) {
    && AllBefore(sent, to)
    && exists end :: Chain(sent, packets, conId, seqNum, from, end) && Stopped(packets, conId, seqNum, end, to, rc)
  }

  /** No packet begins at the end of the range or behind it. */
  ghost predicate AllBefore(sent: seq<Packet>, to: int) {
    forall p :: p in sent ==> p.header.offset < to
  }

  ghost predicate Stopped(packets: seq<Packet>, conId: int, seqNum: int, end: int, to: int, rc: int) {
    if rc == 0 then end >= to
    else rc == 1 && end < to && forall p :: p in packets ==> !Matches(p, conId, seqNum, end)
  }
}
