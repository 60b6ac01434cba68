/** What one packet does to the message it belongs to, at the receiver. */
module Reassembly {
  import opened Bytes
  import opened Wire
  import opened Fragments

  /** The most gaps that are kept track of in one message. */
  const RTX_MAX_GAPS: nat := 25

  /** A range of bytes that were jumped over. */
  datatype Gap = Gap(from: int, to: int)

  /** A message that is being received; hdrLen bytes of monitoring header come first in the buffer,
      and timed says that its timers are set. */
  datatype Slot = Slot(connectionId: int, seqNum: int, txConnectionId: int, msgType: int, hdrLen: nat, buf: seq<byte>,
                       complete: bool, firstPacketArrived: bool, recvFragments: nat, arrivedBytes: int,
                       expectedOffset: int, gaps: seq<Gap>, timed: bool)

  function Zeros(n: nat): (s: seq<byte>)
    ensures |s| == n && forall i :: 0 <= i < n ==> s[i] == 0
  {
    seq(n, _ => 0)
  }

  /** The state in which a message waits for its first packet, whichever that is. */
  function NewSlot(h: MsgHeader): Slot {
    Slot(h.remoteConId, h.msgSeqNum, h.localConId, h.msgType, h.lenMonDataHdr, Zeros(h.msgLength + h.lenMonDataHdr),
         false, false, 0, 0, 0, [], false)
  }

  /** Copies bytes into a buffer. */
  function Copy(buf: seq<byte>, at: nat, bytes: seq<byte>): (r: seq<byte>)
    requires at + |bytes| <= |buf|
    ensures |r| == |buf|
    ensures r[at..at + |bytes|] == bytes
    ensures forall i :: 0 <= i < |buf| && !(at <= i < at + |bytes|) ==> r[i] == buf[i]
  {
    seq(|buf|, i requires 0 <= i < |buf| => if at <= i < at + |bytes| then bytes[i - at] else buf[i])
  }

  /** The bytes of monitoring header at the front of what arrived. */
  function HdrPart(h: MsgHeader): nat {
    if h.offset == 0 then h.lenMonDataHdr else 0
  }

  /** The packet does not run over the end of the buffer. */
  predicate Fits(s: Slot, h: MsgHeader, body: seq<byte>) {
    HdrPart(h) <= |body| && h.lenMonDataHdr + h.offset + |body| - HdrPart(h) <= |s.buf|
  }

  /** A packet of n bytes lies at the beginning or the end of a gap. */
  predicate Touches(g: Gap, offset: int, n: int) {
    offset == g.from || offset == g.to - n
  }

  /** The gap without the packet. */
  function Shrunk(g: Gap, offset: int, n: int): Gap {
    if offset == g.from then Gap(g.from + n, g.to) else Gap(g.from, g.to - n)
  }

  /** The first gap that a packet touches, or the end of the list. */
  function Hit(gaps: seq<Gap>, offset: int, n: int): (i: nat)
    ensures i <= |gaps| && (i < |gaps| ==> Touches(gaps[i], offset, n))
    ensures forall j :: 0 <= j < i ==> !Touches(gaps[j], offset, n)
  {
    if gaps == [] || Touches(gaps[0], offset, n) then 0 else 1 + Hit(gaps[1..], offset, n)
  }

  /** The first gap that a packet of n bytes touches becomes smaller. */
  function Fill(gaps: seq<Gap>, offset: int, n: int): (r: seq<Gap>)
    ensures |r| == |gaps|
  {
    var i := Hit(gaps, offset, n);
    if i < |gaps| then gaps[i := Shrunk(gaps[i], offset, n)] else gaps
  }

  /** Does a packet at this offset open a gap that can be kept track of? */
  predicate OpensGap(s: Slot, offset: int) {
    offset > s.expectedOffset && |s.gaps| < RTX_MAX_GAPS
  }

  /** The gaps after a packet of n bytes. */
  function NewGaps(s: Slot, offset: int, n: int): seq<Gap> {
    if OpensGap(s, offset) then s.gaps + [Gap(s.expectedOffset, offset)]
    else if offset < s.expectedOffset then Fill(s.gaps, offset, n)
    else s.gaps
  }

  /** Writes a header at the front of a buffer and data further on. */
  function Paste(buf: seq<byte>, hdr: seq<byte>, at: nat, data: seq<byte>): (r: seq<byte>)
    requires |hdr| <= |buf| && at + |data| <= |buf|
    ensures |r| == |buf|
  {
    Copy(Copy(buf, 0, hdr), at, data)
  }

  /** The buffer after a packet. */
  function NewBuf(s: Slot, h: MsgHeader, body: seq<byte>): (buf: seq<byte>)
    requires Fits(s, h, body)
    ensures |buf| == |s.buf|
  {
    Paste(s.buf, body[..HdrPart(h)], h.lenMonDataHdr + h.offset, body[HdrPart(h)..])
  }

  /** What a packet with header h does to a message that is not complete; body is what comes after
      the packet's own monitoring header. */
  function Deliver(s: Slot, h: MsgHeader, body: seq<byte>): Slot
    requires Fits(s, h, body)
  {
    var n := |body| - HdrPart(h);
    s.(buf := NewBuf(s, h, body),
       firstPacketArrived := s.firstPacketArrived || h.offset == 0,
       recvFragments := s.recvFragments + 1,
       arrivedBytes := s.arrivedBytes + n,
       gaps := NewGaps(s, h.offset, n),
       expectedOffset := if h.offset >= s.expectedOffset then h.offset + n else s.expectedOffset,
       complete := s.arrivedBytes + n == |s.buf| - s.hdrLen)
  }

  /** The message without its monitoring header. */
  function Data(s: Slot): seq<byte> {
    if s.hdrLen <= |s.buf| then s.buf[s.hdrLen..] else []
  }

  /** What a packet does to a message in any state: a complete one takes no more. */
  function Taken(s: Slot, h: MsgHeader, body: seq<byte>): Slot
    requires Fits(s, h, body)
  {
    if s.complete then s else Deliver(s, h, body).(timed := true)
  }

  // Gaps

  predicate InGap(g: Gap, p: int) { g.from <= p < g.to }

  predicate InSomeGap(gaps: seq<Gap>, p: int) {
    exists i :: 0 <= i < |gaps| && InGap(gaps[i], p)
  }

  lemma FillKeeps(gaps: seq<Gap>, offset: int, n: int, p: int)
    requires InSomeGap(gaps, p) && !In(p, offset, n)
    ensures InSomeGap(Fill(gaps, offset, n), p)
  {
    var i :| 0 <= i < |gaps| && InGap(gaps[i], p);
    assert InGap(Fill(gaps, offset, n)[i], p);
  }

  /** Every byte that was jumped over and did not arrive lies in a gap. */
  ghost predicate Covered(s: Slot, arrived: iset<int>) {
    forall p {:trigger InSomeGap(s.gaps, p)} :: 0 <= p < s.expectedOffset && p !in arrived ==> InSomeGap(s.gaps, p)
  }

  predicate In(p: int, offset: int, n: int) { offset <= p < offset + n }

  ghost function Span(offset: int, n: int): iset<int> {
    iset p: int | In(p, offset, n)
  }

  /** Gaps lie below the expected offset. */
  predicate Below(gaps: seq<Gap>, top: int) {
    forall i :: 0 <= i < |gaps| ==> gaps[i].to <= top
  }

  lemma FillBelow(gaps: seq<Gap>, offset: int, n: nat, top: int)
    requires Below(gaps, top)
    ensures Below(Fill(gaps, offset, n), top)
  {}

  lemma BelowStep(s: Slot, h: MsgHeader, body: seq<byte>)
    requires Fits(s, h, body) && Below(s.gaps, s.expectedOffset)
    ensures Below(Deliver(s, h, body).gaps, Deliver(s, h, body).expectedOffset)
  {
    FillBelow(s.gaps, h.offset, |body| - HdrPart(h), s.expectedOffset);
  }

  /** The missing bytes stay covered by any packet, new or repeated, unless a gap cannot be recorded. */
  lemma CoveredStep(s: Slot, arrived: iset<int>, h: MsgHeader, body: seq<byte>)
    requires Fits(s, h, body) && Covered(s, arrived)
    requires h.offset > s.expectedOffset ==> |s.gaps| < RTX_MAX_GAPS
    ensures Covered(Deliver(s, h, body), arrived + Span(h.offset, |body| - HdrPart(h)))
  {
    var n := |body| - HdrPart(h);
    var s' := Deliver(s, h, body);
    forall p | 0 <= p < s'.expectedOffset && p !in arrived + Span(h.offset, n) ensures InSomeGap(s'.gaps, p) {
      assert !In(p, h.offset, n);
      if h.offset < s.expectedOffset {
        assert InSomeGap(s.gaps, p);
        FillKeeps(s.gaps, h.offset, n, p);
      } else if p >= s.expectedOffset {
        assert InGap(s'.gaps[|s.gaps|], p);
      } else {
        assert InSomeGap(s.gaps, p);
        var i :| 0 <= i < |s.gaps| && InGap(s.gaps[i], p);
        assert InGap(s'.gaps[i], p);
      }
    }
  }

  /** What has arrived, packet by packet. */
  datatype Arrival = Arrival(h: MsgHeader, body: seq<byte>)

  ghost predicate AllFit(s: Slot, arrivals: seq<Arrival>) {
    forall i :: 0 <= i < |arrivals| ==> Fits(s, arrivals[i].h, arrivals[i].body)
  }

  /** The state after a list of packets, which stops changing when the message is complete. */
  ghost function After(s: Slot, arrivals: seq<Arrival>): (t: Slot)
    requires AllFit(s, arrivals)
    ensures |t.buf| == |s.buf| && t.hdrLen == s.hdrLen
  {
    if arrivals == [] then s
    else
      var t := After(s, arrivals[..|arrivals| - 1]);
      var a := arrivals[|arrivals| - 1];
      Taken(t, a.h, a.body)
  }

  /** The bytes that arrived. */
  ghost function Arrived(arrivals: seq<Arrival>): iset<int> {
    if arrivals == [] then iset{}
    else
      var a := arrivals[|arrivals| - 1];
      Arrived(arrivals[..|arrivals| - 1]) + Span(a.h.offset, |a.body| - HdrPart(a.h))
  }

  /** As long as fewer than RTX_MAX_GAPS gaps were opened, whatever arrived and in whatever order,
      every missing byte lies in a recorded gap or at the tail. */
  lemma {:induction false} LossCoverage(h: MsgHeader, arrivals: seq<Arrival>, p: int)
    requires AllFit(NewSlot(h), arrivals)
    requires var t := After(NewSlot(h), arrivals);
             |t.gaps| < RTX_MAX_GAPS && 0 <= p < |t.buf| - t.hdrLen && p !in Arrived(arrivals)
    ensures var t := After(NewSlot(h), arrivals);
            InSomeGap(t.gaps, p) || t.expectedOffset <= p < |t.buf| - t.hdrLen
  {
    CoveredAlways(NewSlot(h), arrivals);
  }

  lemma {:induction false} CoveredAlways(s: Slot, arrivals: seq<Arrival>)
    requires AllFit(s, arrivals) && s.expectedOffset == 0 && |After(s, arrivals).gaps| < RTX_MAX_GAPS
    ensures Covered(After(s, arrivals), Arrived(arrivals))
  {
    if arrivals != [] {
      var front := arrivals[..|arrivals| - 1];
      var a := arrivals[|arrivals| - 1];
      CoveredAlways(s, front);
      var t := After(s, front);
      if t.complete {
        forall p | 0 <= p < t.expectedOffset && p !in Arrived(arrivals) ensures InSomeGap(t.gaps, p) {
          assert p !in Arrived(front);
        }
      } else {
        CoveredStep(t, Arrived(front), a.h, a.body);
      }
    }
  }

  lemma {:induction false} BelowAlways(s: Slot, arrivals: seq<Arrival>)
    requires AllFit(s, arrivals) && s.expectedOffset >= 0 && Below(s.gaps, s.expectedOffset)
    ensures var t := After(s, arrivals); t.expectedOffset >= 0 && Below(t.gaps, t.expectedOffset)
  {
    if arrivals != [] {
      var a := arrivals[|arrivals| - 1];
      BelowAlways(s, arrivals[..|arrivals| - 1]);
      BelowStep(After(s, arrivals[..|arrivals| - 1]), a.h, a.body);
    }
  }

  /** When the table of gaps is full, jumping over a byte that did not arrive leaves it uncovered. So
      after any arrivals whose missing bytes are covered, the next packet keeps them covered exactly
      if it does not jump or its gap can be recorded. */
  lemma {:induction false} CoveredExact(h: MsgHeader, arrivals: seq<Arrival>, a: Arrival)
    requires AllFit(NewSlot(h), arrivals) && Fits(NewSlot(h), a.h, a.body)
    requires var s := After(NewSlot(h), arrivals);
             !s.complete && Covered(s, Arrived(arrivals)) && s.expectedOffset !in Arrived(arrivals)
    ensures var s, n := After(NewSlot(h), arrivals), |a.body| - HdrPart(a.h);
            Covered(Taken(s, a.h, a.body), Arrived(arrivals) + Span(a.h.offset, n))
            <==> a.h.offset <= s.expectedOffset || OpensGap(s, a.h.offset)
  {
    var s := After(NewSlot(h), arrivals);
    BelowAlways(NewSlot(h), arrivals);
    if a.h.offset <= s.expectedOffset || OpensGap(s, a.h.offset) {
      CoveredStep(s, Arrived(arrivals), a.h, a.body);
    } else {
      assert !In(s.expectedOffset, a.h.offset, |a.body| - HdrPart(a.h));
      assert !InSomeGap(s.gaps, s.expectedOffset);
    }
  }
}
