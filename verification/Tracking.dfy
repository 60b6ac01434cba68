/** A message that arrives as the packets of one fragmentation, in any order, some of them repeatedly. */
module Tracking {
  import opened Bytes
  import opened Wire
  import opened Fragments
  import opened Reassembly

  /** What follows the packet's own monitoring header. */
  function Body(p: Packet): seq<byte> { p.monDataHdr + p.payload }

  /** The bytes of message that arrived. */
  function GotBytes(ps: seq<Packet>, got: seq<bool>): nat
    requires |got| == |ps|
  {
    if ps == [] then 0
    else
      var k := |ps| - 1;
      GotBytes(ps[..k], got[..k]) + if got[k] then |ps[k].payload| else 0
  }

  predicate All(got: seq<bool>) {
    forall i :: 0 <= i < |got| ==> got[i]
  }

  lemma {:induction false} GotUpdate(ps: seq<Packet>, got: seq<bool>, i: nat)
    requires |got| == |ps| && i < |ps| && !got[i]
    ensures GotBytes(ps, got[i := true]) == GotBytes(ps, got) + |ps[i].payload|
  {
    var k := |ps| - 1;
    if i < k {
      GotUpdate(ps[..k], got[..k], i);
      assert got[i := true][..k] == got[..k][i := true];
    } else {
      assert got[i := true][..k] == got[..k];
    }
  }

  lemma PrefixFront(m: Message, ps: seq<Packet>)
    requires Prefix(m, ps) && ps != []
    ensures Prefix(m, ps[..|ps| - 1])
  {
    var qs := ps[..|ps| - 1];
    forall i | 0 <= i < |qs| ensures Offset(qs, i) == if i == 0 then 0 else End(qs, i - 1) {
      assert Offset(ps, i) == if i == 0 then 0 else End(ps, i - 1);
    }
  }

  /** As many bytes as the message has only arrive when all packets do. */
  lemma {:induction false} GotAll(m: Message, ps: seq<Packet>, got: seq<bool>)
    requires Prefix(m, ps) && |got| == |ps| && m.data != [] && ps != []
    ensures GotBytes(ps, got) <= End(ps, |ps| - 1)
    ensures GotBytes(ps, got) == End(ps, |ps| - 1) <==> All(got)
  {
    var k := |ps| - 1;
    if k > 0 {
      PrefixFront(m, ps);
      GotAll(m, ps[..k], got[..k]);
      assert Offset(ps, k) == End(ps, k - 1) == End(ps[..k], k - 1);
      assert All(got) <==> All(got[..k]) && got[k];
    } else {
      assert GotBytes(ps[..0], got[..0]) == 0;
    }
  }

  /** Numbers of packets. */
  predicate Numbered(ps: seq<Packet>, idx: seq<nat>) {
    forall k :: 0 <= k < |idx| ==> idx[k] < |ps|
  }

  /** The bytes of message that arrived with the packets of these numbers, repeated ones counted again. */
  function SumLens(ps: seq<Packet>, idx: seq<nat>): nat
    requires Numbered(ps, idx)
  {
    if idx == [] then 0 else SumLens(ps, idx[..|idx| - 1]) + |ps[idx[|idx| - 1]].payload|
  }

  /** Which packets are among them. */
  function Heard(n: nat, idx: seq<nat>): (got: seq<bool>)
    ensures |got| == n && forall i :: 0 <= i < n ==> got[i] == (i in idx)
  {
    seq(n, i requires 0 <= i => i in idx)
  }

  predicate NoRepeat(idx: seq<nat>) {
    forall j, k :: 0 <= j < k < |idx| ==> idx[j] != idx[k]
  }

  lemma {:induction false} SumSnoc(ps: seq<Packet>, idx: seq<nat>, i: nat)
    requires Numbered(ps, idx) && i < |ps|
    ensures Numbered(ps, idx + [i]) && SumLens(ps, idx + [i]) == SumLens(ps, idx) + |ps[i].payload|
  {
    assert (idx + [i])[..|idx|] == idx;
  }

  lemma HeardSnoc(n: nat, idx: seq<nat>, i: nat)
    requires i < n
    ensures Heard(n, idx + [i]) == Heard(n, idx)[i := true]
    ensures NoRepeat(idx + [i]) <==> NoRepeat(idx) && i !in idx
  {
    if NoRepeat(idx + [i]) {
      forall j, k | 0 <= j < k < |idx| ensures idx[j] != idx[k] { assert (idx + [i])[j] != (idx + [i])[k]; }
      forall j | 0 <= j < |idx| ensures idx[j] != i { assert (idx + [i])[j] != (idx + [i])[|idx|]; }
    }
  }

  lemma {:induction false} HeardNothing(ps: seq<Packet>, got: seq<bool>)
    requires |got| == |ps| && forall i :: 0 <= i < |ps| ==> !got[i]
    ensures GotBytes(ps, got) == 0
  {
    if ps != [] { HeardNothing(ps[..|ps| - 1], got[..|ps| - 1]); }
  }

  /** Counted are at least the bytes of the packets that arrived, and more exactly if one arrived again. */
  lemma {:induction false} SumHeard(m: Message, ps: seq<Packet>, idx: seq<nat>)
    requires Prefix(m, ps) && m.data != [] && Numbered(ps, idx)
    ensures SumLens(ps, idx) >= GotBytes(ps, Heard(|ps|, idx))
    ensures SumLens(ps, idx) == GotBytes(ps, Heard(|ps|, idx)) <==> NoRepeat(idx)
  {
    if idx == [] {
      HeardNothing(ps, Heard(|ps|, []));
    } else {
      var front, i := idx[..|idx| - 1], idx[|idx| - 1];
      assert idx == front + [i] && ps[i].payload != [];
      SumHeard(m, ps, front);
      HeardSnoc(|ps|, front, i);
      if i in front {
        assert Heard(|ps|, idx) == Heard(|ps|, front);
      } else {
        GotUpdate(ps, Heard(|ps|, front), i);
      }
    }
  }

  /** When as many bytes were counted as the message has, all packets arrived exactly if none arrived again. */
  lemma {:induction false} AllHeardExact(m: Message, ps: seq<Packet>, idx: seq<nat>)
    requires Fragmentation(m, ps) && m.data != [] && Numbered(ps, idx) && SumLens(ps, idx) == |m.data|
    ensures All(Heard(|ps|, idx)) <==> NoRepeat(idx)
  {
    SumHeard(m, ps, idx);
    GotAll(m, ps, Heard(|ps|, idx));
  }

  /** The packet's part of the buffer holds what was sent, or zeros if it did not arrive. */
  ghost predicate PartIs(buf: seq<byte>, m: Message, p: Packet, heard: bool) {
    && |m.hdr| + p.header.offset + |p.payload| <= |buf|
    && Region(buf, m, p) == if heard then p.payload else Zeros(|p.payload|)
  }

  function Region(buf: seq<byte>, m: Message, p: Packet): seq<byte>
    requires |m.hdr| + p.header.offset + |p.payload| <= |buf|
  {
    buf[|m.hdr| + p.header.offset..|m.hdr| + p.header.offset + |p.payload|]
  }

  /** The buffer holds what arrived, and zeros elsewhere. */
  ghost predicate Holds(buf: seq<byte>, m: Message, ps: seq<Packet>, idx: seq<nat>) {
    && |buf| == |m.hdr| + |m.data|
    && (forall i {:trigger ps[i]} :: 0 <= i < |ps| ==> PartIs(buf, m, ps[i], i in idx))
    && (0 in idx ==> buf[..|m.hdr|] == m.hdr)
  }

  /** The offset is where a packet begins, or the end of the message. */
  ghost predicate Boundary(m: Message, ps: seq<Packet>, x: int) {
    x == |m.data| || exists i :: 0 <= i < |ps| && x == Offset(ps, i)
  }

  ghost predicate GapBounds(m: Message, ps: seq<Packet>, g: Gap) {
    Boundary(m, ps, g.from) && Boundary(m, ps, g.to)
  }

  ghost predicate AllGapBounds(m: Message, ps: seq<Packet>, gaps: seq<Gap>) {
    forall g :: g in gaps ==> GapBounds(m, ps, g)
  }

  ghost predicate Bounds(m: Message, ps: seq<Packet>, s: Slot) {
    Boundary(m, ps, s.expectedOffset) && AllGapBounds(m, ps, s.gaps)
  }

  /** The slot belongs to message m, sent as packets ps, and took in those of these numbers, in this
      order. It is complete if they have as many bytes as the message. */
  ghost predicate Tracks(s: Slot, m: Message, ps: seq<Packet>, idx: seq<nat>) {
    IsFor(s, m) && Counts(s, m, ps, idx) && Holds(s.buf, m, ps, idx) && Bounds(m, ps, s)
  }

  ghost predicate IsFor(s: Slot, m: Message) {
    && s.connectionId == m.receiverId && s.seqNum == m.seqNum && s.msgType == m.msgType
    && s.txConnectionId == m.senderId && s.hdrLen == |m.hdr|
  }

  ghost predicate Counts(s: Slot, m: Message, ps: seq<Packet>, idx: seq<nat>) {
    && Numbered(ps, idx)
    && s.arrivedBytes == SumLens(ps, idx)
    && (s.complete <==> SumLens(ps, idx) == |m.data|)
    && (s.firstPacketArrived <==> 0 in idx)
  }

  /** A new slot took in nothing, whichever packet it was made for. */
  lemma TracksNew(m: Message, ps: seq<Packet>, i: nat)
    requires Fragmentation(m, ps) && m.data != [] && i < |ps|
    ensures Tracks(NewSlot(ps[i].header), m, ps, [])
  {
    assert Carries(m, ps[i]);
    assert Offset(ps, 0) == 0;
    forall j | 0 <= j < |ps| ensures PartIs(NewSlot(ps[i].header).buf, m, ps[j], false) {
      assert Carries(m, ps[j]);
    }
  }

  lemma CopyKeeps(buf: seq<byte>, at: nat, bytes: seq<byte>, from: nat, to: nat)
    requires at + |bytes| <= |buf| && from <= to <= |buf| && (to <= at || at + |bytes| <= from)
    ensures Copy(buf, at, bytes)[from..to] == buf[from..to]
  {
    var r := Copy(buf, at, bytes);
    forall i | from <= i < to ensures r[i] == buf[i] {}
  }

  lemma FirstOffset(m: Message, ps: seq<Packet>, i: nat)
    requires Fragmentation(m, ps) && m.data != [] && i < |ps|
    ensures Offset(ps, i) == 0 <==> i == 0
    ensures Fits(Slot(0, 0, 0, 0, |m.hdr|, Zeros(|m.hdr| + |m.data|), false, false, 0, 0, 0, [], false), ps[i].header, Body(ps[i]))
  {
    assert Carries(m, ps[i]);
    if i > 0 {
      InOrder(m, ps, 0, i);
      assert ps[0].payload != [];
    }
  }

  lemma HeaderLens(m: Message, p: Packet)
    requires Carries(m, p)
    ensures p.header.lenMonDataHdr == |m.hdr| && HdrPart(p.header) == |p.monDataHdr| <= |m.hdr|
    ensures p.header.offset + |p.payload| <= |m.data|
  {}

  lemma PacketFits(s: Slot, m: Message, p: Packet)
    requires Carries(m, p) && |s.buf| == |m.hdr| + |m.data|
    ensures Fits(s, p.header, Body(p))
  {
    HeaderLens(m, p);
    assert |Body(p)| == |p.monDataHdr| + |p.payload|;
  }

  lemma BodyParts(p: Packet)
    requires |p.monDataHdr| == HdrPart(p.header)
    ensures |Body(p)| == HdrPart(p.header) + |p.payload|
    ensures Body(p)[..HdrPart(p.header)] == p.monDataHdr && Body(p)[HdrPart(p.header)..] == p.payload
  {}

  /** The data is written behind the monitoring header. */
  lemma NewBufData(s: Slot, h: MsgHeader, hdr: seq<byte>, data: seq<byte>, body: seq<byte>)
    requires Fits(s, h, body) && |hdr| == HdrPart(h) && body[|hdr|..] == data && |body| == |hdr| + |data|
    ensures var at := h.lenMonDataHdr + h.offset; NewBuf(s, h, body)[at..at + |data|] == data
  {}

  /** The monitoring header is written at the front. */
  lemma NewBufHeader(s: Slot, h: MsgHeader, body: seq<byte>)
    requires Fits(s, h, body) && HdrPart(h) <= h.lenMonDataHdr + h.offset
    ensures NewBuf(s, h, body)[..HdrPart(h)] == body[..HdrPart(h)]
  {
    var k := HdrPart(h);
    CopyKeeps(Copy(s.buf, 0, body[..k]), h.lenMonDataHdr + h.offset, body[k..], 0, k);
  }

  /** All else stays. */
  lemma NewBufKeeps(s: Slot, h: MsgHeader, body: seq<byte>, from: nat, to: nat)
    requires Fits(s, h, body) && HdrPart(h) <= from <= to <= |s.buf|
    requires var at := h.lenMonDataHdr + h.offset; to <= at || at + |body| - HdrPart(h) <= from
    ensures NewBuf(s, h, body)[from..to] == s.buf[from..to]
  {
    var k := HdrPart(h);
    CopyKeeps(s.buf, 0, body[..k], from, to);
    CopyKeeps(Copy(s.buf, 0, body[..k]), h.lenMonDataHdr + h.offset, body[k..], from, to);
  }

  lemma OwnPart(s: Slot, m: Message, p: Packet)
    requires Carries(m, p) && |s.buf| == |m.hdr| + |m.data|
    ensures Fits(s, p.header, Body(p)) && PartIs(NewBuf(s, p.header, Body(p)), m, p, true)
  {
    HeaderLens(m, p);
    PacketFits(s, m, p);
    OwnData(s, p);
    RegionIs(NewBuf(s, p.header, Body(p)), m, p, p.header.lenMonDataHdr + p.header.offset);
  }

  lemma OwnData(s: Slot, p: Packet)
    requires Fits(s, p.header, Body(p)) && |p.monDataHdr| == HdrPart(p.header)
    ensures var at := p.header.lenMonDataHdr + p.header.offset;
            at + |p.payload| <= |s.buf| && NewBuf(s, p.header, Body(p))[at..at + |p.payload|] == p.payload
  {
    BodyParts(p);
    NewBufData(s, p.header, p.monDataHdr, p.payload, Body(p));
  }

  lemma RegionIs(buf: seq<byte>, m: Message, p: Packet, at: nat)
    requires at == |m.hdr| + p.header.offset && at + |p.payload| <= |buf| && buf[at..at + |p.payload|] == p.payload
    ensures PartIs(buf, m, p, true)
  {}

  lemma KeptPart(s: Slot, m: Message, p: Packet, q: Packet, heard: bool)
    requires Carries(m, p) && |s.buf| == |m.hdr| + |m.data| && PartIs(s.buf, m, q, heard)
    requires p.header.offset + |p.payload| <= q.header.offset || q.header.offset + |q.payload| <= p.header.offset
    ensures Fits(s, p.header, Body(p)) && PartIs(NewBuf(s, p.header, Body(p)), m, q, heard)
  {
    HeaderLens(m, p);
    PacketFits(s, m, p);
    BodyParts(p);
    NewBufKeeps(s, p.header, Body(p), |m.hdr| + q.header.offset, |m.hdr| + q.header.offset + |q.payload|);
  }

  /** The monitoring header comes with the first packet and stays. */
  lemma HeaderHeld(s: Slot, m: Message, p: Packet)
    requires Carries(m, p) && |s.buf| == |m.hdr| + |m.data|
    requires p.header.offset == 0 || s.buf[..|m.hdr|] == m.hdr
    ensures Fits(s, p.header, Body(p)) && NewBuf(s, p.header, Body(p))[..|m.hdr|] == m.hdr
  {
    HeaderLens(m, p);
    PacketFits(s, m, p);
    BodyParts(p);
    if p.header.offset == 0 {
      NewBufHeader(s, p.header, Body(p));
    } else {
      NewBufKeeps(s, p.header, Body(p), 0, |m.hdr|);
    }
  }

  lemma Apart(m: Message, ps: seq<Packet>, i: nat, j: nat)
    requires Fragmentation(m, ps) && i < |ps| && j < |ps| && i != j
    ensures End(ps, i) <= Offset(ps, j) || End(ps, j) <= Offset(ps, i)
  {
    if i < j { InOrder(m, ps, i, j); } else { InOrder(m, ps, j, i); }
  }

  /** A packet leaves the parts of the others as they are and fills its own, again or for the first time. */
  lemma HoldsStep(s: Slot, m: Message, ps: seq<Packet>, idx: seq<nat>, i: nat)
    requires Fragmentation(m, ps) && m.data != [] && i < |ps| && Holds(s.buf, m, ps, idx)
    ensures Fits(s, ps[i].header, Body(ps[i]))
    ensures Holds(NewBuf(s, ps[i].header, Body(ps[i])), m, ps, idx + [i])
  {
    assert Carries(m, ps[i]);
    OwnPart(s, m, ps[i]);
    var buf := NewBuf(s, ps[i].header, Body(ps[i]));
    forall j {:trigger ps[j]} | 0 <= j < |ps| ensures PartIs(buf, m, ps[j], j in idx + [i]) {
      if j != i {
        Apart(m, ps, i, j);
        KeptPart(s, m, ps[i], ps[j], j in idx);
      }
    }
    FirstOffset(m, ps, i);
    if 0 in idx + [i] { HeaderHeld(s, m, ps[i]); }
  }

  lemma FillBounds(m: Message, ps: seq<Packet>, gaps: seq<Gap>, i: nat)
    requires Fragmentation(m, ps) && i < |ps|
    requires AllGapBounds(m, ps, gaps)
    ensures AllGapBounds(m, ps, Fill(gaps, Offset(ps, i), |ps[i].payload|))
  {
    EndIsBoundary(m, ps, i);
    var offset, n := Offset(ps, i), |ps[i].payload|;
    var h := Hit(gaps, offset, n);
    if h < |gaps| {
      assert GapBounds(m, ps, gaps[h]);
      assert GapBounds(m, ps, Shrunk(gaps[h], offset, n));
    }
  }

  lemma EndIsBoundary(m: Message, ps: seq<Packet>, i: nat)
    requires Fragmentation(m, ps) && i < |ps|
    ensures Boundary(m, ps, Offset(ps, i)) && Boundary(m, ps, End(ps, i))
  {
    if i + 1 < |ps| { assert Offset(ps, i + 1) == End(ps, i); }
  }

  /** The arrival of a packet, new or repeated, at a message that is not complete. */
  lemma TracksStep(s: Slot, m: Message, ps: seq<Packet>, idx: seq<nat>, i: nat)
    requires Fragmentation(m, ps) && m.data != [] && i < |ps| && Tracks(s, m, ps, idx) && !s.complete
    ensures Fits(s, ps[i].header, Body(ps[i]))
    ensures Tracks(Taken(s, ps[i].header, Body(ps[i])), m, ps, idx + [i])
  {
    TakenParts(s, m, ps[i]);
    HoldsStep(s, m, ps, idx, i);
    TakenBounds(s, m, ps, i);
    TakenCounts(s, m, ps, idx, i);
  }

  lemma TakenBounds(s: Slot, m: Message, ps: seq<Packet>, i: nat)
    requires Fragmentation(m, ps) && i < |ps| && Bounds(m, ps, s) && !s.complete
    requires |s.buf| == |m.hdr| + |m.data| && s.hdrLen == |m.hdr| && Fits(s, ps[i].header, Body(ps[i]))
    ensures Bounds(m, ps, Taken(s, ps[i].header, Body(ps[i])))
  {
    assert Carries(m, ps[i]);
    TakenParts(s, m, ps[i]);
    BoundsStep(s, m, ps, i);
  }

  lemma TakenCounts(s: Slot, m: Message, ps: seq<Packet>, idx: seq<nat>, i: nat)
    requires Fragmentation(m, ps) && m.data != [] && i < |ps| && Counts(s, m, ps, idx) && !s.complete
    requires |s.buf| == |m.hdr| + |m.data| && s.hdrLen == |m.hdr| && Fits(s, ps[i].header, Body(ps[i]))
    ensures Counts(Taken(s, ps[i].header, Body(ps[i])), m, ps, idx + [i])
  {
    assert Carries(m, ps[i]);
    TakenParts(s, m, ps[i]);
    SumSnoc(ps, idx, i);
    FirstOffset(m, ps, i);
  }

  /** What taking in a packet changes. */
  lemma TakenParts(s: Slot, m: Message, p: Packet)
    requires Carries(m, p) && |s.buf| == |m.hdr| + |m.data| && s.hdrLen == |m.hdr| && !s.complete
    ensures Fits(s, p.header, Body(p))
    ensures var t := Taken(s, p.header, Body(p));
            && t == s.(buf := NewBuf(s, p.header, Body(p)), gaps := t.gaps, expectedOffset := t.expectedOffset,
                       firstPacketArrived := s.firstPacketArrived || p.header.offset == 0,
                       recvFragments := s.recvFragments + 1, arrivedBytes := s.arrivedBytes + |p.payload|,
                       complete := s.arrivedBytes + |p.payload| == |m.data|, timed := true)
            && t.gaps == NewGaps(s, p.header.offset, |p.payload|)
            && t.expectedOffset == if p.header.offset >= s.expectedOffset then p.header.offset + |p.payload|
                                   else s.expectedOffset
  {
    HeaderLens(m, p);
    PacketFits(s, m, p);
  }

  lemma BoundsSnoc(m: Message, ps: seq<Packet>, gaps: seq<Gap>, g: Gap)
    requires AllGapBounds(m, ps, gaps) && GapBounds(m, ps, g)
    ensures AllGapBounds(m, ps, gaps + [g])
  {}

  lemma BoundsStep(s: Slot, m: Message, ps: seq<Packet>, i: nat)
    requires Fragmentation(m, ps) && i < |ps| && Bounds(m, ps, s)
    ensures AllGapBounds(m, ps, NewGaps(s, Offset(ps, i), |ps[i].payload|))
    ensures Boundary(m, ps, if Offset(ps, i) >= s.expectedOffset then End(ps, i) else s.expectedOffset)
  {
    FillBounds(m, ps, s.gaps, i);
    EndIsBoundary(m, ps, i);
    if OpensGap(s, Offset(ps, i)) {
      BoundsSnoc(m, ps, s.gaps, Gap(s.expectedOffset, Offset(ps, i)));
    }
  }

  // The states that are reached

  function ArrivalOf(p: Packet): Arrival { Arrival(p.header, Body(p)) }

  function ArrivalsOf(ps: seq<Packet>, idx: seq<nat>): (arrivals: seq<Arrival>)
    requires Numbered(ps, idx)
    ensures |arrivals| == |idx|
  {
    seq(|idx|, k requires 0 <= k < |idx| => ArrivalOf(ps[idx[k]]))
  }

  lemma ArrivalsFit(m: Message, ps: seq<Packet>, idx: seq<nat>)
    requires Fragmentation(m, ps) && Numbered(ps, idx)
    ensures AllFit(NewSlot(ps[0].header), ArrivalsOf(ps, idx))
  {
    assert Carries(m, ps[0]);
    forall k | 0 <= k < |idx| ensures Fits(NewSlot(ps[0].header), ps[idx[k]].header, Body(ps[idx[k]])) {
      PacketFits(NewSlot(ps[0].header), m, ps[idx[k]]);
    }
  }

  /** The slot of a message after the packets of these numbers arrived, in this order, repeated or not. */
  ghost function Reached(m: Message, ps: seq<Packet>, idx: seq<nat>): (s: Slot)
    requires Fragmentation(m, ps) && Numbered(ps, idx)
  {
    ArrivalsFit(m, ps, idx);
    After(NewSlot(ps[0].header), ArrivalsOf(ps, idx))
  }

  lemma ReachedNone(m: Message, ps: seq<Packet>, i: nat)
    requires Fragmentation(m, ps) && i < |ps|
    ensures Reached(m, ps, []) == NewSlot(ps[i].header)
  {
    assert Carries(m, ps[0]) && Carries(m, ps[i]);
  }

  lemma ReachedSnoc(m: Message, ps: seq<Packet>, idx: seq<nat>, i: nat)
    requires Fragmentation(m, ps) && Numbered(ps, idx) && i < |ps|
    ensures Fits(Reached(m, ps, idx), ps[i].header, Body(ps[i]))
    ensures Numbered(ps, idx + [i])
    ensures Reached(m, ps, idx + [i]) == Taken(Reached(m, ps, idx), ps[i].header, Body(ps[i]))
  {
    ArrivalsFit(m, ps, idx + [i]);
    ArrivalsFit(m, ps, idx);
    var all := ArrivalsOf(ps, idx + [i]);
    assert all[..|idx|] == ArrivalsOf(ps, idx) && all[|idx|] == ArrivalOf(ps[i]);
    assert Fits(NewSlot(ps[0].header), all[|idx|].h, all[|idx|].body);
  }

  /** The packets that are taken in: the first ones that have so many bytes, or all. */
  function Until(ps: seq<Packet>, idx: seq<nat>, total: nat): (u: seq<nat>)
    requires Numbered(ps, idx)
    ensures u <= idx
    ensures Numbered(ps, u) && (SumLens(ps, u) != total ==> u == idx)
  {
    if idx == [] then []
    else
      var u := Until(ps, idx[..|idx| - 1], total);
      if SumLens(ps, u) == total then u else idx
  }

  /** A message takes in packets until it has counted its bytes. */
  lemma {:induction false} ReachedTracks(m: Message, ps: seq<Packet>, idx: seq<nat>)
    requires Fragmentation(m, ps) && m.data != [] && Numbered(ps, idx)
    ensures Tracks(Reached(m, ps, idx), m, ps, Until(ps, idx, |m.data|))
  {
    if idx == [] {
      ReachedNone(m, ps, 0);
      TracksNew(m, ps, 0);
    } else {
      var front, i := idx[..|idx| - 1], idx[|idx| - 1];
      assert idx == front + [i];
      ReachedTracks(m, ps, front);
      ReachedSnoc(m, ps, front, i);
      var s, u := Reached(m, ps, front), Until(ps, front, |m.data|);
      if !s.complete { TracksStep(s, m, ps, u, i); }
    }
  }

  lemma {:induction false} SumGrows(m: Message, ps: seq<Packet>, idx: seq<nat>, j: nat, k: nat)
    requires Prefix(m, ps) && m.data != [] && Numbered(ps, idx) && j < k <= |idx|
    ensures SumLens(ps, idx[..j]) < SumLens(ps, idx[..k])
    decreases k
  {
    assert idx[..k][..k - 1] == idx[..k - 1] && ps[idx[k - 1]].payload != [];
    if j < k - 1 { SumGrows(m, ps, idx, j, k - 1); }
  }

  /** At most one first part of the arrivals has as many bytes as the message. */
  lemma {:induction false} UntilIs(m: Message, ps: seq<Packet>, idx: seq<nat>, n: nat)
    requires Prefix(m, ps) && m.data != [] && Numbered(ps, idx) && n <= |idx| && SumLens(ps, idx[..n]) == |m.data|
    ensures Until(ps, idx, |m.data|) == idx[..n]
  {
    var u := Until(ps, idx, |m.data|);
    var k := |u|;
    assert u == idx[..k];
    if k < n {
      assert u != idx;
      SumGrows(m, ps, idx, k, n);
      assert false;
    }
    if n < k {
      UntilFirst(ps, idx, |m.data|, n);
      assert false;
    }
  }

  /** Arrivals that have at most as many bytes as the message are all taken in. */
  lemma {:induction false} UntilAll(m: Message, ps: seq<Packet>, idx: seq<nat>)
    requires Prefix(m, ps) && m.data != [] && Numbered(ps, idx) && SumLens(ps, idx) <= |m.data|
    ensures Until(ps, idx, |m.data|) == idx
  {
    var u := Until(ps, idx, |m.data|);
    assert u == idx[..|u|] && idx == idx[..|idx|];
    if |u| < |idx| {
      SumGrows(m, ps, idx, |u|, |idx|);
      assert false;
    }
  }

  lemma {:induction false} CompleteUntil(m: Message, ps: seq<Packet>, idx: seq<nat>)
    requires Fragmentation(m, ps) && m.data != [] && Numbered(ps, idx)
    ensures Reached(m, ps, idx).complete <==> SumLens(ps, Until(ps, idx, |m.data|)) == |m.data|
  {
    ReachedTracks(m, ps, idx);
  }

  lemma {:induction false} CompleteIfEnough(m: Message, ps: seq<Packet>, idx: seq<nat>)
    requires Fragmentation(m, ps) && m.data != [] && Numbered(ps, idx) && SumLens(ps, idx) <= |m.data|
    ensures Reached(m, ps, idx).complete <==> SumLens(ps, idx) == |m.data|
  {
    CompleteUntil(m, ps, idx);
    UntilAll(m, ps, idx);
  }

  lemma {:induction false} UntilFirst(ps: seq<Packet>, idx: seq<nat>, total: nat, n: nat)
    requires Numbered(ps, idx) && n < |Until(ps, idx, total)|
    ensures SumLens(ps, idx[..n]) != total
    decreases |idx|
  {
    var front := idx[..|idx| - 1];
    var u := Until(ps, front, total);
    if SumLens(ps, u) == total || n < |front| {
      assert front[..n] == idx[..n];
      UntilFirst(ps, front, total, n);
    } else {
      assert idx[..n] == front;
    }
  }

  /** Byte p of the message came with one of the packets. */
  ghost predicate HeardByte(ps: seq<Packet>, idx: seq<nat>, p: int)
    requires Numbered(ps, idx)
  {
    exists k :: 0 <= k < |idx| && Offset(ps, idx[k]) <= p < End(ps, idx[k])
  }

  /** The message with zeros where nothing arrived. */
  ghost function Masked(m: Message, ps: seq<Packet>, idx: seq<nat>): (d: seq<byte>)
    requires Numbered(ps, idx)
    ensures |d| == |m.data|
  {
    seq(|m.data|, p requires 0 <= p < |m.data| => if HeardByte(ps, idx, p) then m.data[p] else 0)
  }

  lemma PartByte(buf: seq<byte>, m: Message, ps: seq<Packet>, i: nat, heard: bool, p: nat)
    requires Fragmentation(m, ps) && i < |ps| && PartIs(buf, m, ps[i], heard) && Offset(ps, i) <= p < End(ps, i)
    ensures p < |m.data| && |m.hdr| + p < |buf| && buf[|m.hdr| + p] == if heard then m.data[p] else 0
  {
    assert Carries(m, ps[i]);
    var q := p - Offset(ps, i);
    assert ps[i].payload[q] == m.data[p];
    assert Region(buf, m, ps[i])[q] == buf[|m.hdr| + p];
  }

  lemma HeardIff(m: Message, ps: seq<Packet>, idx: seq<nat>, i: nat, p: nat)
    requires Fragmentation(m, ps) && Numbered(ps, idx) && i < |ps| && Offset(ps, i) <= p < End(ps, i)
    ensures HeardByte(ps, idx, p) <==> i in idx
  {
    if i in idx {
      var k :| 0 <= k < |idx| && idx[k] == i;
      assert Offset(ps, idx[k]) <= p < End(ps, idx[k]);
    }
    if HeardByte(ps, idx, p) {
      var k :| 0 <= k < |idx| && Offset(ps, idx[k]) <= p < End(ps, idx[k]);
      if idx[k] < i { InOrder(m, ps, idx[k], i); }
      if i < idx[k] { InOrder(m, ps, i, idx[k]); }
    }
  }

  lemma ByteHeld(buf: seq<byte>, m: Message, ps: seq<Packet>, idx: seq<nat>, p: nat)
    requires Fragmentation(m, ps) && Numbered(ps, idx) && Holds(buf, m, ps, idx) && p < |m.data|
    ensures buf[|m.hdr| + p] == if HeardByte(ps, idx, p) then m.data[p] else 0
  {
    var i := Locate(m, ps, p, |ps|);
    PartByte(buf, m, ps, i, i in idx, p);
    HeardIff(m, ps, idx, i, p);
  }

  lemma BytesHeld(buf: seq<byte>, m: Message, ps: seq<Packet>, idx: seq<nat>)
    requires Fragmentation(m, ps) && Numbered(ps, idx) && Holds(buf, m, ps, idx)
    ensures buf[|m.hdr|..] == Masked(m, ps, idx)
  {
    var d := buf[|m.hdr|..];
    forall p | 0 <= p < |m.data| ensures d[p] == Masked(m, ps, idx)[p] {
      ByteHeld(buf, m, ps, idx, p);
    }
  }

  /** Behind the monitoring header the buffer holds the message, with zeros where nothing arrived. */
  lemma Contents(s: Slot, m: Message, ps: seq<Packet>, idx: seq<nat>)
    requires Fragmentation(m, ps) && Tracks(s, m, ps, idx)
    ensures Data(s) == Masked(m, ps, idx)
  {
    BytesHeld(s.buf, m, ps, idx);
  }

  /** If all packets arrived, that is the message. */
  lemma Whole(m: Message, ps: seq<Packet>, idx: seq<nat>)
    requires Fragmentation(m, ps) && Numbered(ps, idx) && All(Heard(|ps|, idx))
    ensures Masked(m, ps, idx) == m.data
  {
    forall p | 0 <= p < |m.data| ensures HeardByte(ps, idx, p) {
      var i := Locate(m, ps, p, |ps|);
      assert Heard(|ps|, idx)[i];
      var k :| 0 <= k < |idx| && idx[k] == i;
      assert Offset(ps, idx[k]) <= p < End(ps, idx[k]);
    }
  }

  /** The first n packets that arrived have as many bytes as the message. */
  predicate EnoughBytes(m: Message, ps: seq<Packet>, idx: seq<nat>, n: nat)
    requires Numbered(ps, idx)
  {
    n <= |idx| && SumLens(ps, idx[..n]) == |m.data|
  }

  /** Over all arrivals, repeated ones included, a message is complete exactly if some first part of
      them has as many bytes as the message. */
  lemma CompleteExact(m: Message, ps: seq<Packet>, idx: seq<nat>)
    requires Fragmentation(m, ps) && m.data != [] && Numbered(ps, idx)
    ensures Reached(m, ps, idx).complete <==> exists n :: EnoughBytes(m, ps, idx, n)
  {
    ReachedTracks(m, ps, idx);
    if Reached(m, ps, idx).complete {
      var u := Until(ps, idx, |m.data|);
      assert u == idx[..|u|] && EnoughBytes(m, ps, idx, |u|);
    }
    if n :| EnoughBytes(m, ps, idx, n) {
      UntilIs(m, ps, idx, n);
    }
  }

  /** What it then holds is the message, except for zeros where nothing had arrived; and all packets
      had arrived exactly if none had arrived twice. */
  lemma CompleteHolds(m: Message, ps: seq<Packet>, idx: seq<nat>, n: nat)
    requires Fragmentation(m, ps) && m.data != [] && Numbered(ps, idx) && EnoughBytes(m, ps, idx, n)
    ensures Data(Reached(m, ps, idx)) == Masked(m, ps, idx[..n])
    ensures All(Heard(|ps|, idx[..n])) <==> NoRepeat(idx[..n])
    ensures NoRepeat(idx[..n]) ==> Data(Reached(m, ps, idx)) == m.data
  {
    ReachedTracks(m, ps, idx);
    UntilIs(m, ps, idx, n);
    Contents(Reached(m, ps, idx), m, ps, idx[..n]);
    AllHeardExact(m, ps, idx[..n]);
    if NoRepeat(idx[..n]) { Whole(m, ps, idx[..n]); }
  }
}
