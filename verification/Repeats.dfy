/** A message that repeated packets complete too early. */
module Repeats {
  import opened Bytes
  import opened Wire
  import opened Fragments
  import opened Reassembly
  import opened Tracking

  /** Every packet carries one byte. */
  ghost predicate OneByteEach(m: Message, ps: seq<Packet>) {
    && Fragmentation(m, ps) && m.data != []
    && forall i :: 0 <= i < |ps| ==> Offset(ps, i) == i && |ps[i].payload| == 1
  }

  lemma {:induction false} SumOnes(ps: seq<Packet>, idx: seq<nat>)
    requires Numbered(ps, idx) && forall i :: 0 <= i < |ps| ==> |ps[i].payload| == 1
    ensures SumLens(ps, idx) == |idx|
  {
    if idx != [] { SumOnes(ps, idx[..|idx| - 1]); }
  }

  /** The message is not complete and has these gaps and this expected offset. */
  ghost predicate GapsAre(m: Message, ps: seq<Packet>, idx: seq<nat>, gaps: seq<Gap>, expected: int) {
    && OneByteEach(m, ps) && Numbered(ps, idx)
    && var s := Reached(m, ps, idx);
       s.gaps == gaps && s.expectedOffset == expected
  }

  lemma NotComplete(m: Message, ps: seq<Packet>, idx: seq<nat>)
    requires OneByteEach(m, ps) && Numbered(ps, idx) && |idx| < |m.data|
    ensures !Reached(m, ps, idx).complete
  {
    ReachedTracks(m, ps, idx);
    SumOnes(ps, Until(ps, idx, |m.data|));
  }

  lemma NewGapsAre(m: Message, ps: seq<Packet>, idx: seq<nat>, i: nat, idx': seq<nat>, gaps: seq<Gap>, expected: int)
    requires GapsAre(m, ps, idx, gaps, expected) && |idx| < |m.data| && i < |ps| && idx' == idx + [i]
    ensures var s := Reached(m, ps, idx);
            GapsAre(m, ps, idx', NewGaps(s, i, 1), if i >= expected then i + 1 else expected)
  {
    var s := Reached(m, ps, idx);
    NotComplete(m, ps, idx);
    ReachedTracks(m, ps, idx);
    ReachedSnoc(m, ps, idx, i);
    assert Carries(m, ps[i]) && Offset(ps, i) == i;
    TakenParts(s, m, ps[i]);
  }

  /** The first, the last and the middle one of five packets leave one gap, which still has the middle. */
  lemma MiddleStaysInGap(m: Message, ps: seq<Packet>)
    requires OneByteEach(m, ps) && |ps| == |m.data| == 5
    ensures GapsAre(m, ps, [0, 4, 2], [Gap(1, 4)], 5)
  {
    ReachedNone(m, ps, 0);
    NewGapsAre(m, ps, [], 0, [0], [], 0);
    NewGapsAre(m, ps, [0], 4, [0, 4], [], 1);
    NewGapsAre(m, ps, [0, 4], 2, [0, 4, 2], [Gap(1, 4)], 5);
  }

  /** The packets of that gap are resent in order. When the middle one comes again, the message counts
      as complete before its fourth byte arrived: the application gets a zero there. */
  lemma RepeatLeavesHole(m: Message, ps: seq<Packet>)
    requires OneByteEach(m, ps) && |ps| == |m.data| == 5 && m.data[3] != 0
    ensures GapsAre(m, ps, [0, 4, 2], [Gap(1, 4)], 5)
    ensures Numbered(ps, [0, 4, 2, 1, 2]) && Reached(m, ps, [0, 4, 2, 1, 2]).complete
    ensures Data(Reached(m, ps, [0, 4, 2, 1, 2])) == m.data[3 := 0] != m.data
  {
    MiddleStaysInGap(m, ps);
    var idx: seq<nat> := [0, 4, 2, 1, 2];
    SumOnes(ps, idx);
    assert idx[..5] == idx && EnoughBytes(m, ps, idx, 5);
    CompleteExact(m, ps, idx);
    CompleteHolds(m, ps, idx, 5);
    HoleAtThree(m, ps, idx);
  }

  lemma HoleAtThree(m: Message, ps: seq<Packet>, idx: seq<nat>)
    requires OneByteEach(m, ps) && |ps| == |m.data| == 5 && m.data[3] != 0 && idx == [0, 4, 2, 1, 2]
    ensures Masked(m, ps, idx) == m.data[3 := 0] != m.data
  {
    forall p | 0 <= p < 5 ensures HeardByte(ps, idx, p) <==> p != 3 {
      HeardIff(m, ps, idx, p, p);
    }
    assert m.data[3 := 0][3] != m.data[3];
  }
}
