/** Moving received source packets to their own positions. */
module Shuffle {
  import opened Elimination
  import opened GF256

  /** How many of the first n positions do not hold their own index. */
  function Misplaced(index: seq<int>, n: nat): (c: nat)
    requires n <= |index|
    ensures c <= n
  {
    if n == 0 then 0 else Misplaced(index, n - 1) + if index[n - 1] == n - 1 then 0 else 1
  }

  lemma {:induction false} MisplacedUpdate(index: seq<int>, n: nat, q: nat, v: int)
    requires n <= |index| && q < |index|
    ensures q >= n ==> Misplaced(index[q := v], n) == Misplaced(index, n)
    ensures q < n ==>
      Misplaced(index[q := v], n) + (if index[q] == q then 0 else 1) == Misplaced(index, n) + (if v == q then 0 else 1)
  {
    if n > 0 { MisplacedUpdate(index, n - 1, q, v); }
  }

  /** A swap that puts index[i] home leaves fewer positions misplaced. */
  lemma {:induction false} SwapHome(index: seq<int>, i: nat)
    requires i < |index| && 0 <= index[i] < |index| && index[i] != i && index[index[i]] != index[i]
    ensures Misplaced(Swapped(index, i, index[i]), |index|) < Misplaced(index, |index|)
  {
    var c := index[i];
    MisplacedUpdate(index, |index|, i, index[c]);
    MisplacedUpdate(index[i := index[c]], |index|, c, c);
  }

  /** Entries that are equal are at least k. */
  ghost predicate RepeatFree(index: seq<int>, k: nat) {
    forall i, j :: 0 <= i < j < |index| && index[i] == index[j] ==> index[i] >= k
  }

  lemma RepeatFreeSwapped(index: seq<int>, k: nat, i: nat, j: nat)
    requires i < |index| && j < |index|
    ensures RepeatFree(Swapped(index, i, j), k) <==> RepeatFree(index, k)
  {
    if RepeatFree(index, k) { RepeatFreeSwap(index, k, i, j); }
    if RepeatFree(Swapped(index, i, j), k) {
      RepeatFreeSwap(Swapped(index, i, j), k, i, j);
      SwappedTwice(index, i, j);
    }
  }

  lemma RepeatFreeSwap(index: seq<int>, k: nat, i: nat, j: nat)
    requires i < |index| && j < |index| && RepeatFree(index, k)
    ensures RepeatFree(Swapped(index, i, j), k)
  {
    var s := Swapped(index, i, j);
    forall a, b | 0 <= a < b < |s| && s[a] == s[b] ensures s[a] >= k {
      var a' := if a == i then j else if a == j then i else a;
      var b' := if b == i then j else if b == j then i else b;
      assert s[a] == index[a'] && s[b] == index[b'] && a' != b';
      if a' < b' { assert index[a'] == index[b']; } else { assert index[b'] == index[a']; }
    }
  }

  ghost predicate Unrepeated<T>(s: seq<T>) {
    forall i, j :: 0 <= i < j < |s| ==> s[i] != s[j]
  }

  lemma UnrepeatedSwapped<T>(s: seq<T>, i: nat, j: nat)
    requires i < |s| && j < |s|
    ensures Unrepeated(s) ==> Unrepeated(Swapped(s, i, j))
  {}

  /** Every index below k is at its own position. */
  ghost predicate Placed(index: seq<int>, k: nat) {
    forall i :: 0 <= i < |index| && index[i] < k ==> index[i] == i
  }

  ghost function Pairs<T>(index: seq<int>, pkt: seq<T>): (r: seq<(int, T)>)
    requires |index| == |pkt|
    ensures |r| == |index|
  {
    seq(|index|, i requires 0 <= i < |index| => (index[i], pkt[i]))
  }

  lemma MultisetSwapped<T>(s: seq<T>, i: nat, j: nat)
    requires i < |s| && j < |s|
    ensures multiset(Swapped(s, i, j)) == multiset(s)
  {}

  /** The pairs of the first with the second are those of the third with the fourth, reordered. */
  ghost predicate Reordered<T>(index: seq<int>, pkt: seq<T>, index0: seq<int>, pkt0: seq<T>) {
    && |index| == |pkt| && |index0| == |pkt0|
    && multiset(Pairs(index, pkt)) == multiset(Pairs(index0, pkt0))
  }

  lemma ReorderedSwapped<T>(index: seq<int>, pkt: seq<T>, i: nat, j: nat)
    requires |index| == |pkt| && i < |index| && j < |index|
    ensures Reordered(Swapped(index, i, j), Swapped(pkt, i, j), index, pkt)
  {
    assert Pairs(Swapped(index, i, j), Swapped(pkt, i, j)) == Swapped(Pairs(index, pkt), i, j);
    MultisetSwapped(Pairs(index, pkt), i, j);
  }

  lemma PlacedRepeatFree(index: seq<int>, k: nat)
    requires Placed(index, k)
    ensures RepeatFree(index, k)
  {}

  lemma Conflict(index: seq<int>, i: nat, c: nat, k: nat)
    requires i < |index| && c < |index| && i != c && index[i] == index[c] == c < k
    ensures !RepeatFree(index, k)
  {
    if i < c { assert index[i] == index[c]; } else { assert index[c] == index[i]; }
  }

  lemma ReorderedTwice<T>(a: seq<int>, x: seq<T>, b: seq<int>, y: seq<T>, c: seq<int>, z: seq<T>)
    requires Reordered(a, x, b, y) && Reordered(b, y, c, z)
    ensures Reordered(a, x, c, z)
  {}

  method SwapPackets(pkt: array<array<gf>>, index: array<int>, i: nat, c: nat)
    requires pkt.Length == index.Length && i < index.Length && c < index.Length
    modifies pkt, index
    ensures index[..] == Swapped(old(index[..]), i, c) && pkt[..] == Swapped(old(pkt[..]), i, c)
  {
    index[i], index[c] := index[c], index[i];
    pkt[i], pkt[c] := pkt[c], pkt[i];
  }

  /** Puts every packet with an index below k at that position; 1 if two claim the same one. */
  method Place(pkt: array<array<gf>>, index: array<int>, k: nat) returns (error: int)
    requires pkt.Length == k && index.Length == k
    requires forall i :: 0 <= i < k ==> index[i] >= 0
    modifies pkt, index
    ensures error == if RepeatFree(old(index[..]), k) then 0 else 1
    ensures Reordered(index[..], pkt[..], old(index[..]), old(pkt[..]))
    ensures forall v: nat :: RepeatFree(index[..], v) <==> RepeatFree(old(index[..]), v)
    ensures Unrepeated(old(pkt[..])) ==> Unrepeated(pkt[..])
    ensures error == 0 ==> Placed(index[..], k)
    ensures forall i :: 0 <= i < k ==> index[i] >= 0
  {
    ghost var was := index[..];
    var i := 0;
    while i < k
      invariant 0 <= i <= k
      invariant forall q :: 0 <= q < k ==> index[q] >= 0
      invariant forall v: nat :: RepeatFree(index[..], v) <==> RepeatFree(was, v)
      invariant Reordered(index[..], pkt[..], was, old(pkt[..]))
      invariant Unrepeated(old(pkt[..])) ==> Unrepeated(pkt[..])
      invariant forall q :: 0 <= q < i ==> index[q] >= k || index[q] == q
      decreases Misplaced(index[..], k), k - i
    {
      if index[i] >= k || index[i] == i {
        i := i + 1;
      } else {
        var c := index[i];
        if index[c] == c {
          Conflict(index[..], i, c, k);
          return 1;
        }
        ghost var cur, packets := index[..], pkt[..];
        forall v: nat ensures RepeatFree(Swapped(cur, i, c), v) <==> RepeatFree(cur, v) {
          RepeatFreeSwapped(cur, v, i, c);
        }
        ReorderedSwapped(cur, packets, i, c);
        UnrepeatedSwapped(packets, i, c);
        SwapHome(cur, i);
        SwapPackets(pkt, index, i, c);
        ReorderedTwice(index[..], pkt[..], cur, packets, was, old(pkt[..]));
      }
    }
    PlacedRepeatFree(index[..], k);
    return 0;
  }

  /** Where an entry of the reordered lists came from. */
  lemma Origin<T>(index: seq<int>, pkt: seq<T>, index0: seq<int>, pkt0: seq<T>, i: nat) returns (j: nat)
    requires Reordered(index, pkt, index0, pkt0) && i < |index|
    ensures j < |index0| && index0[j] == index[i] && pkt0[j] == pkt[i]
  {
    var pair := Pairs(index, pkt)[i];
    assert pair in multiset(Pairs(index, pkt));
    assert pair in Pairs(index0, pkt0);
    j :| 0 <= j < |index0| && Pairs(index0, pkt0)[j] == pair;
  }
}
