/** Sizes of sets of indices. */
module Counting {

  ghost function Below(n: nat): (s: set<nat>)
    ensures forall i: nat :: i in s <==> i < n
    ensures |s| == n
  {
    if n == 0 then {} else Below(n - 1) + {n - 1}
  }

  lemma {:induction false} SubsetSize<T>(s: set<T>, t: set<T>)
    requires s <= t
    ensures |s| <= |t|
    ensures |s| == |t| ==> s == t
    decreases s
  {
    if s != {} {
      var x :| x in s;
      SubsetSize(s - {x}, t - {x});
      assert s == s - {x} + {x} && t == t - {x} + {x};
    }
  }

  /** Fewer than n indices below n leave one out. */
  lemma MissingIndex(s: set<nat>, n: nat) returns (i: nat)
    requires s <= Below(n) && |s| < n
    ensures i < n && i !in s
  {
    assert s != Below(n);
    assert !(Below(n) <= s);
    i :| i in Below(n) && i !in s;
  }

  /** n different indices below n are all of them. */
  lemma {:induction false} AllIndices(s: set<nat>, n: nat)
    requires s <= Below(n) && |s| == n
    ensures s == Below(n)
  {
    SubsetSize(s, Below(n));
  }

  lemma PositiveBelow(n: nat) returns (s: set<nat>)
    requires n > 0
    ensures |s| == n - 1 && forall i: nat :: i in s <==> 0 < i < n
  {
    s := Below(n) - {0};
  }
}
