/** In-place inversion of a Vandermonde matrix whose first point is zero. */
module InvertVdm {
  import opened Fields
  import opened GF256
  import opened Vectors
  import opened Polynomials
  import opened Tables
  import opened Matrices

  /** With a zero among the points, the product has no constant term. */
  lemma {:induction false} NoConstantTerm<F(!new)>(f: Field<F>, p: seq<F>, n: nat)
    requires Lawful(f) && 0 < n <= |p| && p[0] == f.zero
    ensures Product(f, p, n)[0] == f.zero
    decreases n
  {
    if n == 1 {
      MulZero(f, f.one);
    } else {
      NoConstantTerm(f, p, n - 1);
      MulZero(f, p[n - 1]);
    }
    AddZero(f, f.zero);
  }

  /** poly fills the top of c; what lies below is zero. */
  ghost predicate TopAligned(c: seq<gf>, poly: seq<gf>) {
    && |poly| <= |c|
    && (forall q :: 0 <= q < |poly| ==> c[|c| - |poly| + q] == poly[q])
    && (forall q :: 0 <= q < |c| - |poly| ==> c[q] == 0)
  }

  /** The entries of (X - a) * poly, when poly has no constant term. */
  ghost predicate Multiplied(f: Field<gf>, poly: seq<gf>, a: gf, next: seq<gf>) {
    && |next| == |poly| + 1 && 0 < |poly|
    && next[0] == 0
    && (forall q :: 0 < q < |poly| ==> next[q] == Add(f, poly[q - 1], Mul(f, a, poly[q])))
    && next[|poly|] == Add(f, poly[|poly| - 1], a)
  }

  lemma TimesRootMultiplied(f: Field<gf>, poly: seq<gf>, a: gf)
    requires Lawful(f) && f.zero == 0 && 0 < |poly| && poly[0] == 0
    ensures Multiplied(f, poly, a, TimesRoot(f, poly, a))
  {
    MulOne(f, a); MulZero(f, a); AddZero(f, f.zero);
  }

  lemma ProductMultiplied(f: Field<gf>, p: seq<gf>, i: nat)
    requires Lawful(f) && f.zero == 0 && 0 < i < |p| && p[0] == 0
    ensures Multiplied(f, Product(f, p, i), p[i], Product(f, p, i + 1))
  {
    NoConstantTerm(f, p, i);
    TimesRootMultiplied(f, Product(f, p, i), p[i]);
  }

  /** Multiplies by (X - pi), from one entry above the place of the constant term. */
  method MultiplyRoot(t: GfTables, c0: seq<gf>, pi: gf, i: nat, k: nat, ghost poly: seq<gf>, ghost next: seq<gf>)
    returns (c: seq<gf>)
    requires t.Valid() && |c0| == k && |poly| == i && 0 < i < k && TopAligned(c0, poly)
    requires Multiplied(t.field, poly, pi, next)
    ensures |c| == k && TopAligned(c, next)
  {
    ghost var low := k - 1 - i;
    c := c0;
    for j := k - 1 - (i - 1) to k - 1
      invariant |c| == k
      invariant forall q :: 0 <= q < j - low ==> c[low + q] == next[q]
      invariant forall q :: 0 <= q < low ==> c[q] == 0
      invariant forall q :: j <= q < k ==> c[q] == c0[q]
    {
      var sum := t.Plus(c[j], t.mul[pi, c[j + 1]]);
      assert sum == next[j - low] by {
        assert c0[j] == poly[j - low - 1] && c0[j + 1] == poly[j - low];
      }
      c := c[j := sum];
    }
    var sum := t.Plus(c[k - 1], pi);
    assert sum == next[i] by { assert c0[k - 1] == poly[i - 1]; }
    c := c[k - 1 := sum];
  }

  /** The coefficients of Prod (X - p[i]), grown from the top of c downwards. The constant term is
      never written: it is zero because p[0] is. */
  method Coefficients(t: GfTables, p: seq<gf>, k: nat) returns (c: seq<gf>)
    requires t.Valid() && k >= 1 && |p| == k && p[0] == 0
    ensures c == Product(t.field, p, k)
  {
    ghost var f := t.field;
    c := seq(k, _ => 0);
    c := c[k - 1 := p[0]];
    NoConstantTerm(f, p, 1);
    ghost var poly := Product(f, p, 1);
    AlignedFirst(c, poly);
    for i := 1 to k
      invariant |c| == k && poly == Product(f, p, i) && TopAligned(c, poly)
    {
      ProductMultiplied(f, p, i);
      ghost var next := Product(f, p, i + 1);
      c := MultiplyRoot(t, c, p[i], i, k, poly, next);
      poly := next;
    }
    AlignedAll(c, poly);
  }

  lemma AlignedAll(c: seq<gf>, poly: seq<gf>)
    requires TopAligned(c, poly) && |poly| == |c|
    ensures c == poly
  {}

  lemma AlignedFirst(c: seq<gf>, poly: seq<gf>)
    requires |c| > 0 && (forall q :: 0 <= q < |c| ==> c[q] == 0) && poly == [0]
    ensures TopAligned(c, poly)
  {}

  /** The quotient by (X - a), entry by entry from the top. */
  lemma QuotientStep(f: Field<gf>, c: seq<gf>, a: gf, i: nat)
    requires Lawful(f) && i < |c|
    ensures var b := Quotient(f, Monic(f, c), a);
            b[i] == if i == |c| - 1 then f.one else Add(f, c[i + 1], Mul(f, a, b[i + 1]))
  {
    var m := Monic(f, c);
    if i == |c| - 1 {
      assert EvalFrom(f, m, a, i + 2) == f.zero;
      MulZero(f, a); AddZero(f, f.one);
    }
  }

  /** Divides by (X - p[row]), and evaluates the quotient at p[row] on the way. */
  method SyntheticDivision(t: GfTables, c: seq<gf>, p: seq<gf>, row: nat, k: nat) returns (b: seq<gf>, v: gf)
    requires t.Valid() && k >= 1 && |p| == k && row < k && c == Product(t.field, p, k)
    ensures b == Cofactor(t.field, p, row)
    ensures v == Eval(t.field, b, p[row])
  {
    ghost var f := t.field;
    var xx := p[row];
    ghost var want := Cofactor(f, p, row);
    v := 1;
    b := seq(k, _ => 0);
    b := b[k - 1 := 1];
    QuotientStep(f, c, xx, k - 1);
    MulZero(f, xx); AddZero(f, f.one);
    assert EvalFrom(f, want, xx, k) == f.zero;
    var i := k - 2;
    while i >= 0
      invariant -1 <= i <= k - 2 && |b| == k
      invariant forall q :: i < q < k ==> b[q] == want[q]
      invariant v == EvalFrom(f, want, xx, i + 1)
    {
      QuotientStep(f, c, xx, i);
      var sum := t.Plus(c[i + 1], t.mul[xx, b[i + 1]]);
      b := b[i := sum];
      AddComm(f, Mul(f, xx, v), want[i]);
      v := t.Plus(t.mul[xx, v], b[i]);
      i := i - 1;
    }
  }

  /** A single point's matrix is its own inverse. */
  lemma OnePoint<F(!new)>(f: Field<F>, p: seq<F>)
    requires Lawful(f) && |p| == 1
    ensures LagrangeMatrix(f, p)[0] == Powers(f, p[0], 1)
  {
    var b := Cofactor(f, p, 0);
    CofactorLeads(f, p, 0);
    assert EvalFrom(f, b, p[0], 1) == f.zero;
    MulZero(f, p[0]); AddZero(f, f.one);
    MulInv(f, f.one);
  }

  function WithColumn<F>(s: seq<seq<F>>, j: nat, column: seq<F>): (r: seq<seq<F>>)
    requires |column| <= |s| && forall i :: 0 <= i < |s| ==> j < |s[i]|
    ensures |r| == |s|
  {
    seq(|s|, i requires 0 <= i < |s| => if i < |column| then s[i][j := column[i]] else s[i])
  }

  method WriteColumn(t: GfTables, m: array<array<gf>>, row: nat, b: seq<gf>, v: gf, k: nat)
    requires t.Valid() && k <= m.Length && Block(m, m.Length, k) && Apart(t, m)
    requires |b| == k && row < k && v != 0
    modifies Buffers(m)
    ensures t.Valid()
    ensures Rows(m) == WithColumn(old(Rows(m)), row, Scale(t.field, Inv(t.field, v), b))
  {
    ghost var rows, cur := Rows(m), Rows(m);
    ghost var want := WithColumn(rows, row, Scale(t.field, Inv(t.field, v), b));
    for col := 0 to k
      invariant t.Valid() && Rows(m) == cur && |cur| == |rows|
      invariant forall i :: 0 <= i < col ==> cur[i] == want[i]
      invariant forall i :: col <= i < |rows| ==> cur[i] == rows[i]
    {
      m[col][row] := t.mul[t.inverse[v], b[col]];
      cur := cur[col := want[col]];
    }
  }

  /** The first n columns of the top rows are those of w; the other rows are as before. */
  ghost predicate Filled(s: seq<seq<gf>>, rows: seq<seq<gf>>, w: seq<seq<gf>>, n: nat, k: nat)
    requires Matrix(w, k, k) && n <= k
  {
    && |s| == |rows| && k <= |s| && (forall i :: 0 <= i < |s| ==> |s[i]| == k)
    && s[k..] == rows[k..]
    && forall i, j :: 0 <= i < k && 0 <= j < n ==> s[i][j] == w[i][j]
  }

  lemma FilledStep(f: Field<gf>, s: seq<seq<gf>>, rows: seq<seq<gf>>, p: seq<gf>, n: nat, k: nat)
    requires |p| == k && n < k && Filled(s, rows, LagrangeMatrix(f, p), n, k)
    ensures Filled(WithColumn(s, n, Lagrange(f, p, n)), rows, LagrangeMatrix(f, p), n + 1, k)
  {}

  lemma AllFilled(s: seq<seq<gf>>, rows: seq<seq<gf>>, w: seq<seq<gf>>, k: nat)
    requires Matrix(w, k, k) && Filled(s, rows, w, k, k)
    ensures s[..k] == w
  {
    forall i | 0 <= i < k ensures s[i] == w[i] {}
  }

  /** Replaces the top k rows, which are the powers of the points p, by their inverse. */
  method Invert(t: GfTables, m: array<array<gf>>, k: nat, ghost p: seq<gf>)
    requires t.Valid() && 1 <= k <= m.Length && Block(m, m.Length, k) && Apart(t, m)
    requires |p| == k && Distinct(p) && p[0] == 0
    requires forall i :: 0 <= i < k ==> m[i][..] == Powers(t.field, p[i], k)
    modifies Buffers(m)
    ensures t.Valid()
    ensures Rows(m)[..k] == LagrangeMatrix(t.field, p)
    ensures Rows(m)[k..] == old(Rows(m))[k..]
  {
    ghost var f := t.field;
    ghost var w, rows := LagrangeMatrix(f, p), Rows(m);
    if k == 1 {
      OnePoint(f, p);
      return;
    }
    var pts: seq<gf> := [];
    for i := 0 to k
      invariant pts == p[..i]
    {
      assert m[i][..][1] == p[i] by {
        MulOne(f, p[i]);
        assert Pow(f, p[i], 1) == Mul(f, p[i], Pow(f, p[i], 0));
      }
      pts := pts + [m[i][1]];
    }
    assert pts == p;
    var c := Coefficients(t, pts, k);
    for row := 0 to k
      invariant t.Valid() && Filled(Rows(m), rows, w, row, k)
    {
      var b, v := SyntheticDivision(t, c, pts, row, k);
      CofactorAt(f, p, row, row);
      FilledStep(f, Rows(m), rows, p, row, k);
      WriteColumn(t, m, row, b, v, k);
    }
    AllFilled(Rows(m), rows, w, k);
  }
}
