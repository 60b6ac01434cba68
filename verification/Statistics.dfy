/** Sums, means, variances and extremes of lists of reals, and their one-sample updates. */
module Statistics {

  function Sum(xs: seq<real>): real {
    if xs == [] then 0.0 else Sum(xs[..|xs| - 1]) + xs[|xs| - 1]
  }

  function Mean(xs: seq<real>): real
    requires xs != []
  {
    Sum(xs) / (|xs| as real)
  }

  function Product(x: real, y: real): real { x * y }

  function Square(x: real): real { Product(x, x) }

  /** Sum of the squared distances from m. */
  function Spread(xs: seq<real>, m: real): real {
    if xs == [] then 0.0 else Spread(xs[..|xs| - 1], m) + Square(xs[|xs| - 1] - m)
  }

  /** The sample variance. */
  function Variance(xs: seq<real>): real
    requires |xs| >= 2
  {
    Spread(xs, Mean(xs)) / ((|xs| - 1) as real)
  }

  function Min(xs: seq<real>): (m: real)
    requires xs != []
    ensures m in xs && forall x :: x in xs ==> m <= x
  {
    if |xs| == 1 then xs[0]
    else
      var m := Min(xs[..|xs| - 1]);
      assert forall x :: x in xs ==> x in xs[..|xs| - 1] || x == xs[|xs| - 1];
      if xs[|xs| - 1] < m then xs[|xs| - 1] else m
  }

  function Max(xs: seq<real>): (m: real)
    requires xs != []
    ensures m in xs && forall x :: x in xs ==> x <= m
  {
    if |xs| == 1 then xs[0]
    else
      var m := Max(xs[..|xs| - 1]);
      assert forall x :: x in xs ==> x in xs[..|xs| - 1] || x == xs[|xs| - 1];
      if xs[|xs| - 1] > m then xs[|xs| - 1] else m
  }

  lemma Snoc<T>(xs: seq<T>, r: T)
    ensures (xs + [r])[..|xs + [r]| - 1] == xs && (xs + [r])[|xs + [r]| - 1] == r
  {}

  lemma {:induction false} SumFront(xs: seq<real>)
    requires xs != []
    ensures Sum(xs) == xs[0] + Sum(xs[1..])
  {
    if |xs| == 1 {
      assert xs[..0] == [] && xs[1..] == [];
    } else {
      SumFront(xs[..|xs| - 1]);
      assert xs[..|xs| - 1][1..] == xs[1..][..|xs| - 2];
    }
  }

  lemma {:induction false} SpreadFront(xs: seq<real>, m: real)
    requires xs != []
    ensures Spread(xs, m) == Square(xs[0] - m) + Spread(xs[1..], m)
    decreases |xs|
  {
    if |xs| == 1 {
      assert xs[..0] == [] && xs[1..] == [];
    } else {
      SpreadFront(xs[..|xs| - 1], m);
      assert xs[..|xs| - 1][1..] == xs[1..][..|xs| - 2];
    }
  }

  lemma {:induction false} MinIs(xs: seq<real>, m: real)
    requires xs != [] && m in xs && forall x :: x in xs ==> m <= x
    ensures Min(xs) == m
  {}

  lemma {:induction false} MaxIs(xs: seq<real>, m: real)
    requires xs != [] && m in xs && forall x :: x in xs ==> x <= m
    ensures Max(xs) == m
  {}

  lemma {:induction false} MinOfTwo(xs: seq<real>, ys: seq<real>)
    requires xs != [] && ys != []
    ensures Min(xs + ys) == if Min(ys) < Min(xs) then Min(ys) else Min(xs)
  {
    MinIs(xs + ys, if Min(ys) < Min(xs) then Min(ys) else Min(xs));
  }

  lemma {:induction false} MaxOfTwo(xs: seq<real>, ys: seq<real>)
    requires xs != [] && ys != []
    ensures Max(xs + ys) == if Max(ys) > Max(xs) then Max(ys) else Max(xs)
  {
    MaxIs(xs + ys, if Max(ys) > Max(xs) then Max(ys) else Max(xs));
  }

  lemma SquareOfSum(a: real, b: real)
    ensures Square(a + b) == Square(a) + 2.0 * a * b + Square(b)
  {}

  /** How the spread about c relates to the one about m: t is the sum of n samples. */
  predicate Shifted(spreadC: real, spreadM: real, t: real, n: real, m: real, c: real) {
    spreadC == spreadM + 2.0 * (m - c) * (t - n * m) + n * Square(m - c)
  }

  lemma ShiftStep(spreadC: real, spreadM: real, t: real, n: real, x: real, m: real, c: real)
    requires Shifted(spreadC, spreadM, t, n, m, c)
    ensures Shifted(spreadC + Square(x - c), spreadM + Square(x - m), t + x, n + 1.0, m, c)
  {
    var a, b := x - m, m - c;
    SquareOfSum(a, b);
    assert x - c == a + b;
    var u := t - n * m;
    assert (t + x) - (n + 1.0) * m == u + a;
    assert 2.0 * b * (u + a) == 2.0 * b * u + 2.0 * a * b;
    assert (n + 1.0) * Square(b) == n * Square(b) + Square(b);
  }

  /** Moving the centre from m to c: the cross term is the sum of the distances from m. */
  lemma {:induction false} SpreadShift(xs: seq<real>, m: real, c: real)
    ensures Shifted(Spread(xs, c), Spread(xs, m), Sum(xs), |xs| as real, m, c)
  {
    if xs != [] {
      var ys, x, n := xs[..|xs| - 1], xs[|xs| - 1], (|xs| - 1) as real;
      SpreadShift(ys, m, c);
      ShiftStep(Spread(ys, c), Spread(ys, m), Sum(ys), n, x, m, c);
      assert (|xs| as real) == n + 1.0;
    }
  }

  /** The recurrence for the average, with sample r the n-th. */
  function NextAverage(avg: real, n: real, r: real): real
    requires n > 0.0
  {
    ((n - 1.0) * avg + r) / n
  }

  /** The mean, updated by one sample as the buffer does it. */
  lemma MeanStep(xs: seq<real>, r: real, n: real)
    requires n == |xs| as real + 1.0
    ensures Mean(xs + [r]) == NextAverage(if xs == [] then 0.0 else Mean(xs), n, r)
  {
    Snoc(xs, r);
    if xs != [] {
      MeanTimes(xs, n - 1.0);
    } else {
      assert Sum(xs) == 0.0;
    }
  }

  /** What sample r adds to the spread of n samples, c being the new mean. */
  function Gain(n: real, r: real, c: real): real
    requires n > 0.0
  {
    (n + 1.0) / n * Square(r - c)
  }

  lemma {:induction false} SpreadStepBy(xs: seq<real>, r: real, n: real, m: real, c: real)
    requires n > 0.0 && n == |xs| as real
    requires IsMean(m, Sum(xs), n) && IsMean(c, Sum(xs) + r, n + 1.0)
    ensures Spread(xs + [r], c) == Spread(xs, m) + Gain(n, r, c)
  {
    Snoc(xs, r);
    SpreadShift(xs, m, c);
    SpreadStepAt(n, m, c, r, Spread(xs, c), Spread(xs, m), Sum(xs), Spread(xs + [r], c));
  }

  /** The spread about the mean, updated by one sample. */
  lemma {:induction false} SpreadStep(xs: seq<real>, r: real, n: real, m: real, c: real)
    requires xs != [] && n == |xs| as real && m == Mean(xs) && c == Mean(xs + [r])
    ensures Spread(xs + [r], c) == Spread(xs, m) + Gain(n, r, c)
  {
    MeanTimes(xs, n);
    MeanOfMore(xs, r, n + 1.0);
    SpreadStepBy(xs, r, n, m, c);
  }

  lemma {:induction false} MeanOfMore(xs: seq<real>, r: real, n: real)
    requires n == |xs| as real + 1.0
    ensures IsMean(Mean(xs + [r]), Sum(xs) + r, n)
  {
    Snoc(xs, r);
    MeanTimes(xs + [r], n);
  }

  lemma SpreadStepAt(n: real, m: real, c: real, r: real, spreadC: real, spreadM: real, t: real, after: real)
    requires n > 0.0 && IsMean(m, t, n) && IsMean(c, t + r, n + 1.0)
    requires Shifted(spreadC, spreadM, t, n, m, c) && after == spreadC + Square(r - c)
    ensures after == spreadM + Gain(n, r, c)
  {
    CentreStep(n, m, c, r, spreadC, spreadM, t);
  }

  lemma {:induction false} MeanTimes(xs: seq<real>, n: real)
    requires xs != [] && n == |xs| as real
    ensures IsMean(Mean(xs), Sum(xs), n)
  {}

  predicate IsMean(m: real, t: real, n: real) { t == n * m }

  lemma CentreStep(n: real, m: real, c: real, r: real, spreadC: real, spreadM: real, t: real)
    requires n > 0.0 && t == n * m && t + r == (n + 1.0) * c
    requires Shifted(spreadC, spreadM, t, n, m, c)
    ensures spreadC + Square(r - c) == spreadM + Gain(n, r, c)
  {
    var d, b := r - c, m - c;
    assert 2.0 * b * (t - n * m) == 0.0;
    assert n * b == -d;
    SquareScaled(n, b, d);
    assert (n + 1.0) / n * Square(d) == Square(d) / n + Square(d);
  }

  lemma SquareScaled(n: real, b: real, d: real)
    requires n > 0.0 && n * b == -d
    ensures n * Square(b) == Square(d) / n
  {
    assert n * (n * Square(b)) == (n * b) * (n * b) == Square(d);
  }

  lemma SquarePositive(x: real)
    requires x > 0.0
    ensures Square(x) > 0.0
  {
    ProductPositive(x, x);
  }

  lemma ProductPositive(x: real, y: real)
    requires x > 0.0 && y > 0.0
    ensures Product(x, y) > 0.0
  {}

  /** The buffer's recurrence for the variance v, with sample r the n-th and c the new average. */
  function NextVariance(v: real, n: real, r: real, c: real): real
    requires n > 1.0
  {
    SquarePositive(n - 1.0);
    v * (n - 2.0) / (n - 1.0) + n / Square(n - 1.0) * Square(r - c)
  }

  lemma ScaleBack(s: real, b: real)
    requires b > 0.0
    ensures s / b * b == s
  {}

  lemma DivideBack(x: real, a: real)
    requires a > 0.0
    ensures x * a / a == x
  {}

  lemma SplitQuotient(s: real, g: real, a: real)
    requires a > 0.0
    ensures (s + g) / a == s / a + g / a
  {}

  lemma GainOver(a: real, r: real, c: real)
    requires a > 0.0 && Square(a) > 0.0
    ensures Gain(a, r, c) / a == (a + 1.0) / Square(a) * Square(r - c)
  {
    var q, u, w := Square(r - c), (a + 1.0) / a, (a + 1.0) / Square(a);
    assert Gain(a, r, c) == u * q;
    assert u == w * a by { assert w * Square(a) == a + 1.0; }
    assert u * q == (w * q) * a;
    DivideBack(w * q, a);
  }

  /** The variance, updated by one sample as the buffer does it. */
  lemma VarianceStep(xs: seq<real>, r: real)
    requires |xs| >= 2
    ensures Variance(xs + [r]) == NextVariance(Variance(xs), (|xs| + 1) as real, r, Mean(xs + [r]))
  {
    var a, c, s := |xs| as real, Mean(xs + [r]), Spread(xs, Mean(xs));
    SpreadStep(xs, r, a, Mean(xs), c);
    SquarePositive(a);
    SplitQuotient(s, Gain(a, r, c), a);
    GainOver(a, r, c);
    ScaleBack(s, a - 1.0);
    assert ((|xs| - 1) as real) == a - 1.0 && ((|xs| + 1) as real) - 1.0 == a && ((|xs| + 1) as real) - 2.0 == a - 1.0;
  }

  lemma {:induction false} One(x: real)
    ensures Sum([x]) == x && Mean([x]) == x && Spread([x], x) == 0.0
  {
    assert [x][..0] == [];
    assert Sum([]) == 0.0;
    assert Spread([], x) == 0.0;
  }

  /** With two samples the old variance does not matter: it is multiplied by zero. */
  lemma VarianceOfTwo(xs: seq<real>, r: real, v: real)
    requires |xs| == 1
    ensures Variance(xs + [r]) == NextVariance(v, 2.0, r, Mean(xs + [r]))
  {
    assert xs == [xs[0]];
    One(xs[0]);
    SpreadStep(xs, r, 1.0, Mean(xs), Mean(xs + [r]));
    SquarePositive(1.0);
  }
}
