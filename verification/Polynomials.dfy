/** Polynomials over a field as coefficient sequences, lowest power first, and Vandermonde matrices. */
module Polynomials {
  import opened Fields
  import opened Vectors

  function Pow<F>(f: Field<F>, x: F, n: nat): F {
    if n == 0 then f.one else Mul(f, x, Pow(f, x, n - 1))
  }

  function Powers<F>(f: Field<F>, x: F, n: nat): (r: seq<F>)
    ensures |r| == n
  {
    seq(n, i requires 0 <= i < n => Pow(f, x, i))
  }

  /** The value of the part of c from power i on, divided by x^i (Horner's rule). */
  function EvalFrom<F>(f: Field<F>, c: seq<F>, x: F, i: nat): F
    requires i <= |c|
    decreases |c| - i
  {
    if i == |c| then f.zero else Add(f, c[i], Mul(f, x, EvalFrom(f, c, x, i + 1)))
  }

  function Eval<F>(f: Field<F>, c: seq<F>, x: F): F { EvalFrom(f, c, x, 0) }

  /** The coefficients of the quotient of c by (X - a), one fewer than c has: entry i is the
      value at a of what lies above power i. */
  function Quotient<F>(f: Field<F>, c: seq<F>, a: F): (q: seq<F>)
    requires |c| > 0
    ensures |q| == |c| - 1
  {
    seq(|c| - 1, i requires 0 <= i < |c| - 1 => EvalFrom(f, c, a, i + 1))
  }

  /** c == (X - a) * Quotient(c, a) + c(a), evaluated at x. */
  lemma {:induction false} QuotientFrom<F(!new)>(f: Field<F>, c: seq<F>, a: F, x: F, i: nat)
    requires Lawful(f) && i < |c|
    ensures EvalFrom(f, c, x, i)
         == Add(f, Mul(f, Add(f, x, a), EvalFrom(f, Quotient(f, c, a), x, i)), EvalFrom(f, c, a, i))
    decreases |c| - i
  {
    var q := Quotient(f, c, a);
    var s := Add(f, x, a);
    if i == |c| - 1 {
      MulZero(f, s); MulZero(f, x); MulZero(f, a);
      AddZero(f, c[i]); AddZero(f, EvalFrom(f, c, a, i));
    } else {
      QuotientFrom(f, c, a, x, i + 1);
      var e, r := EvalFrom(f, q, x, i + 1), q[i];
      // c(x) from i is c[i] + x * (s * e + r); q from i is r + x * e; c(a) from i is c[i] + a * r
      var xse, xr, ar := Mul(f, x, Mul(f, s, e)), Mul(f, x, r), Mul(f, a, r);
      calc {
        EvalFrom(f, c, x, i);
        { Distribute(f, x, Mul(f, s, e), r); }
        Add(f, c[i], Add(f, xse, xr));
        { AddCancel(f, xr, ar); AddAssoc(f, xr, ar, ar); AddAssoc(f, xse, Add(f, xr, ar), ar); AddComm(f, xr, ar); }
        Add(f, c[i], Add(f, Add(f, xse, Add(f, xr, ar)), ar));
        { AddAssoc(f, Add(f, xse, Add(f, xr, ar)), ar, c[i]); AddComm(f, ar, c[i]);
          AddComm(f, c[i], Add(f, Add(f, xse, Add(f, xr, ar)), ar)); }
        Add(f, Add(f, xse, Add(f, xr, ar)), Add(f, c[i], ar));
        { MulAssoc(f, x, s, e); MulComm(f, x, s); MulAssoc(f, s, x, e); Distribute(f, r, x, a); }
        Add(f, Add(f, Mul(f, s, Mul(f, x, e)), Mul(f, s, r)), Add(f, c[i], ar));
        { Distribute(f, s, Mul(f, x, e), r); AddComm(f, Mul(f, x, e), r); }
        Add(f, Mul(f, s, Add(f, r, Mul(f, x, e))), Add(f, c[i], ar));
      }
    }
  }

  lemma QuotientAt<F(!new)>(f: Field<F>, c: seq<F>, a: F, x: F)
    requires Lawful(f) && |c| > 0
    ensures Eval(f, c, x) == Add(f, Mul(f, Add(f, x, a), Eval(f, Quotient(f, c, a), x)), Eval(f, c, a))
  {
    QuotientFrom(f, c, a, x, 0);
  }

  ghost predicate Distinct<F>(p: seq<F>) {
    forall i, j :: 0 <= i < j < |p| ==> p[i] != p[j]
  }

  /** A polynomial with n coefficients that vanishes at n distinct points is zero. */
  lemma {:induction false} TooManyRoots<F(!new)>(f: Field<F>, c: seq<F>, p: seq<F>)
    requires Lawful(f) && |c| == |p| && Distinct(p)
    requires forall i :: 0 <= i < |p| ==> Eval(f, c, p[i]) == f.zero
    ensures c == Zeros(f, |c|)
    decreases |c|
  {
    if |c| > 0 {
      var n := |c| - 1;
      var a, q := p[n], Quotient(f, c, p[n]);
      forall i | 0 <= i < n ensures Eval(f, q, p[i]) == f.zero {
        QuotientAt(f, c, a, p[i]);
        AddZero(f, Mul(f, Add(f, p[i], a), Eval(f, q, p[i])));
        NoZeroDivisors(f, Add(f, p[i], a), Eval(f, q, p[i]));
        EqualIffSumZero(f, p[i], a);
      }
      TooManyRoots(f, q, p[..n]);
      forall i | 0 <= i <= n ensures c[i] == f.zero {
        MulZero(f, a);
        assert EvalFrom(f, c, a, i + 1) == f.zero by {
          if i < n { assert q[i] == f.zero; }
        }
        assert EvalFrom(f, c, a, i) == f.zero by {
          if i > 0 { assert q[i - 1] == f.zero; }
        }
        AddZero(f, c[i]);
      }
    }
  }

  /** A row of a Vandermonde matrix evaluates a polynomial at its point. */
  lemma {:induction false} PowersDot<F(!new)>(f: Field<F>, x: F, c: seq<F>, i: nat)
    requires Lawful(f) && i <= |c|
    ensures Eval(f, c, x) == Add(f, Dot(f, Powers(f, x, |c|), c, i), Mul(f, Pow(f, x, i), EvalFrom(f, c, x, i)))
  {
    if i == 0 {
      MulOne(f, Eval(f, c, x)); AddZero(f, Eval(f, c, x));
    } else {
      var j := i - 1;
      PowersDot(f, x, c, j);
      var d, w, e := Dot(f, Powers(f, x, |c|), c, j), Pow(f, x, j), EvalFrom(f, c, x, i);
      calc {
        Eval(f, c, x);
        Add(f, d, Mul(f, w, Add(f, c[j], Mul(f, x, e))));
        { Distribute(f, w, c[j], Mul(f, x, e)); AddAssoc(f, d, Mul(f, w, c[j]), Mul(f, w, Mul(f, x, e))); }
        Add(f, Add(f, d, Mul(f, w, c[j])), Mul(f, w, Mul(f, x, e)));
        { MulAssoc(f, w, x, e); MulComm(f, w, x); }
        Add(f, Add(f, d, Mul(f, w, c[j])), Mul(f, Pow(f, x, i), e));
        { assert Powers(f, x, |c|)[j] == w; }
        Add(f, Dot(f, Powers(f, x, |c|), c, i), Mul(f, Pow(f, x, i), e));
      }
    }
  }

  lemma {:induction false} PowersEval<F(!new)>(f: Field<F>, x: F, c: seq<F>)
    requires Lawful(f)
    ensures Dot(f, Powers(f, x, |c|), c, |c|) == Eval(f, c, x)
  {
    PowersDot(f, x, c, |c|);
    MulZero(f, Pow(f, x, |c|));
    AddZero(f, Dot(f, Powers(f, x, |c|), c, |c|));
  }

  function Vandermonde<F>(f: Field<F>, p: seq<F>, k: nat): (m: seq<seq<F>>)
    ensures Matrix(m, |p|, k)
  {
    seq(|p|, i requires 0 <= i < |p| => Powers(f, p[i], k))
  }

  lemma VandermondeNonsingular<F(!new)>(f: Field<F>, p: seq<F>)
    requires Lawful(f) && Distinct(p)
    ensures Nonsingular(f, Vandermonde(f, p, |p|), |p|)
  {
    var k := |p|;
    var v := Vandermonde(f, p, k);
    forall x: seq<F> | |x| == k && Apply(f, v, x, k) == Zeros(f, k) ensures x == Zeros(f, k) {
      forall i | 0 <= i < k ensures Eval(f, x, p[i]) == f.zero {
        PowersEval(f, p[i], x);
        assert Apply(f, v, x, k)[i] == f.zero;
      }
      TooManyRoots(f, x, p);
    }
  }

  // ----- the product of (X - p[i]), and the columns of the inverse

  /** Coefficients of (X - a) * c, where c is monic of degree |c| with its leading one left out. */
  function TimesRoot<F>(f: Field<F>, c: seq<F>, a: F): (r: seq<F>)
    ensures |r| == |c| + 1
  {
    seq(|c| + 1, i requires 0 <= i <= |c| =>
      Add(f, if i == 0 then f.zero else c[i - 1], Mul(f, a, if i == |c| then f.one else c[i])))
  }

  /** Prod (X - p[i]) for i < n, monic, with the leading one left out. */
  function Product<F>(f: Field<F>, p: seq<F>, n: nat): (r: seq<F>)
    requires n <= |p|
    ensures |r| == n
    decreases n
  {
    if n == 0 then [] else TimesRoot(f, Product(f, p, n - 1), p[n - 1])
  }

  function Monic<F>(f: Field<F>, c: seq<F>): seq<F> { c + [f.one] }

  lemma {:induction false} TimesRootFrom<F(!new)>(f: Field<F>, c: seq<F>, a: F, x: F, i: nat)
    requires Lawful(f) && 0 < i <= |c| + 1
    ensures EvalFrom(f, Monic(f, TimesRoot(f, c, a)), x, i)
         == Add(f, EvalFrom(f, Monic(f, c), x, i - 1), Mul(f, a, EvalFrom(f, Monic(f, c), x, i)))
    decreases |c| + 1 - i
  {
    if i == |c| + 1 {
      TimesRootTop(f, c, a, x);
    } else {
      TimesRootFrom(f, c, a, x, i + 1);
      TimesRootNext(f, c, a, x, i);
    }
  }

  lemma {:induction false} TimesRootTop<F(!new)>(f: Field<F>, c: seq<F>, a: F, x: F)
    requires Lawful(f)
    ensures EvalFrom(f, Monic(f, TimesRoot(f, c, a)), x, |c| + 1)
         == Add(f, EvalFrom(f, Monic(f, c), x, |c|), Mul(f, a, EvalFrom(f, Monic(f, c), x, |c| + 1)))
  {
    var i, m, t := |c| + 1, Monic(f, c), Monic(f, TimesRoot(f, c, a));
    assert EvalFrom(f, t, x, i + 1) == EvalFrom(f, m, x, i) == f.zero;
    assert t[i] == m[i - 1] == f.one;
    MulZero(f, x); MulZero(f, a); AddZero(f, f.one);
  }

  lemma TimesRootNext<F(!new)>(f: Field<F>, c: seq<F>, a: F, x: F, i: nat)
    requires Lawful(f) && 0 < i <= |c|
    requires EvalFrom(f, Monic(f, TimesRoot(f, c, a)), x, i + 1)
          == Add(f, EvalFrom(f, Monic(f, c), x, i), Mul(f, a, EvalFrom(f, Monic(f, c), x, i + 1)))
    ensures EvalFrom(f, Monic(f, TimesRoot(f, c, a)), x, i)
         == Add(f, EvalFrom(f, Monic(f, c), x, i - 1), Mul(f, a, EvalFrom(f, Monic(f, c), x, i)))
  {
    var m, t := Monic(f, c), Monic(f, TimesRoot(f, c, a));
    assert t[i] == Add(f, m[i - 1], Mul(f, a, m[i]));
    HornerStep(f, m[i - 1], m[i], a, x, EvalFrom(f, m, x, i), EvalFrom(f, m, x, i + 1));
  }

  lemma HornerStep<F(!new)>(f: Field<F>, low: F, high: F, a: F, x: F, e: F, g: F)
    requires Lawful(f) && e == Add(f, high, Mul(f, x, g))
    ensures Add(f, Add(f, low, Mul(f, a, high)), Mul(f, x, Add(f, e, Mul(f, a, g))))
         == Add(f, Add(f, low, Mul(f, x, e)), Mul(f, a, e))
  {
    var ah, xe, ag, xg := Mul(f, a, high), Mul(f, x, e), Mul(f, a, g), Mul(f, x, g);
    calc {
      Add(f, Add(f, low, ah), Mul(f, x, Add(f, e, ag)));
      { Distribute(f, x, e, ag); }
      Add(f, Add(f, low, ah), Add(f, xe, Mul(f, x, ag)));
      { AddSwap(f, low, ah, xe, Mul(f, x, ag)); }
      Add(f, Add(f, low, xe), Add(f, ah, Mul(f, x, ag)));
      { MulAssoc(f, x, a, g); MulComm(f, x, a); MulAssoc(f, a, x, g); }
      Add(f, Add(f, low, xe), Add(f, ah, Mul(f, a, xg)));
      { Distribute(f, a, high, xg); }
      Add(f, Add(f, low, xe), Mul(f, a, e));
    }
  }

  lemma TimesRootAt<F(!new)>(f: Field<F>, c: seq<F>, a: F, x: F)
    requires Lawful(f)
    ensures Eval(f, Monic(f, TimesRoot(f, c, a)), x) == Mul(f, Add(f, x, a), Eval(f, Monic(f, c), x))
  {
    var m, t := Monic(f, c), Monic(f, TimesRoot(f, c, a));
    TimesRootFrom(f, c, a, x, 1);
    var e, g := Eval(f, m, x), EvalFrom(f, m, x, 1);
    assert e == Add(f, m[0], Mul(f, x, g));
    assert EvalFrom(f, t, x, 1) == Add(f, e, Mul(f, a, g));
    AddZero(f, Mul(f, a, m[0]));
    assert t[0] == Mul(f, a, m[0]);
    calc {
      Eval(f, t, x);
      { Distribute(f, x, e, Mul(f, a, g)); }
      Add(f, Mul(f, a, m[0]), Add(f, Mul(f, x, e), Mul(f, x, Mul(f, a, g))));
      { MulAssoc(f, x, a, g); MulComm(f, x, a); MulAssoc(f, a, x, g); }
      Add(f, Mul(f, a, m[0]), Add(f, Mul(f, x, e), Mul(f, a, Mul(f, x, g))));
      { AddComm(f, Mul(f, x, e), Mul(f, a, Mul(f, x, g)));
        AddAssoc(f, Mul(f, a, m[0]), Mul(f, a, Mul(f, x, g)), Mul(f, x, e));
        Distribute(f, a, m[0], Mul(f, x, g)); }
      Add(f, Mul(f, a, e), Mul(f, x, e));
      { AddComm(f, Mul(f, a, e), Mul(f, x, e)); Distribute(f, e, x, a); }
      Mul(f, Add(f, x, a), e);
    }
  }

  /** The product vanishes at each of its points. */
  lemma {:induction false} ProductRoot<F(!new)>(f: Field<F>, p: seq<F>, n: nat, i: nat)
    requires Lawful(f) && i < n <= |p|
    ensures Eval(f, Monic(f, Product(f, p, n)), p[i]) == f.zero
    decreases n
  {
    TimesRootAt(f, Product(f, p, n - 1), p[n - 1], p[i]);
    if i == n - 1 {
      AddSelf(f, p[i]);
      MulZero(f, Eval(f, Monic(f, Product(f, p, n - 1)), p[i]));
    } else {
      ProductRoot(f, p, n - 1, i);
      MulZero(f, Add(f, p[i], p[n - 1]));
    }
  }

  /** The product without its factor at p[row]. */
  function Cofactor<F>(f: Field<F>, p: seq<F>, row: nat): (b: seq<F>)
    requires row < |p|
    ensures |b| == |p|
  {
    Quotient(f, Monic(f, Product(f, p, |p|)), p[row])
  }

  /** Column row of the inverse of the Vandermonde matrix: a Lagrange basis polynomial. */
  function Lagrange<F>(f: Field<F>, p: seq<F>, row: nat): (b: seq<F>)
    requires row < |p|
    ensures |b| == |p|
  {
    Scale(f, Inv(f, Eval(f, Cofactor(f, p, row), p[row])), Cofactor(f, p, row))
  }

  lemma CofactorAt<F(!new)>(f: Field<F>, p: seq<F>, row: nat, i: nat)
    requires Lawful(f) && row < |p| && i < |p| && Distinct(p)
    ensures Eval(f, Cofactor(f, p, row), p[i]) == f.zero <==> i != row
  {
    if i != row {
      CofactorRoot(f, p, row, i);
    } else {
      var b := Cofactor(f, p, row);
      forall j | 0 <= j < |p| && j != row ensures Eval(f, b, p[j]) == f.zero {
        CofactorRoot(f, p, row, j);
      }
      if Eval(f, b, p[row]) == f.zero {
        TooManyRoots(f, b, p);
        CofactorLeads(f, p, row);
        assert false;
      }
    }
  }

  lemma CofactorLeads<F(!new)>(f: Field<F>, p: seq<F>, row: nat)
    requires Lawful(f) && row < |p|
    ensures Cofactor(f, p, row)[|p| - 1] == f.one
  {
    MulZero(f, p[row]); AddZero(f, f.one);
    assert EvalFrom(f, Monic(f, Product(f, p, |p|)), p[row], |p| + 1) == f.zero;
  }

  lemma CofactorRoot<F(!new)>(f: Field<F>, p: seq<F>, row: nat, i: nat)
    requires Lawful(f) && row < |p| && i < |p| && i != row && Distinct(p)
    ensures Eval(f, Cofactor(f, p, row), p[i]) == f.zero
  {
    var m, b := Monic(f, Product(f, p, |p|)), Cofactor(f, p, row);
    ProductRoot(f, p, |p|, i);
    ProductRoot(f, p, |p|, row);
    QuotientAt(f, m, p[row], p[i]);
    var s := Add(f, p[i], p[row]);
    AddZero(f, Mul(f, s, Eval(f, b, p[i])));
    NoZeroDivisors(f, s, Eval(f, b, p[i]));
    EqualIffSumZero(f, p[i], p[row]);
  }

  /** Lagrange polynomials are one at their own point and zero at the others. */
  lemma {:induction false} LagrangeAt<F(!new)>(f: Field<F>, p: seq<F>, row: nat, i: nat)
    requires Lawful(f) && row < |p| && i < |p| && Distinct(p)
    ensures Dot(f, Powers(f, p[i], |p|), Lagrange(f, p, row), |p|) == if i == row then f.one else f.zero
  {
    var k, b := |p|, Cofactor(f, p, row);
    var w := Powers(f, p[i], k);
    var inv := Inv(f, Eval(f, b, p[row]));
    calc {
      Dot(f, w, Lagrange(f, p, row), k);
      { DotComm(f, w, Lagrange(f, p, row), k); DotScale(f, inv, b, w, k); DotComm(f, w, b, k); }
      Mul(f, inv, Dot(f, w, b, k));
      { PowersEval(f, p[i], b); }
      Mul(f, inv, Eval(f, b, p[i]));
    }
    CofactorAt(f, p, row, i);
    if i == row { MulInv(f, Eval(f, b, p[row])); } else { MulZero(f, inv); }
  }

  /** The matrix whose columns are the Lagrange polynomials. */
  function LagrangeMatrix<F>(f: Field<F>, p: seq<F>): (w: seq<seq<F>>)
    ensures Matrix(w, |p|, |p|)
  {
    seq(|p|, i requires 0 <= i < |p| => seq(|p|, j requires 0 <= j < |p| => Lagrange(f, p, j)[i]))
  }

  lemma VandermondeTimesLagrange<F(!new)>(f: Field<F>, p: seq<F>, z: seq<F>)
    requires Lawful(f) && Distinct(p) && |z| == |p|
    ensures Apply(f, Vandermonde(f, p, |p|), Apply(f, LagrangeMatrix(f, p), z, |p|), |p|) == z
  {
    var k := |p|;
    var v, w := Vandermonde(f, p, k), LagrangeMatrix(f, p);
    var wz := Apply(f, w, z, k);
    forall i | 0 <= i < k ensures Dot(f, v[i], wz, k) == z[i] {
      var row := Combine(f, v[i], w, k, k);
      forall j | 0 <= j < k ensures row[j] == Unit(f, k, i)[j] {
        CombineAt(f, v[i], w, k, k, j);
        assert Column(w, k, k, j) == Lagrange(f, p, j);
        LagrangeAt(f, p, j, i);
      }
      assert row == Unit(f, k, i);
      DotCombine(f, v[i], w, k, k, z, wz);
      DotUnit(f, i, z, k);
    }
  }

  /** The Lagrange matrix is the two-sided inverse of the Vandermonde matrix. */
  lemma LagrangeInverse<F(!new)>(f: Field<F>, p: seq<F>)
    requires Lawful(f) && Distinct(p)
    ensures Inverse(f, Vandermonde(f, p, |p|), LagrangeMatrix(f, p), |p|)
  {
    var k := |p|;
    var v, w := Vandermonde(f, p, k), LagrangeMatrix(f, p);
    forall x: seq<F>, y: seq<F> | |x| == k && |y| == k
      ensures Apply(f, v, x, k) == y <==> Apply(f, w, y, k) == x
    {
      VandermondeTimesLagrange(f, p, y);
      if Apply(f, v, x, k) == y {
        VandermondeInjective(f, p, x, Apply(f, w, y, k));
      }
    }
  }

  lemma VandermondeInjective<F(!new)>(f: Field<F>, p: seq<F>, x: seq<F>, x': seq<F>)
    requires Lawful(f) && Distinct(p) && |x| == |x'| == |p|
    requires Apply(f, Vandermonde(f, p, |p|), x, |p|) == Apply(f, Vandermonde(f, p, |p|), x', |p|)
    ensures x == x'
  {
    var k := |p|;
    var v := Vandermonde(f, p, k);
    var d := Axpy(f, x, f.one, x');
    forall i | 0 <= i < k ensures Dot(f, v[i], d, k) == f.zero {
      DotComm(f, v[i], d, k); DotAxpy(f, x, f.one, x', v[i], k);
      DotComm(f, v[i], x, k); DotComm(f, v[i], x', k);
      var t := Dot(f, v[i], x, k);
      assert t == Apply(f, v, x, k)[i] == Apply(f, v, x', k)[i] == Dot(f, v[i], x', k);
      MulOne(f, t); AddSelf(f, t);
    }
    VandermondeNonsingular(f, p);
    assert Apply(f, v, d, k) == Zeros(f, k);
    forall i | 0 <= i < k ensures x[i] == x'[i] {
      assert d[i] == f.zero;
      MulOne(f, x'[i]); EqualIffSumZero(f, x[i], x'[i]);
    }
  }
}
