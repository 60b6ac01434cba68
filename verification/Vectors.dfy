/** Vectors and matrices over a field, as sequences. */
module Vectors {
  import opened Fields

  /** Sum of u[i] * v[i] for i < n. */
  function Dot<F>(f: Field<F>, u: seq<F>, v: seq<F>, n: nat): F
    requires n <= |u| && n <= |v|
    decreases n
  {
    if n == 0 then f.zero else Add(f, Dot(f, u, v, n - 1), Mul(f, u[n - 1], v[n - 1]))
  }

  /** u + c * v, which is what addmul leaves in its destination. */
  function Axpy<F>(f: Field<F>, u: seq<F>, c: F, v: seq<F>): (r: seq<F>)
    requires |u| == |v|
    ensures |r| == |u|
  {
    seq(|u|, i requires 0 <= i < |u| => Add(f, u[i], Mul(f, c, v[i])))
  }

  function Scale<F>(f: Field<F>, c: F, v: seq<F>): (r: seq<F>)
    ensures |r| == |v|
  {
    seq(|v|, i requires 0 <= i < |v| => Mul(f, c, v[i]))
  }

  function Zeros<F>(f: Field<F>, n: nat): (r: seq<F>)
    ensures |r| == n && forall i :: 0 <= i < n ==> r[i] == f.zero
  {
    seq(n, i => f.zero)
  }

  function Unit<F>(f: Field<F>, n: nat, p: nat): (r: seq<F>)
    requires p < n
    ensures |r| == n
  {
    Zeros(f, n)[p := f.one]
  }

  lemma {:induction false} DotZero<F(!new)>(f: Field<F>, u: seq<F>, v: seq<F>, n: nat)
    requires Lawful(f) && n <= |u| && n <= |v|
    requires forall i :: 0 <= i < n ==> u[i] == f.zero || v[i] == f.zero
    ensures Dot(f, u, v, n) == f.zero
  {
    if n > 0 {
      DotZero(f, u, v, n - 1);
      NoZeroDivisors(f, u[n - 1], v[n - 1]);
      AddZero(f, f.zero);
    }
  }

  /** A dot product depends only on the first n entries. */
  lemma {:induction false} DotSame<F>(f: Field<F>, u: seq<F>, v: seq<F>, u': seq<F>, v': seq<F>, n: nat)
    requires n <= |u| && n <= |v| && n <= |u'| && n <= |v'|
    requires forall i :: 0 <= i < n ==> u[i] == u'[i] && v[i] == v'[i]
    ensures Dot(f, u, v, n) == Dot(f, u', v', n)
  {
    if n > 0 { DotSame(f, u, v, u', v', n - 1); }
  }

  lemma {:induction false} DotComm<F(!new)>(f: Field<F>, u: seq<F>, v: seq<F>, n: nat)
    requires Lawful(f) && n <= |u| && n <= |v|
    ensures Dot(f, u, v, n) == Dot(f, v, u, n)
  {
    if n > 0 { DotComm(f, u, v, n - 1); MulComm(f, u[n - 1], v[n - 1]); }
  }

  lemma {:induction false} DotScale<F(!new)>(f: Field<F>, c: F, u: seq<F>, v: seq<F>, n: nat)
    requires Lawful(f) && n <= |u| && n <= |v|
    ensures Dot(f, Scale(f, c, u), v, n) == Mul(f, c, Dot(f, u, v, n))
  {
    if n == 0 {
      MulZero(f, c);
    } else {
      DotScale(f, c, u, v, n - 1);
      MulAssoc(f, c, u[n - 1], v[n - 1]);
      Distribute(f, c, Dot(f, u, v, n - 1), Mul(f, u[n - 1], v[n - 1]));
    }
  }

  /** Dot products are linear: (u + c * w) . v == u . v + c * (w . v). */
  lemma {:induction false} DotAxpy<F(!new)>(f: Field<F>, u: seq<F>, c: F, w: seq<F>, v: seq<F>, n: nat)
    requires Lawful(f) && |u| == |w| && n <= |u| && n <= |v|
    ensures Dot(f, Axpy(f, u, c, w), v, n) == Add(f, Dot(f, u, v, n), Mul(f, c, Dot(f, w, v, n)))
  {
    if n == 0 {
      MulZero(f, c); AddZero(f, f.zero);
    } else {
      var k := n - 1;
      var a, b := Dot(f, u, v, k), Dot(f, w, v, k);
      var p, q := Mul(f, u[k], v[k]), Mul(f, w[k], v[k]);
      calc {
        Dot(f, Axpy(f, u, c, w), v, n);
        { DotAxpy(f, u, c, w, v, k); }
        Add(f, Add(f, a, Mul(f, c, b)), Mul(f, Add(f, u[k], Mul(f, c, w[k])), v[k]));
        { Distribute(f, v[k], u[k], Mul(f, c, w[k])); MulAssoc(f, c, w[k], v[k]); }
        Add(f, Add(f, a, Mul(f, c, b)), Add(f, p, Mul(f, c, q)));
        { AddSwap(f, a, Mul(f, c, b), p, Mul(f, c, q)); }
        Add(f, Add(f, a, p), Add(f, Mul(f, c, b), Mul(f, c, q)));
        { Distribute(f, c, b, q); }
        Add(f, Dot(f, u, v, n), Mul(f, c, Dot(f, w, v, n)));
      }
    }
  }

  /** Replacing entry p of v by x changes the dot product by u[p] * (v[p] + x). */
  lemma {:induction false} DotUpdate<F(!new)>(f: Field<F>, u: seq<F>, v: seq<F>, p: nat, x: F, n: nat)
    requires Lawful(f) && p < n <= |u| && n <= |v|
    ensures Dot(f, u, v[p := x], n) == Add(f, Dot(f, u, v, n), Mul(f, u[p], Add(f, v[p], x)))
  {
    var k := n - 1;
    var rest := Dot(f, u, v, k);
    if p == k {
      DotSame(f, u, v, u, v[p := x], k);
      var a, b := Mul(f, u[p], v[p]), Mul(f, u[p], x);
      calc {
        Add(f, rest, b);
        { AddCancel(f, rest, a); }
        Add(f, Add(f, Add(f, rest, a), a), b);
        { AddAssoc(f, Add(f, rest, a), a, b); Distribute(f, u[p], v[p], x); }
        Add(f, Dot(f, u, v, n), Mul(f, u[p], Add(f, v[p], x)));
      }
    } else {
      DotUpdate(f, u, v, p, x, k);
      var a, b := Mul(f, u[p], Add(f, v[p], x)), Mul(f, u[k], v[k]);
      AddAssoc(f, rest, a, b); AddComm(f, a, b); AddAssoc(f, rest, b, a);
    }
  }

  lemma {:induction false} DotUnit<F(!new)>(f: Field<F>, p: nat, v: seq<F>, n: nat)
    requires Lawful(f) && p < n <= |v|
    ensures Dot(f, Unit(f, n, p), v, n) == v[p]
  {
    var z := Zeros(f, n);
    calc {
      Dot(f, Unit(f, n, p), v, n);
      { DotComm(f, Unit(f, n, p), v, n); DotUpdate(f, v, z, p, f.one, n); }
      Add(f, Dot(f, v, z, n), Mul(f, v[p], Add(f, z[p], f.one)));
      { DotZero(f, v, z, n); AddZero(f, f.one); MulOne(f, v[p]); AddZero(f, v[p]); }
      v[p];
    }
  }

  // ----- matrices, as sequences of rows

  ghost predicate Matrix<F>(m: seq<seq<F>>, rows: nat, cols: nat) {
    |m| == rows && forall i :: 0 <= i < rows ==> |m[i]| == cols
  }

  function Column<F>(m: seq<seq<F>>, rows: nat, cols: nat, j: nat): (r: seq<F>)
    requires rows <= |m| && j < cols
    requires forall i :: 0 <= i < rows ==> |m[i]| == cols
    ensures |r| == rows
  {
    seq(rows, i requires 0 <= i < rows => m[i][j])
  }

  /** The product of a matrix with a vector. */
  function Apply<F>(f: Field<F>, m: seq<seq<F>>, x: seq<F>, k: nat): (y: seq<F>)
    requires Matrix(m, k, k) && |x| == k
    ensures |y| == k
  {
    seq(k, i requires 0 <= i < k => Dot(f, m[i], x, k))
  }

  function Identity<F>(f: Field<F>, k: nat): (m: seq<seq<F>>)
    ensures Matrix(m, k, k)
  {
    seq(k, i requires 0 <= i < k => Unit(f, k, i))
  }

  /** Sum of c[i] * rows[i] for i < n: one encoded packet, or one row of a matrix product. */
  function Combine<F>(f: Field<F>, c: seq<F>, rows: seq<seq<F>>, n: nat, width: nat): (r: seq<F>)
    requires n <= |c| && n <= |rows|
    requires forall i :: 0 <= i < n ==> |rows[i]| == width
    ensures |r| == width
    decreases n
  {
    if n == 0 then Zeros(f, width)
    else Axpy(f, Combine(f, c, rows, n - 1, width), c[n - 1], rows[n - 1])
  }

  lemma {:induction false} CombineAt<F>(f: Field<F>, c: seq<F>, rows: seq<seq<F>>, n: nat, width: nat, j: nat)
    requires n <= |c| && n <= |rows| && j < width
    requires forall i :: 0 <= i < n ==> |rows[i]| == width
    ensures Combine(f, c, rows, n, width)[j] == Dot(f, c, Column(rows, n, width, j), n)
  {
    if n > 0 {
      CombineAt(f, c, rows, n - 1, width, j);
      DotSame(f, c, Column(rows, n - 1, width, j), c, Column(rows, n, width, j), n - 1);
    }
  }

  /** A combination depends only on the first n rows. */
  lemma {:induction false} CombineSame<F>(f: Field<F>, c: seq<F>, rows: seq<seq<F>>, rows': seq<seq<F>>, n: nat, width: nat)
    requires n <= |c| && n <= |rows| && n <= |rows'|
    requires forall i :: 0 <= i < n ==> |rows[i]| == width && rows'[i] == rows[i]
    ensures Combine(f, c, rows, n, width) == Combine(f, c, rows', n, width)
  {
    if n > 0 { CombineSame(f, c, rows, rows', n - 1, width); }
  }

  /** Associativity: c . (M x) == (c M) . x. */
  lemma {:induction false} DotCombine<F(!new)>(f: Field<F>, c: seq<F>, m: seq<seq<F>>, n: nat, width: nat, x: seq<F>, mx: seq<F>)
    requires Lawful(f) && n <= |c| && n <= |m| && n <= |mx| && |x| == width
    requires forall i :: 0 <= i < n ==> |m[i]| == width && mx[i] == Dot(f, m[i], x, width)
    ensures Dot(f, Combine(f, c, m, n, width), x, width) == Dot(f, c, mx, n)
  {
    if n == 0 {
      DotZero(f, Zeros(f, width), x, width);
    } else {
      DotCombine(f, c, m, n - 1, width, x, mx);
      DotAxpy(f, Combine(f, c, m, n - 1, width), c[n - 1], m[n - 1], x, width);
    }
  }

  /** s is the inverse of a, on both sides. */
  ghost predicate Inverse<F(!new)>(f: Field<F>, a: seq<seq<F>>, s: seq<seq<F>>, k: nat)
    requires Matrix(a, k, k) && Matrix(s, k, k)
  {
    forall x: seq<F>, y: seq<F> | |x| == k && |y| == k :: Apply(f, a, x, k) == y <==> Apply(f, s, y, k) == x
  }

  /** Only the zero vector is mapped to zero. */
  ghost predicate Nonsingular<F(!new)>(f: Field<F>, a: seq<seq<F>>, k: nat)
    requires Matrix(a, k, k)
  {
    forall x: seq<F> | |x| == k :: Apply(f, a, x, k) == Zeros(f, k) ==> x == Zeros(f, k)
  }

  function MatMul<F>(f: Field<F>, a: seq<seq<F>>, b: seq<seq<F>>, n: nat, k: nat, m: nat): (c: seq<seq<F>>)
    requires Matrix(a, n, k) && Matrix(b, k, m)
    ensures Matrix(c, n, m)
  {
    seq(n, i requires 0 <= i < n => Combine(f, a[i], b, k, m))
  }

  lemma ApplyZeros<F(!new)>(f: Field<F>, a: seq<seq<F>>, k: nat)
    requires Lawful(f) && Matrix(a, k, k)
    ensures Apply(f, a, Zeros(f, k), k) == Zeros(f, k)
  {
    forall i | 0 <= i < k ensures Dot(f, a[i], Zeros(f, k), k) == f.zero {
      DotZero(f, a[i], Zeros(f, k), k);
    }
  }

  lemma InverseIsNonsingular<F(!new)>(f: Field<F>, a: seq<seq<F>>, s: seq<seq<F>>, k: nat)
    requires Lawful(f) && Matrix(a, k, k) && Matrix(s, k, k) && Inverse(f, a, s, k)
    ensures Nonsingular(f, a, k)
  {
    ApplyZeros(f, s, k);
    forall x: seq<F> | |x| == k && Apply(f, a, x, k) == Zeros(f, k) ensures x == Zeros(f, k) {
      assert Apply(f, s, Zeros(f, k), k) == x;
    }
  }

  /** What Inverse means for products: a s == 1 and s a == 1. */
  lemma InverseProducts<F(!new)>(f: Field<F>, a: seq<seq<F>>, s: seq<seq<F>>, k: nat)
    requires Lawful(f) && Matrix(a, k, k) && Matrix(s, k, k) && Inverse(f, a, s, k)
    ensures MatMul(f, a, s, k, k, k) == Identity(f, k)
    ensures MatMul(f, s, a, k, k, k) == Identity(f, k)
  {
    RightProduct(f, a, s, k);
    LeftProduct(f, a, s, k);
  }

  lemma RightProduct<F(!new)>(f: Field<F>, a: seq<seq<F>>, s: seq<seq<F>>, k: nat)
    requires Lawful(f) && Matrix(a, k, k) && Matrix(s, k, k) && Inverse(f, a, s, k)
    ensures MatMul(f, a, s, k, k, k) == Identity(f, k)
  {
    assert forall y: seq<F> | |y| == k :: Apply(f, a, Apply(f, s, y, k), k) == y;
    ProductIsIdentity(f, a, s, k);
  }

  lemma LeftProduct<F(!new)>(f: Field<F>, a: seq<seq<F>>, s: seq<seq<F>>, k: nat)
    requires Lawful(f) && Matrix(a, k, k) && Matrix(s, k, k) && Inverse(f, a, s, k)
    ensures MatMul(f, s, a, k, k, k) == Identity(f, k)
  {
    assert forall x: seq<F> | |x| == k :: Apply(f, s, Apply(f, a, x, k), k) == x;
    ProductIsIdentity(f, s, a, k);
  }

  lemma {:induction false} ProductEntry<F(!new)>(f: Field<F>, a: seq<seq<F>>, s: seq<seq<F>>, k: nat, i: nat, j: nat)
    requires Lawful(f) && Matrix(a, k, k) && Matrix(s, k, k) && i < k && j < k
    requires Apply(f, a, Apply(f, s, Unit(f, k, j), k), k) == Unit(f, k, j)
    ensures Combine(f, a[i], s, k, k)[j] == Unit(f, k, i)[j]
  {
    var e := Unit(f, k, j);
    var se := Apply(f, s, e, k);
    var row := Combine(f, a[i], s, k, k);
    calc {
      row[j];
      { DotUnit(f, j, row, k); DotComm(f, e, row, k); }
      Dot(f, row, e, k);
      { DotCombine(f, a[i], s, k, k, e, se); }
      Dot(f, a[i], se, k);
      Apply(f, a, se, k)[i];
      e[i];
    }
  }

  lemma ProductIsIdentity<F(!new)>(f: Field<F>, a: seq<seq<F>>, s: seq<seq<F>>, k: nat)
    requires Lawful(f) && Matrix(a, k, k) && Matrix(s, k, k)
    requires forall y: seq<F> | |y| == k :: Apply(f, a, Apply(f, s, y, k), k) == y
    ensures MatMul(f, a, s, k, k, k) == Identity(f, k)
  {
    forall i | 0 <= i < k ensures Combine(f, a[i], s, k, k) == Unit(f, k, i) {
      forall j | 0 <= j < k ensures Combine(f, a[i], s, k, k)[j] == Unit(f, k, i)[j] {
        ProductEntry(f, a, s, k, i, j);
      }
    }
  }
}
