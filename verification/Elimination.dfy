/** One step of in-place Gauss-Jordan inversion, seen as an exchange of variables.

    While a matrix a is inverted in place, the working matrix s relates a vector x and its
    image y = a x in mixed form: a column that has been used as pivot multiplies an entry of y,
    any other column an entry of x; a pivot row yields an entry of x, any other row an entry of y.
    sigma remembers which entry of y a row stands for after rows were swapped. */
module Elimination {
  import opened Fields
  import opened Vectors

  function Inputs<F>(x: seq<F>, y: seq<F>, pivoted: seq<bool>, sigma: seq<nat>, k: nat): (r: seq<F>)
    requires |x| == |y| == |pivoted| == |sigma| == k
    requires forall i :: 0 <= i < k ==> sigma[i] < k
    ensures |r| == k
  {
    seq(k, c requires 0 <= c < k => if pivoted[c] then y[sigma[c]] else x[c])
  }

  function Outputs<F>(x: seq<F>, y: seq<F>, pivoted: seq<bool>, sigma: seq<nat>, k: nat): (r: seq<F>)
    requires |x| == |y| == |pivoted| == |sigma| == k
    requires forall i :: 0 <= i < k ==> sigma[i] < k
    ensures |r| == k
  {
    seq(k, c requires 0 <= c < k => if pivoted[c] then x[c] else y[sigma[c]])
  }

  ghost predicate Holds<F>(f: Field<F>, s: seq<seq<F>>, pivoted: seq<bool>, sigma: seq<nat>, x: seq<F>, y: seq<F>, k: nat)
    requires Matrix(s, k, k) && |x| == |y| == |pivoted| == |sigma| == k
    requires forall i :: 0 <= i < k ==> sigma[i] < k
  {
    Apply(f, s, Inputs(x, y, pivoted, sigma, k), k) == Outputs(x, y, pivoted, sigma, k)
  }

  ghost predicate Represents<F(!new)>(f: Field<F>, a: seq<seq<F>>, s: seq<seq<F>>, pivoted: seq<bool>, sigma: seq<nat>, k: nat) {
    && Matrix(a, k, k) && Matrix(s, k, k) && |pivoted| == |sigma| == k
    && (forall i :: 0 <= i < k ==> sigma[i] < k)
    && forall x: seq<F>, y: seq<F> | |x| == k && |y| == k ::
         Apply(f, a, x, k) == y <==> Holds(f, s, pivoted, sigma, x, y, k)
  }

  function Iota(k: nat): (r: seq<nat>)
    ensures |r| == k && forall i :: 0 <= i < k ==> r[i] == i
  {
    seq(k, i requires 0 <= i < k => i)
  }

  function Swapped<T>(s: seq<T>, i: nat, j: nat): (r: seq<T>)
    requires i < |s| && j < |s|
    ensures |r| == |s|
  {
    s[i := s[j]][j := s[i]]
  }

  /** The pivot row after scaling: its pivot entry becomes the inverse of the pivot. */
  function PivotRow<F>(f: Field<F>, row: seq<F>, p: nat): (r: seq<F>)
    requires p < |row|
    ensures |r| == |row|
  {
    Scale(f, Inv(f, row[p]), row[p := f.one])
  }

  /** Any other row after its pivot entry is cleared and the pivot row added. */
  function Eliminated<F>(f: Field<F>, row: seq<F>, pivotRow: seq<F>, p: nat): (r: seq<F>)
    requires p < |row| == |pivotRow|
    ensures |r| == |row|
  {
    Axpy(f, row[p := f.zero], row[p], pivotRow)
  }

  /** Column p cleared outside row p, using row p. */
  function Cleared<F>(f: Field<F>, s: seq<seq<F>>, p: nat, k: nat): (r: seq<seq<F>>)
    requires Matrix(s, k, k) && p < k
    ensures Matrix(r, k, k)
  {
    seq(k, i requires 0 <= i < k => if i == p then s[p] else Eliminated(f, s[i], s[p], p))
  }

  function Exchange<F>(f: Field<F>, s: seq<seq<F>>, p: nat, k: nat): (r: seq<seq<F>>)
    requires Matrix(s, k, k) && p < k
    ensures Matrix(r, k, k)
  {
    Cleared(f, s[p := PivotRow(f, s[p], p)], p, k)
  }

  lemma Start<F(!new)>(f: Field<F>, a: seq<seq<F>>, k: nat)
    requires Matrix(a, k, k)
    ensures Represents(f, a, a, seq(k, i => false), Iota(k), k)
  {
    var none, id := seq(k, i => false), Iota(k);
    forall x: seq<F>, y: seq<F> | |x| == k && |y| == k
      ensures Apply(f, a, x, k) == y <==> Holds(f, a, none, id, x, y, k)
    {
      assert Inputs(x, y, none, id, k) == x;
      assert Outputs(x, y, none, id, k) == y;
    }
  }

  /** Swapping two rows that are not pivots only renames them. */
  lemma SwapRows<F(!new)>(f: Field<F>, a: seq<seq<F>>, s: seq<seq<F>>, pivoted: seq<bool>, sigma: seq<nat>, k: nat, i: nat, j: nat)
    requires Represents(f, a, s, pivoted, sigma, k)
    requires i < k && j < k && !pivoted[i] && !pivoted[j]
    ensures Represents(f, a, Swapped(s, i, j), pivoted, Swapped(sigma, i, j), k)
  {
    var s', sigma' := Swapped(s, i, j), Swapped(sigma, i, j);
    forall x: seq<F>, y: seq<F> | |x| == k && |y| == k
      ensures Holds(f, s, pivoted, sigma, x, y, k) <==> Holds(f, s', pivoted, sigma', x, y, k)
    {
      SwapRowsAt(f, s, pivoted, sigma, k, i, j, x, y);
    }
  }

  lemma SwapRowsAt<F>(f: Field<F>, s: seq<seq<F>>, pivoted: seq<bool>, sigma: seq<nat>, k: nat, i: nat, j: nat, x: seq<F>, y: seq<F>)
    requires Matrix(s, k, k) && |x| == |y| == |pivoted| == |sigma| == k
    requires forall i :: 0 <= i < k ==> sigma[i] < k
    requires i < k && j < k && !pivoted[i] && !pivoted[j]
    ensures Holds(f, s, pivoted, sigma, x, y, k) <==> Holds(f, Swapped(s, i, j), pivoted, Swapped(sigma, i, j), x, y, k)
  {
    var s', sigma' := Swapped(s, i, j), Swapped(sigma, i, j);
    var u := Inputs(x, y, pivoted, sigma, k);
    assert Inputs(x, y, pivoted, sigma', k) == u;
    var v, v' := Outputs(x, y, pivoted, sigma, k), Outputs(x, y, pivoted, sigma', k);
    assert v' == Swapped(v, i, j);
    assert Apply(f, s', u, k) == Swapped(Apply(f, s, u, k), i, j);
    if Swapped(Apply(f, s, u, k), i, j) == Swapped(v, i, j) {
      SwappedTwice(Apply(f, s, u, k), i, j); SwappedTwice(v, i, j);
    }
  }

  lemma SwappedTwice<T>(s: seq<T>, i: nat, j: nat)
    requires i < |s| && j < |s|
    ensures Swapped(Swapped(s, i, j), i, j) == s
  {}

  /** How far row . u is from out: zero exactly when the row's equation holds. */
  function Defect<F>(f: Field<F>, row: seq<F>, u: seq<F>, out: F, k: nat): F
    requires |row| == |u| == k
  {
    Add(f, Dot(f, row, u, k), out)
  }

  /** The pivot row's new equation fails by the old defect divided by the pivot. */
  lemma PivotRowDefect<F(!new)>(f: Field<F>, row: seq<F>, p: nat, u: seq<F>, out: F, k: nat)
    requires Lawful(f) && |row| == |u| == k && p < k && row[p] != f.zero
    ensures Defect(f, PivotRow(f, row, p), u[p := out], u[p], k) == Mul(f, Inv(f, row[p]), Defect(f, row, u, out, k))
  {
    var c, inv := row[p], Inv(f, row[p]);
    var one := row[p := f.one];
    var d, t := Dot(f, row, u, k), Mul(f, c, u[p]);
    calc {
      Dot(f, one, u[p := out], k);
      { DotUpdate(f, one, u, p, out, k); MulOne(f, Add(f, u[p], out)); }
      Add(f, Dot(f, one, u, k), Add(f, u[p], out));
      { DotComm(f, one, u, k); DotComm(f, row, u, k); DotUpdate(f, u, row, p, f.one, k);
        Distribute(f, u[p], c, f.one); MulOne(f, u[p]); MulComm(f, u[p], c); }
      Add(f, Add(f, d, Add(f, t, u[p])), Add(f, u[p], out));
      { AddAssoc(f, d, t, u[p]); AddAssoc(f, Add(f, Add(f, d, t), u[p]), u[p], out); AddCancel(f, Add(f, d, t), u[p]); }
      Add(f, Add(f, d, t), out);
      { AddAssoc(f, d, t, out); AddComm(f, t, out); AddAssoc(f, d, out, t); }
      Add(f, Add(f, d, out), t);
    }
    calc {
      Dot(f, PivotRow(f, row, p), u[p := out], k);
      { DotScale(f, inv, one, u[p := out], k); }
      Mul(f, inv, Add(f, Add(f, d, out), t));
      { Distribute(f, inv, Add(f, d, out), t); MulAssoc(f, inv, c, u[p]); MulInv(f, c); MulOne(f, u[p]); }
      Add(f, Mul(f, inv, Add(f, d, out)), u[p]);
    }
    AddCancel(f, Mul(f, inv, Add(f, d, out)), u[p]);
  }

  /** Every other row's defect changes by a multiple of the pivot row's new defect. */
  lemma EliminatedDefect<F(!new)>(f: Field<F>, row: seq<F>, pr: seq<F>, p: nat, u: seq<F>, out: F, z: F, k: nat)
    requires Lawful(f) && |row| == |pr| == |u| == k && p < k
    ensures Defect(f, Eliminated(f, row, pr, p), u[p := z], out, k)
         == Add(f, Defect(f, row, u, out, k), Mul(f, row[p], Defect(f, pr, u[p := z], u[p], k)))
  {
    var c, u' := row[p], u[p := z];
    var d, e := Dot(f, row, u, k), Dot(f, pr, u', k);
    calc {
      Dot(f, row[p := f.zero], u', k);
      { DotUpdate(f, row[p := f.zero], u, p, z, k); MulZero(f, Add(f, u[p], z));
        AddZero(f, Dot(f, row[p := f.zero], u, k)); }
      Dot(f, row[p := f.zero], u, k);
      { DotComm(f, row[p := f.zero], u, k); DotComm(f, row, u, k); DotUpdate(f, u, row, p, f.zero, k);
        AddZero(f, c); MulComm(f, u[p], c); }
      Add(f, d, Mul(f, c, u[p]));
    }
    calc {
      Dot(f, Eliminated(f, row, pr, p), u', k);
      { DotAxpy(f, row[p := f.zero], c, pr, u', k); }
      Add(f, Add(f, d, Mul(f, c, u[p])), Mul(f, c, e));
      { AddAssoc(f, d, Mul(f, c, u[p]), Mul(f, c, e)); Distribute(f, c, u[p], e); AddComm(f, u[p], e); }
      Add(f, d, Mul(f, c, Add(f, e, u[p])));
    }
    var m := Mul(f, c, Add(f, e, u[p]));
    AddAssoc(f, d, m, out); AddComm(f, m, out); AddAssoc(f, d, out, m);
  }

  lemma HoldsByRow<F(!new)>(f: Field<F>, s: seq<seq<F>>, u: seq<F>, v: seq<F>, k: nat)
    requires Lawful(f) && Matrix(s, k, k) && |u| == |v| == k
    ensures Apply(f, s, u, k) == v <==> forall i :: 0 <= i < k ==> Defect(f, s[i], u, v[i], k) == f.zero
  {
    forall i | 0 <= i < k ensures Dot(f, s[i], u, k) == v[i] <==> Defect(f, s[i], u, v[i], k) == f.zero {
      EqualIffSumZero(f, Dot(f, s[i], u, k), v[i]);
    }
    assert Apply(f, s, u, k) == v <==> forall i :: 0 <= i < k ==> Apply(f, s, u, k)[i] == v[i];
  }

  /** Exchanging input p with output p keeps the relation between the two vectors. */
  lemma ExchangeAt<F(!new)>(f: Field<F>, s: seq<seq<F>>, p: nat, u: seq<F>, v: seq<F>, k: nat)
    requires Lawful(f) && Matrix(s, k, k) && |u| == |v| == k && p < k && s[p][p] != f.zero
    ensures Apply(f, s, u, k) == v <==> Apply(f, Exchange(f, s, p, k), u[p := v[p]], k) == v[p := u[p]]
  {
    var s', u', v' := Exchange(f, s, p, k), u[p := v[p]], v[p := u[p]];
    HoldsByRow(f, s, u, v, k);
    HoldsByRow(f, s', u', v', k);
    var inv := Inv(f, s[p][p]);
    var d := Defect(f, s[p], u, v[p], k);
    PivotRowDefect(f, s[p], p, u, v[p], k);
    assert inv != f.zero by { MulInv(f, s[p][p]); MulZero(f, s[p][p]); }
    NoZeroDivisors(f, inv, d);
    assert Defect(f, s'[p], u', v'[p], k) == f.zero <==> d == f.zero;
    if d == f.zero {
      forall i | 0 <= i < k && i != p ensures Defect(f, s'[i], u', v'[i], k) == Defect(f, s[i], u, v[i], k) {
        EliminatedDefect(f, s[i], s'[p], p, u, v[i], v[p], k);
        MulZero(f, s[i][p]);
        AddZero(f, Defect(f, s[i], u, v[i], k));
      }
    }
  }

  lemma ExchangeStep<F(!new)>(f: Field<F>, a: seq<seq<F>>, s: seq<seq<F>>, pivoted: seq<bool>, sigma: seq<nat>, k: nat, p: nat)
    requires Lawful(f) && Represents(f, a, s, pivoted, sigma, k)
    requires p < k && !pivoted[p] && s[p][p] != f.zero
    ensures Represents(f, a, Exchange(f, s, p, k), pivoted[p := true], sigma, k)
  {
    var s', pivoted' := Exchange(f, s, p, k), pivoted[p := true];
    forall x: seq<F>, y: seq<F> | |x| == k && |y| == k
      ensures Holds(f, s, pivoted, sigma, x, y, k) <==> Holds(f, s', pivoted', sigma, x, y, k)
    {
      var u, v := Inputs(x, y, pivoted, sigma, k), Outputs(x, y, pivoted, sigma, k);
      assert Inputs(x, y, pivoted', sigma, k) == u[p := v[p]];
      assert Outputs(x, y, pivoted', sigma, k) == v[p := u[p]];
      ExchangeAt(f, s, p, u, v, k);
    }
  }

  /** When no row and column outside the pivots meet in a non-zero entry, a is singular. */
  lemma NoPivotMeansSingular<F(!new)>(f: Field<F>, a: seq<seq<F>>, s: seq<seq<F>>, pivoted: seq<bool>, sigma: seq<nat>, k: nat, c: nat)
    requires Lawful(f) && Represents(f, a, s, pivoted, sigma, k)
    requires c < k && !pivoted[c]
    requires forall i, j :: 0 <= i < k && 0 <= j < k && !pivoted[i] && !pivoted[j] ==> s[i][j] == f.zero
    ensures !Nonsingular(f, a, k)
  {
    var x := NullVector(f, s, pivoted, k, c);
    NullVectorHolds(f, s, pivoted, sigma, k, c);
    assert Apply(f, a, x, k) == Zeros(f, k);
    assert x[c] != Zeros(f, k)[c];
  }

  /** A vector that the relation of s pairs with zero when no pivot is left and c is not pivoted. */
  ghost function NullVector<F>(f: Field<F>, s: seq<seq<F>>, pivoted: seq<bool>, k: nat, c: nat): (x: seq<F>)
    requires Matrix(s, k, k) && |pivoted| == k && c < k
    ensures |x| == k
  {
    seq(k, r requires 0 <= r < k => if pivoted[r] then s[r][c] else if r == c then f.one else f.zero)
  }

  lemma NullVectorHolds<F(!new)>(f: Field<F>, s: seq<seq<F>>, pivoted: seq<bool>, sigma: seq<nat>, k: nat, c: nat)
    requires Lawful(f) && Matrix(s, k, k) && |pivoted| == |sigma| == k
    requires forall i :: 0 <= i < k ==> sigma[i] < k
    requires c < k && !pivoted[c]
    requires forall i, j :: 0 <= i < k && 0 <= j < k && !pivoted[i] && !pivoted[j] ==> s[i][j] == f.zero
    ensures Holds(f, s, pivoted, sigma, NullVector(f, s, pivoted, k, c), Zeros(f, k), k)
  {
    var x, y := NullVector(f, s, pivoted, k, c), Zeros(f, k);
    var u, v := Inputs(x, y, pivoted, sigma, k), Outputs(x, y, pivoted, sigma, k);
    assert u == Unit(f, k, c);
    forall i | 0 <= i < k ensures Dot(f, s[i], u, k) == v[i] {
      DotComm(f, s[i], u, k);
      DotUnit(f, c, s[i], k);
    }
  }

  function SwapColumns<F>(s: seq<seq<F>>, i: nat, j: nat, k: nat): (r: seq<seq<F>>)
    requires Matrix(s, k, k) && i < k && j < k
    ensures Matrix(r, k, k)
  {
    seq(k, q requires 0 <= q < k => Swapped(s[q], i, j))
  }

  lemma {:induction false} DotSwapped<F(!new)>(f: Field<F>, u: seq<F>, v: seq<F>, i: nat, j: nat, k: nat)
    requires Lawful(f) && |u| == |v| == k && i < k && j < k
    ensures Dot(f, Swapped(u, i, j), Swapped(v, i, j), k) == Dot(f, u, v, k)
  {
    if i == j {
      assert Swapped(u, i, j) == u && Swapped(v, i, j) == v;
    } else {
      var u', v' := Swapped(u, i, j), Swapped(v, i, j);
      var w := u[i := f.zero][j := f.zero];
      assert u'[i := f.zero][j := f.zero] == w;
      Without2(f, u, v, i, j, k);
      Without2(f, u', v', i, j, k);
      DotSame2(f, w, v, v', i, j, k);
      AddComm(f, Mul(f, u[i], v[i]), Mul(f, u[j], v[j]));
    }
  }

  /** Entries met by a zero do not matter. */
  lemma {:induction false} DotSame2<F(!new)>(f: Field<F>, w: seq<F>, v: seq<F>, v': seq<F>, i: nat, j: nat, k: nat)
    requires Lawful(f) && |w| == |v| == |v'| == k && i < k && j < k
    requires w[i] == w[j] == f.zero
    requires forall q :: 0 <= q < k && q != i && q != j ==> v[q] == v'[q]
    ensures Dot(f, w, v, k) == Dot(f, w, v', k)
  {
    var m := v[i := v'[i]];
    DotUpdate(f, w, v, i, v'[i], k); MulZero(f, Add(f, v[i], v'[i])); AddZero(f, Dot(f, w, v, k));
    DotUpdate(f, w, m, j, v'[j], k); MulZero(f, Add(f, m[j], v'[j])); AddZero(f, Dot(f, w, m, k));
    assert m[j := v'[j]] == v';
  }

  lemma Without2<F(!new)>(f: Field<F>, u: seq<F>, v: seq<F>, i: nat, j: nat, k: nat)
    requires Lawful(f) && |u| == |v| == k && i < k && j < k && i != j
    ensures Dot(f, u, v, k) == Add(f, Dot(f, u[i := f.zero][j := f.zero], v, k), Add(f, Mul(f, u[i], v[i]), Mul(f, u[j], v[j])))
  {
    Without1(f, u, v, i, k);
    Without1(f, u[i := f.zero], v, j, k);
    var d, a, b := Dot(f, u[i := f.zero][j := f.zero], v, k), Mul(f, u[i], v[i]), Mul(f, u[j], v[j]);
    AddAssoc(f, d, b, a); AddComm(f, a, b);
  }

  lemma Without1<F(!new)>(f: Field<F>, u: seq<F>, v: seq<F>, i: nat, k: nat)
    requires Lawful(f) && |u| == |v| == k && i < k
    ensures Dot(f, u, v, k) == Add(f, Dot(f, u[i := f.zero], v, k), Mul(f, u[i], v[i]))
  {
    var u0 := u[i := f.zero];
    DotComm(f, u, v, k); DotComm(f, u0, v, k);
    DotUpdate(f, v, u, i, f.zero, k); AddZero(f, u[i]); MulComm(f, v[i], u[i]);
    AddCancel(f, Dot(f, v, u, k), Mul(f, u[i], v[i]));
  }

  /** With every column pivoted, swapping two columns only renames entries of y. */
  lemma SwapColumnsStep<F(!new)>(f: Field<F>, a: seq<seq<F>>, s: seq<seq<F>>, pivoted: seq<bool>, sigma: seq<nat>, k: nat, i: nat, j: nat)
    requires Lawful(f) && Represents(f, a, s, pivoted, sigma, k)
    requires forall q :: 0 <= q < k ==> pivoted[q]
    requires i < k && j < k
    ensures Represents(f, a, SwapColumns(s, i, j, k), pivoted, Swapped(sigma, i, j), k)
  {
    var s', sigma' := SwapColumns(s, i, j, k), Swapped(sigma, i, j);
    forall x: seq<F>, y: seq<F> | |x| == k && |y| == k
      ensures Holds(f, s, pivoted, sigma, x, y, k) <==> Holds(f, s', pivoted, sigma', x, y, k)
    {
      var u := Inputs(x, y, pivoted, sigma, k);
      assert Inputs(x, y, pivoted, sigma', k) == Swapped(u, i, j);
      assert Outputs(x, y, pivoted, sigma', k) == Outputs(x, y, pivoted, sigma, k);
      forall q | 0 <= q < k ensures Dot(f, s'[q], Swapped(u, i, j), k) == Dot(f, s[q], u, k) {
        DotSwapped(f, s[q], u, i, j, k);
      }
      assert Apply(f, s', Swapped(u, i, j), k) == Apply(f, s, u, k);
    }
  }

  /** With every column pivoted and no renaming left, the working matrix is the inverse. */
  lemma Finish<F(!new)>(f: Field<F>, a: seq<seq<F>>, s: seq<seq<F>>, pivoted: seq<bool>, k: nat)
    requires Represents(f, a, s, pivoted, Iota(k), k)
    requires forall q :: 0 <= q < k ==> pivoted[q]
    ensures Inverse(f, a, s, k)
  {
    forall x: seq<F>, y: seq<F> | |x| == k && |y| == k
      ensures Apply(f, a, x, k) == y <==> Apply(f, s, y, k) == x
    {
      assert Inputs(x, y, pivoted, Iota(k), k) == y;
      assert Outputs(x, y, pivoted, Iota(k), k) == x;
      assert Apply(f, a, x, k) == y <==> Holds(f, s, pivoted, Iota(k), x, y, k);
    }
  }
}
