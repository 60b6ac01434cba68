/** The systematic Vandermonde code: why any k packets determine the source. */
module Codes {
  import opened Fields
  import opened Vectors
  import opened Polynomials

  /** Row r of the encoding matrix for the points p: a unit row, or a Vandermonde row times the
      inverse of the top k Vandermonde rows. */
  function EncRow<F>(f: Field<F>, p: seq<F>, k: nat, r: nat): (row: seq<F>)
    requires k <= |p| && r < |p|
    ensures |row| == k
  {
    if r < k then Unit(f, k, r) else Combine(f, Powers(f, p[r], k), LagrangeMatrix(f, p[..k]), k, k)
  }

  function EncMatrix<F>(f: Field<F>, p: seq<F>, k: nat): (m: seq<seq<F>>)
    requires k <= |p|
    ensures Matrix(m, |p|, k)
  {
    seq(|p|, r requires 0 <= r < |p| => EncRow(f, p, k, r))
  }

  /** The rows of the encoding matrix for the given packet indices. */
  function Selected<F>(f: Field<F>, p: seq<F>, k: nat, index: seq<nat>): (m: seq<seq<F>>)
    requires k <= |p| && |index| == k && forall i :: 0 <= i < k ==> index[i] < |p|
    ensures Matrix(m, k, k)
  {
    seq(k, i requires 0 <= i < k => EncRow(f, p, k, index[i]))
  }

  /** Encoding row r of z is evaluating, at point r, the polynomial whose values at the first k
      points are z. */
  lemma {:induction false} EncRowEvaluates<F(!new)>(f: Field<F>, p: seq<F>, k: nat, r: nat, z: seq<F>)
    requires Lawful(f) && k <= |p| && r < |p| && Distinct(p) && |z| == k
    ensures Dot(f, EncRow(f, p, k, r), z, k) == Eval(f, Apply(f, LagrangeMatrix(f, p[..k]), z, k), p[r])
  {
    var top := p[..k];
    var w := LagrangeMatrix(f, top);
    var c := Apply(f, w, z, k);
    PowersEval(f, p[r], c);
    if r < k {
      VandermondeTimesLagrange(f, top, z);
      assert Apply(f, Vandermonde(f, top, k), c, k)[r] == z[r];
      DotUnit(f, r, z, k);
    } else {
      DotCombine(f, Powers(f, p[r], k), w, k, k, z, c);
    }
  }

  /** Any k different rows of the encoding matrix are linearly independent. */
  lemma AnyRowsNonsingular<F(!new)>(f: Field<F>, p: seq<F>, k: nat, index: seq<nat>)
    requires Lawful(f) && k <= |p| && Distinct(p) && |index| == k
    requires forall i :: 0 <= i < k ==> index[i] < |p|
    requires Distinct(index)
    ensures Nonsingular(f, Selected(f, p, k, index), k)
  {
    var d, top := Selected(f, p, k, index), p[..k];
    var points := seq(k, i requires 0 <= i < k => p[index[i]]);
    forall i, j | 0 <= i < j < k ensures points[i] != points[j] {
      if index[i] < index[j] {} else { assert index[j] < index[i]; }
    }
    forall z: seq<F> | |z| == k && Apply(f, d, z, k) == Zeros(f, k) ensures z == Zeros(f, k) {
      var c := Apply(f, LagrangeMatrix(f, top), z, k);
      forall i | 0 <= i < k ensures Eval(f, c, points[i]) == f.zero {
        EncRowEvaluates(f, p, k, index[i], z);
        assert Apply(f, d, z, k)[i] == f.zero;
      }
      TooManyRoots(f, c, points);
      VandermondeTimesLagrange(f, top, z);
      ApplyZeros(f, Vandermonde(f, top, k), k);
    }
  }

  /** An invertible matrix has no row twice. */
  lemma InverseRowsDistinct<F(!new)>(f: Field<F>, d: seq<seq<F>>, s: seq<seq<F>>, k: nat)
    requires Lawful(f) && Matrix(d, k, k) && Matrix(s, k, k) && Inverse(f, d, s, k)
    ensures Distinct(d)
  {
    forall i, j | 0 <= i < j < k ensures d[i] != d[j] {
      var e := Unit(f, k, i);
      var x := Apply(f, s, e, k);
      assert Apply(f, d, x, k) == e;
      assert Dot(f, d[i], x, k) == e[i] == f.one;
      assert Dot(f, d[j], x, k) == e[j] == f.zero;
    }
  }

  // ----- packets

  /** Packet r for the source packets src: the source packet itself, or a combination of all. */
  function Packet<F>(f: Field<F>, p: seq<F>, k: nat, src: seq<seq<F>>, r: nat, size: nat): (b: seq<F>)
    requires k <= |p| && r < |p| && Matrix(src, k, size)
    ensures |b| == size
  {
    if r < k then src[r] else Combine(f, EncRow(f, p, k, r), src, k, size)
  }

  lemma {:induction false} CombineUnit<F(!new)>(f: Field<F>, src: seq<seq<F>>, k: nat, r: nat, size: nat)
    requires Lawful(f) && Matrix(src, k, size) && r < k
    ensures Combine(f, Unit(f, k, r), src, k, size) == src[r]
  {
    forall j | 0 <= j < size ensures Combine(f, Unit(f, k, r), src, k, size)[j] == src[r][j] {
      CombineAt(f, Unit(f, k, r), src, k, size, j);
      DotUnit(f, r, Column(src, k, size, j), k);
    }
  }

  /** Byte j of packet r is encoding row r times the column of bytes j of the source. */
  lemma {:induction false} PacketAt<F(!new)>(f: Field<F>, p: seq<F>, k: nat, src: seq<seq<F>>, r: nat, size: nat, j: nat)
    requires Lawful(f) && k <= |p| && r < |p| && Matrix(src, k, size) && j < size
    ensures Packet(f, p, k, src, r, size)[j] == Dot(f, EncRow(f, p, k, r), Column(src, k, size, j), k)
  {
    if r < k { CombineUnit(f, src, k, r, size); }
    CombineAt(f, EncRow(f, p, k, r), src, k, size, j);
  }

  ghost predicate Encoded<F>(f: Field<F>, p: seq<F>, k: nat, src: seq<seq<F>>, pkt: seq<seq<F>>, index: seq<nat>, size: nat)
    requires k <= |p| && |index| == k && Matrix(pkt, k, size)
  {
    && Matrix(src, k, size)
    && (forall i :: 0 <= i < k ==> index[i] < |p|)
    && (forall i :: 0 <= i < k ==> pkt[i] == Packet(f, p, k, src, index[i], size))
  }

  /** Multiplying the received packets by the inverse of their rows gives back the source. */
  lemma {:induction false} Recovered<F(!new)>(f: Field<F>, p: seq<F>, k: nat, src: seq<seq<F>>, pkt: seq<seq<F>>, index: seq<nat>,
                           size: nat, s: seq<seq<F>>, row: nat)
    requires Lawful(f) && k <= |p| && |index| == k && Matrix(pkt, k, size) && Matrix(s, k, k) && row < k
    requires Encoded(f, p, k, src, pkt, index, size)
    requires Inverse(f, Selected(f, p, k, index), s, k)
    ensures Combine(f, s[row], pkt, k, size) == src[row]
  {
    forall j | 0 <= j < size ensures Combine(f, s[row], pkt, k, size)[j] == src[row][j] {
      var x, y := Column(src, k, size, j), Column(pkt, k, size, j);
      var d := Selected(f, p, k, index);
      forall i | 0 <= i < k ensures Dot(f, d[i], x, k) == y[i] {
        PacketAt(f, p, k, src, index[i], size, j);
      }
      assert Apply(f, d, x, k) == y;
      assert Apply(f, s, y, k)[row] == x[row];
      CombineAt(f, s[row], pkt, k, size, j);
    }
  }
}
