/** What the code's packets are: values of the polynomials that pass through the source. */
module Interpolation {
  import opened Bytes
  import opened Fields
  import opened GF256
  import opened Vectors
  import opened Polynomials
  import opened Codes
  import Gen = Generator

  /** A packet of the code for the points p holds, for each byte, the value at its own point of any
      polynomial that has the bytes of the source packets at the first k points. */
  lemma PacketEvaluates<F(!new)>(f: Field<F>, p: seq<F>, k: nat, src: seq<seq<F>>, r: nat, size: nat, j: nat, c: seq<F>)
    requires Lawful(f) && k <= |p| && r < |p| && Distinct(p) && Matrix(src, k, size) && j < size && |c| == k
    requires forall i :: 0 <= i < k ==> Eval(f, c, p[i]) == src[i][j]
    ensures Packet(f, p, k, src, r, size)[j] == Eval(f, c, p[r])
  {
    var top, z := p[..k], Column(src, k, size, j);
    PacketAt(f, p, k, src, r, size, j);
    EncRowEvaluates(f, p, k, r, z);
    LagrangeInverse(f, top);
    forall i | 0 <= i < k ensures Dot(f, Powers(f, top[i], k), c, k) == z[i] { PowersEval(f, top[i], c); }
    assert Apply(f, Vandermonde(f, top, k), c, k) == z;
  }

  /** There is such a polynomial. */
  lemma Interpolant<F(!new)>(f: Field<F>, p: seq<F>, k: nat, src: seq<seq<F>>, size: nat, j: nat) returns (c: seq<F>)
    requires Lawful(f) && k <= |p| && Distinct(p) && Matrix(src, k, size) && j < size
    ensures |c| == k && forall i :: 0 <= i < k ==> Eval(f, c, p[i]) == src[i][j]
  {
    var top, z := p[..k], Column(src, k, size, j);
    c := Apply(f, LagrangeMatrix(f, top), z, k);
    VandermondeTimesLagrange(f, top, z);
    forall i | 0 <= i < k ensures Eval(f, c, p[i]) == src[i][j] {
      PowersEval(f, top[i], c);
      assert Apply(f, Vandermonde(f, top, k), c, k)[i] == z[i];
    }
  }

  /** The polynomial c over GF(2^8) has byte j of source packet 0 at 0, and that of packet i at x^(i - 1). */
  ghost predicate PassesThrough(c: seq<gf>, src: seq<seq<gf>>, k: nat, size: nat, j: nat)
    requires 0 < k && Matrix(src, k, size) && j < size
  {
    && |c| == k
    && Eval(Gen.GF(), c, 0) == src[0][j]
    && (forall i :: 0 < i < k ==> Eval(Gen.GF(), c, Exp(i - 1)) == src[i][j])
  }

  /** Packet r of the code: source packet r, or the values at x^(r - 1) of the polynomials that pass
      through the source packets. */
  ghost predicate IsPacket(b: seq<gf>, src: seq<seq<gf>>, k: nat, size: nat, r: nat)
    requires 0 < k && Matrix(src, k, size)
  {
    && |b| == size
    && if r < k then b == src[r]
       else forall c: seq<gf>, j: nat :: j < size && PassesThrough(c, src, k, size, j) ==> b[j] == Eval(Gen.GF(), c, Exp(r - 1))
  }

  ghost predicate SameOperations<F(!new)>(f: Field<F>, g: Field<F>) {
    f.zero == g.zero && forall a: F, b: F {:trigger At2(a, b)} :: Add(f, a, b) == Add(g, a, b) && Mul(f, a, b) == Mul(g, a, b)
  }

  lemma {:induction false} EvalSame<F(!new)>(f: Field<F>, g: Field<F>, c: seq<F>, x: F, i: nat)
    requires SameOperations(f, g) && i <= |c|
    ensures EvalFrom(f, c, x, i) == EvalFrom(g, c, x, i)
    decreases |c| - i
  {
    if i < |c| {
      EvalSame(f, g, c, x, i + 1);
      var rest := EvalFrom(f, c, x, i + 1);
      assert At2(x, rest) && At2(c[i], Mul(f, x, rest));
    }
  }

  lemma TableSame(f: Field<gf>, powers: seq<gf>, logs: seq<nat>)
    requires Gen.Describes(f, powers, logs)
    ensures SameOperations(f, Gen.GF())
  {
    forall a: gf, b: gf ensures Add(f, a, b) == Add(Gen.GF(), a, b) && Mul(f, a, b) == Mul(Gen.GF(), a, b) {
      assert Gen.Pair(a, b);
    }
  }

  /** The points 0, 1, x, x^2, ... as the table has them. */
  ghost predicate TablePoints(p: seq<gf>, powers: seq<gf>) {
    |p| <= |powers| && forall i :: 0 <= i < |p| ==> p[i] == if i == 0 then 0 else powers[i - 1]
  }

  lemma PassesThroughSame(f: Field<gf>, powers: seq<gf>, logs: seq<nat>, p: seq<gf>, c: seq<gf>, src: seq<seq<gf>>, k: nat,
                          size: nat, j: nat)
    requires Gen.Describes(f, powers, logs) && TablePoints(p, powers) && 0 < k <= |p| && Matrix(src, k, size) && j < size
    ensures PassesThrough(c, src, k, size, j) <==> |c| == k && forall i :: 0 <= i < k ==> Eval(f, c, p[i]) == src[i][j]
  {
    TableSame(f, powers, logs);
    if |c| == k {
      forall i | 0 <= i < k
        ensures Eval(f, c, p[i]) == Eval(Gen.GF(), c, if i == 0 then 0 else Exp(i - 1))
      {
        EvalSame(f, Gen.GF(), c, p[i], 0);
        assert Gen.Entry(i - 1);
      }
      if forall i :: 0 <= i < k ==> Eval(f, c, p[i]) == src[i][j] {
        forall i | 0 < i < k ensures Eval(Gen.GF(), c, Exp(i - 1)) == src[i][j] { assert Eval(f, c, p[i]) == src[i][j]; }
      }
    }
  }

  /** The packets that the coder computes are those. */
  lemma PacketIs(f: Field<gf>, powers: seq<gf>, logs: seq<nat>, p: seq<gf>, src: seq<seq<gf>>, k: nat, size: nat, r: nat, b: seq<gf>)
    requires Gen.Describes(f, powers, logs) && TablePoints(p, powers) && Distinct(p)
    requires 0 < k <= |p| && r < |p| && Matrix(src, k, size)
    ensures IsPacket(b, src, k, size, r) <==> b == Packet(f, p, k, src, r, size)
  {
    TableSame(f, powers, logs);
    if r >= k {
      var packet := Packet(f, p, k, src, r, size);
      assert Gen.Entry(r - 1);
      forall c: seq<gf>, j: nat | j < size && PassesThrough(c, src, k, size, j)
        ensures packet[j] == Eval(Gen.GF(), c, Exp(r - 1))
      {
        PassesThroughSame(f, powers, logs, p, c, src, k, size, j);
        PacketEvaluates(f, p, k, src, r, size, j, c);
        EvalSame(f, Gen.GF(), c, p[r], 0);
      }
      if IsPacket(b, src, k, size, r) {
        forall j: nat | j < size ensures b[j] == packet[j] {
          var c := Interpolant(f, p, k, src, size, j);
          PassesThroughSame(f, powers, logs, p, c, src, k, size, j);
        }
        assert b == packet;
      }
    }
  }

  /** A row of the encoding matrix is the packet of the unit vectors. */
  lemma RowIsPacket<F(!new)>(f: Field<F>, p: seq<F>, k: nat, r: nat)
    requires Lawful(f) && k <= |p| && r < |p|
    ensures Packet(f, p, k, Identity(f, k), r, k) == EncRow(f, p, k, r)
  {
    var row := EncRow(f, p, k, r);
    forall j | 0 <= j < k ensures Packet(f, p, k, Identity(f, k), r, k)[j] == row[j] {
      PacketAt(f, p, k, Identity(f, k), r, k, j);
      assert Column(Identity(f, k), k, k, j) == Unit(f, k, j);
      DotUnit(f, j, row, k);
      DotComm(f, row, Unit(f, k, j), k);
    }
  }

  /** An encoding matrix: each row makes the packet of its number. */
  ghost predicate IsCode(m: seq<seq<gf>>, k: nat) {
    0 < k <= |m| && forall r :: 0 <= r < |m| ==> IsPacket(m[r], Identity(Gen.GF(), k), k, k, r)
  }

  lemma CodeIs(f: Field<gf>, powers: seq<gf>, logs: seq<nat>, p: seq<gf>, k: nat)
    requires Gen.Describes(f, powers, logs) && TablePoints(p, powers) && Distinct(p) && 0 < k <= |p|
    ensures IsCode(EncMatrix(f, p, k), k)
  {
    assert Identity(f, k) == Identity(Gen.GF(), k);
    forall r | 0 <= r < |p| ensures IsPacket(EncRow(f, p, k, r), Identity(f, k), k, k, r) {
      RowIsPacket(f, p, k, r);
      PacketIs(f, powers, logs, p, Identity(f, k), k, k, r, EncRow(f, p, k, r));
    }
  }

  /** The powers of 0, 1, x, x^2, ... */
  ghost predicate IsVandermonde(m: seq<seq<gf>>, k: nat) {
    forall r, c :: 0 <= r < |m| && 0 <= c < k ==>
      |m[r]| == k && m[r][c] == if r > 0 then Exp((r - 1) * c) else if c == 0 then 1 else 0
  }

  lemma {:induction false} ZeroPow(f: Field<gf>, c: nat)
    requires Lawful(f)
    ensures Pow(f, f.zero, c) == if c == 0 then f.one else f.zero
  {
    if c > 0 { MulZero(f, Pow(f, f.zero, c - 1)); }
  }

  lemma VandermondeIs(f: Field<gf>, powers: seq<gf>, logs: seq<nat>, p: seq<gf>, k: nat)
    requires Gen.Describes(f, powers, logs) && TablePoints(p, powers)
    ensures IsVandermonde(Vandermonde(f, p, k), k)
  {
    forall r, c | 0 <= r < |p| && 0 <= c < k
      ensures Vandermonde(f, p, k)[r][c] == if r > 0 then Exp((r - 1) * c) else if c == 0 then 1 else 0
    {
      if r > 0 {
        assert Gen.Entry(r - 1);
        Gen.PowIsExp(f, powers, logs, r - 1, c);
      } else {
        ZeroPow(f, c);
      }
    }
  }
}
