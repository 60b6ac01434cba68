/** The erasure code: building the encoding matrix, encoding, and decoding. */
module Fec {
  import opened Fields
  import opened GF256
  import opened Vectors
  import opened Polynomials
  import opened Tables
  import opened Matrices
  import opened Codes
  import opened Interpolation
  import Gen = Generator
  import InvertMat
  import InvertVdm
  import Shuffle

  /** rows fresh buffers of cols zero bytes. */
  method NewBlock(rows: nat, cols: nat) returns (m: array<array<gf>>)
    ensures fresh(m) && Block(m, rows, cols)
    ensures fresh(Buffers(m)) && forall b :: b in m[..] ==> b in Buffers(m)
    ensures forall i, j :: 0 <= i < rows && 0 <= j < cols ==> m[i][j] == 0
  {
    var bufs: seq<array<gf>> := [];
    for i := 0 to rows
      invariant |bufs| == i && fresh(bufs)
      invariant forall j :: 0 <= j < i ==> bufs[j].Length == cols && forall q :: 0 <= q < cols ==> bufs[j][q] == 0
      invariant forall j, q :: 0 <= j < q < i ==> bufs[j] != bufs[q]
    {
      var b := new gf[cols](_ => 0);
      bufs := bufs + [b];
    }
    m := new array<gf>[rows](i requires 0 <= i < |bufs| => bufs[i]);
    assert m[..] == bufs;
  }

  /** The points: zero, and then the powers of x. */
  ghost function Points(t: GfTables, n: nat): (p: seq<gf>)
    requires n <= 256 && |t.powers| == 510
    ensures |p| == n
  {
    seq(n, r requires 0 <= r < n => if r == 0 then 0 else t.powers[r - 1])
  }

  lemma PointsDistinct(t: GfTables, n: nat)
    requires t.Allocated() && n <= 256
    ensures Distinct(Points(t, n))
  {
    forall i, j | 0 <= i < j < n ensures Points(t, n)[i] != Points(t, n)[j] {
      Gen.PowersDistinct(t.field, t.powers, t.logs, j - 1);
    }
  }

  class FecParms {
    const k: nat
    const n: nat
    const encMatrix: array<array<gf>>

    ghost predicate Valid(t: GfTables)
      reads t, t.exp, t.inverse, t.mul, encMatrix, encMatrix[..]
    {
      && t.Valid() && |t.powers| == 510 && Gen.Describes(t.field, t.powers, t.logs)
      && 1 <= k <= n <= 256 && Block(encMatrix, n, k)
      && Distinct(Points(t, n))
      && Apart(t, encMatrix)
      && Rows(encMatrix) == EncMatrix(t.field, Points(t, n), k)
    }

    constructor (k: nat, n: nat, m: array<array<gf>>)
      ensures this.k == k && this.n == n && encMatrix == m
    {
      this.k, this.n, encMatrix := k, n, m;
    }
  }

  /** Row 0 is the powers of zero; row r + 1 the powers of x^r, read from the table. */
  method FillVandermonde(t: GfTables, m: array<array<gf>>, k: nat, n: nat)
    requires t.Valid() && t.Allocated() && 1 <= k <= n <= 256 && Block(m, n, k) && Apart(t, m)
    modifies Buffers(m)
    ensures t.Valid()
    ensures Rows(m) == Vandermonde(t.field, Points(t, n), k) && IsVandermonde(Rows(m), k)
  {
    VandermondeIs(t.field, t.powers, t.logs, Points(t, n), k);
    ghost var cur, want := Rows(m), Vandermonde(t.field, Points(t, n), k);
    FillFirst(t, m[0], k);
    cur := cur[0 := want[0]];
    for row := 0 to n - 1
      invariant t.Valid() && Rows(m) == cur && |cur| == n
      invariant forall i :: 0 <= i <= row ==> cur[i] == want[i]
    {
      SetRow(t, m, row, n, k);
      cur := cur[row + 1 := want[row + 1]];
    }
  }

  method SetRow(t: GfTables, m: array<array<gf>>, row: nat, n: nat, k: nat)
    requires t.Valid() && t.Allocated() && 1 <= k && row + 1 < n <= 256 && Block(m, n, k) && Apart(t, m)
    modifies m[row + 1]
    ensures t.Valid()
    ensures Rows(m) == old(Rows(m))[row + 1 := Powers(t.field, t.powers[row], k)]
  {
    FillRow(t, m[row + 1], row, k);
  }

  method FillFirst(t: GfTables, p: array<gf>, k: nat)
    requires t.Valid() && t.Allocated() && k >= 1 && p.Length == k && p != t.exp && p != t.inverse
    modifies p
    ensures t.Valid() && p[..] == Powers(t.field, 0, k)
  {
    p[0] := 1;
    for col := 1 to k
      invariant p[0] == 1 && forall c :: 1 <= c < col ==> p[c] == 0
    {
      p[col] := 0;
    }
    forall c: nat | c < k ensures p[c] == Pow(t.field, 0, c) { ZeroPow(t.field, c); }
  }

  method PowerEntry(t: GfTables, row: nat, col: nat) returns (e: gf)
    requires t.Valid() && t.Allocated() && row < 255
    ensures e == Pow(t.field, t.powers[row], col)
  {
    Gen.PowByTable(t.field, t.powers, t.logs, row, col);
    var i := Modnn(row * col);
    e := t.exp[i];
  }

  method FillRow(t: GfTables, p: array<gf>, row: nat, k: nat)
    requires t.Valid() && t.Allocated() && p.Length == k && p != t.exp && p != t.inverse && row < 255
    modifies p
    ensures t.Valid() && p[..] == Powers(t.field, t.powers[row], k)
  {
    ghost var want := Powers(t.field, t.powers[row], k);
    for col := 0 to k
      invariant t.Valid() && p[..col] == want[..col]
    {
      p[col] := PowerEntry(t, row, col);
    }
  }

  /** The identity, written over the top rows. */
  method FillIdentity(t: GfTables, m: array<array<gf>>, k: nat, n: nat)
    requires t.Valid() && k <= n && Block(m, n, k) && Apart(t, m)
    modifies Buffers(m)
    ensures t.Valid()
    ensures forall r :: 0 <= r < k ==> Rows(m)[r] == Unit(t.field, k, r)
    ensures forall r :: k <= r < n ==> Rows(m)[r] == old(Rows(m))[r]
  {
    ghost var cur := Rows(m);
    for r := 0 to k
      invariant t.Valid() && Rows(m) == cur && |cur| == n
      invariant forall i :: 0 <= i < r ==> cur[i] == Unit(t.field, k, i)
      invariant forall i :: r <= i < n ==> cur[i] == old(Rows(m))[i]
    {
      FillUnit(t, m[r], r, k);
      cur := cur[r := Unit(t.field, k, r)];
    }
  }

  method FillUnit(t: GfTables, p: array<gf>, i: nat, k: nat)
    requires t.Valid() && p.Length == k && i < k && p != t.exp && p != t.inverse
    modifies p
    ensures t.Valid() && p[..] == Unit(t.field, k, i)
  {
    for c := 0 to k
      invariant forall q :: 0 <= q < c ==> p[q] == 0
    {
      p[c] := 0;
    }
    p[i] := 1;
  }

  lemma TopPoints(t: GfTables, k: nat, n: nat)
    requires t.Allocated() && 1 <= k <= n <= 256
    ensures Distinct(Points(t, n)[..k]) && Points(t, n)[..k][0] == 0
  {
    PointsDistinct(t, n);
  }

  method InvertTop(t: GfTables, tmp: array<array<gf>>, k: nat, n: nat, ghost p: seq<gf>)
    requires t.Valid() && 1 <= k <= n && Block(tmp, n, k) && Apart(t, tmp)
    requires |p| == n && Distinct(p[..k]) && p[..k][0] == 0
    requires Rows(tmp) == Vandermonde(t.field, p, k)
    modifies Buffers(tmp)
    ensures t.Valid()
    ensures Rows(tmp)[..k] == LagrangeMatrix(t.field, p[..k])
    ensures Rows(tmp)[k..] == old(Rows(tmp))[k..]
  {
    forall i | 0 <= i < k ensures tmp[i][..] == Powers(t.field, p[..k][i], k) {
      assert tmp[i][..] == Rows(tmp)[i];
    }
    InvertVdm.Invert(t, tmp, k, p[..k]);
  }

  /** From the inverted top and the Vandermonde rows below: the identity, and the rows below times
      the inverse. */
  method MultiplyBottom(t: GfTables, tmp: array<array<gf>>, enc: array<array<gf>>, k: nat, n: nat, ghost p: seq<gf>)
    requires t.Valid() && 1 <= k <= n && Block(tmp, n, k) && Block(enc, n, k) && Apart(t, enc)
    requires Buffers(tmp) !! Buffers(enc) && |p| == n
    requires Rows(tmp)[..k] == LagrangeMatrix(t.field, p[..k])
    requires Rows(tmp)[k..] == Vandermonde(t.field, p, k)[k..]
    modifies Buffers(enc)
    ensures t.Valid() && Rows(enc) == EncMatrix(t.field, p, k)
  {
    ghost var f, rows := t.field, Rows(tmp);
    Matmul(t, tmp, tmp, enc, k, n, k, k);
    ghost var product := Rows(enc);
    forall r | k <= r < n ensures product[r] == EncRow(f, p, k, r) {
      SystematicRow(f, p, k, r, Vandermonde(f, p, k), rows);
    }
    FillIdentity(t, enc, k, n);
  }

  lemma {:induction false} SystematicRow(f: Field<gf>, p: seq<gf>, k: nat, r: nat, before: seq<seq<gf>>, after: seq<seq<gf>>)
    requires k <= r < |p| && |after| == |before| && before == Vandermonde(f, p, k)
    requires after[..k] == LagrangeMatrix(f, p[..k]) && after[k..] == before[k..]
    ensures forall i :: 0 <= i < k ==> |after[i]| == k
    ensures |after[r]| == k && Combine(f, after[r], after, k, k) == EncRow(f, p, k, r)
  {
    var w := LagrangeMatrix(f, p[..k]);
    forall i | 0 <= i < k ensures after[i] == w[i] { assert after[..k][i] == after[i]; }
    assert after[r] == after[k..][r - k] == before[k..][r - k] == before[r];
    CombineSame(f, after[r], w, after, k, k);
  }

  method NewMatrix(t: GfTables, k: nat, n: nat) returns (enc: array<array<gf>>)
    requires t.Valid() && t.Allocated() && 1 <= k <= n <= 256
    ensures t.Valid() && fresh(enc) && fresh(Buffers(enc)) && Block(enc, n, k) && Apart(t, enc)
    ensures Rows(enc) == EncMatrix(t.field, Points(t, n), k)
  {
    enc := NewBlock(n, k);
    var tmp := NewBlock(n, k);
    FillVandermonde(t, tmp, k, n);
    TopPoints(t, k, n);
    InvertTop(t, tmp, k, n, Points(t, n));
    MultiplyBottom(t, tmp, enc, k, n, Points(t, n));
  }

  /** Creates the code of n packets, any k of which are to be enough; null for sizes out of range.
      The tables are filled by the first call. */
  method FecNew(t: GfTables, k: int, n: int) returns (code: FecParms?)
    requires t.Allocated() && (t.initialized ==> t.Valid()) && k >= 1
    modifies t`initialized, t.exp, t.log, t.inverse, t.mul
    ensures t.Valid() && t.Allocated()
    ensures code == null <==> k > 256 || n > 256 || k > n
    ensures code != null ==> code.k == k && code.n == n && code.Valid(t)
    ensures code != null ==> IsCode(Rows(code.encMatrix), k)
    ensures code != null ==> fresh(code) && fresh(code.encMatrix) && fresh(Buffers(code.encMatrix))
  {
    if !t.initialized {
      t.InitFec();
    }
    if k > GF_SIZE + 1 || n > GF_SIZE + 1 || k > n {
      return null;
    }
    var enc := NewMatrix(t, k, n);
    PointsDistinct(t, n);
    CodeIs(t.field, t.powers, t.logs, Points(t, n), k);
    code := new FecParms(k, n, enc);
  }
}
