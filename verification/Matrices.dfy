/** The matrix routines of the erasure code, on arrays of row buffers. */
module Matrices {
  import opened Fields
  import opened GF256
  import opened Vectors
  import opened Elimination
  import opened Polynomials
  import opened Tables

  // ----- blocks: equally long buffers, no two of them the same

  ghost function Buffers(m: array<array<gf>>): set<array<gf>>
    reads m
  {
    set b | b in m[..]
  }

  ghost predicate Block(m: array<array<gf>>, rows: nat, cols: nat)
    reads m
  {
    && m.Length == rows
    && (forall i :: 0 <= i < rows ==> m[i].Length == cols)
    && (forall i, j :: 0 <= i < j < rows ==> m[i] != m[j])
  }

  ghost function Rows(m: array<array<gf>>): (r: seq<seq<gf>>)
    reads m, m[..]
    ensures |r| == m.Length && forall i :: 0 <= i < m.Length ==> r[i] == m[i][..]
  {
    seq(m.Length, i requires 0 <= i < m.Length reads m, m[..] => m[i][..])
  }

  /** The tables are filled and are not among the buffers. */
  ghost predicate Apart(t: GfTables, m: array<array<gf>>)
    reads m
  {
    t.exp !in m[..] && t.inverse !in m[..]
  }

  // ----- addmul

  lemma AxpyZero(f: Field<gf>, u: seq<gf>, v: seq<gf>)
    requires Lawful(f) && |u| == |v|
    ensures Axpy(f, u, f.zero, v) == u
  {
    forall i | 0 <= i < |u| ensures Axpy(f, u, f.zero, v)[i] == u[i] {
      MulZero(f, v[i]); AddZero(f, u[i]);
    }
  }

  /** dst += c * src, sixteen entries at a time and then the rest. */
  method Addmul1(t: GfTables, dst: array<gf>, src: array<gf>, c: gf, sz: nat)
    requires t.Valid() && dst != src && dst != t.exp && dst != t.inverse
    requires dst.Length == sz && src.Length == sz
    modifies dst
    ensures t.Valid()
    ensures dst[..] == Axpy(t.field, old(dst[..]), c, src[..])
  {
    var i := 0;
    while i + 16 <= sz
      invariant 0 <= i <= sz && t.Valid()
      invariant forall q :: 0 <= q < i ==> dst[q] == Add(t.field, old(dst[q]), Mul(t.field, c, src[q]))
      invariant forall q :: i <= q < sz ==> dst[q] == old(dst[q])
    {
      for j := 0 to 16
        invariant t.Valid()
        invariant forall q :: 0 <= q < i + j ==> dst[q] == Add(t.field, old(dst[q]), Mul(t.field, c, src[q]))
        invariant forall q :: i + j <= q < sz ==> dst[q] == old(dst[q])
      {
        var sum := t.Plus(dst[i + j], t.mul[c, src[i + j]]);
        dst[i + j] := sum;
      }
      i := i + 16;
    }
    while i < sz
      invariant 0 <= i <= sz && t.Valid()
      invariant forall q :: 0 <= q < i ==> dst[q] == Add(t.field, old(dst[q]), Mul(t.field, c, src[q]))
      invariant forall q :: i <= q < sz ==> dst[q] == old(dst[q])
    {
      var sum := t.Plus(dst[i], t.mul[c, src[i]]);
      dst[i] := sum;
      i := i + 1;
    }
  }

  method Addmul(t: GfTables, dst: array<gf>, src: array<gf>, c: gf, sz: nat)
    requires t.Valid() && dst != src && dst != t.exp && dst != t.inverse
    requires dst.Length == sz && src.Length == sz
    modifies dst
    ensures t.Valid()
    ensures dst[..] == Axpy(t.field, old(dst[..]), c, src[..])
  {
    if c != 0 {
      Addmul1(t, dst, src, c, sz);
    } else {
      AxpyZero(t.field, dst[..], src[..]);
    }
  }

  // ----- matrix product

  /** Rows `from` and on of c become those rows of a, times b. */
  method Matmul(t: GfTables, a: array<array<gf>>, b: array<array<gf>>, c: array<array<gf>>, from: nat, n: nat, k: nat, m: nat)
    requires t.Valid() && from <= n && k <= b.Length
    requires Block(a, n, k) && Block(c, n, m) && (forall i :: 0 <= i < k ==> b[i].Length == m)
    requires Apart(t, c) && Buffers(c) !! Buffers(a) && Buffers(c) !! Buffers(b)
    modifies Buffers(c)
    ensures t.Valid()
    ensures forall r :: 0 <= r < from ==> Rows(c)[r] == old(Rows(c)[r])
    ensures forall r :: from <= r < n ==> Rows(c)[r] == Combine(t.field, Rows(a)[r], Rows(b), k, m)
  {
    ghost var rowsA, rowsB, want := Rows(a), Rows(b), Rows(c);
    var row := from;
    while row < n
      invariant from <= row <= n && t.Valid() && |want| == n
      invariant Rows(a) == rowsA && Rows(b) == rowsB && Rows(c) == want
      invariant forall r :: 0 <= r < from ==> want[r] == old(Rows(c))[r]
      invariant forall r :: from <= r < row ==> want[r] == Combine(t.field, rowsA[r], rowsB, k, m)
    {
      MatmulRow(t, a[row], b, c[row], k, m);
      want := want[row := Combine(t.field, rowsA[row], rowsB, k, m)];
      row := row + 1;
    }
  }

  method MatmulRow(t: GfTables, pa: array<gf>, b: array<array<gf>>, pc: array<gf>, k: nat, m: nat)
    requires t.Valid() && pa.Length == k && pc.Length == m && k <= b.Length
    requires forall i :: 0 <= i < k ==> b[i].Length == m
    requires pc !in Buffers(b) && pc != pa && pc != t.exp && pc != t.inverse
    modifies pc
    ensures t.Valid()
    ensures pc[..] == Combine(t.field, pa[..], Rows(b), k, m)
  {
    ghost var rows, u := Rows(b), pa[..];
    ghost var want := Combine(t.field, u, rows, k, m);
    var col := 0;
    while col < m
      invariant 0 <= col <= m && t.Valid()
      invariant Rows(b) == rows && pa[..] == u
      invariant pc[..col] == want[..col]
    {
      var acc := DotColumn(t, pa, b, k, m, col);
      pc[col] := acc;
      col := col + 1;
    }
  }

  method DotColumn(t: GfTables, pa: array<gf>, b: array<array<gf>>, k: nat, m: nat, col: nat) returns (acc: gf)
    requires t.Valid() && pa.Length == k && col < m && k <= b.Length
    requires forall i :: 0 <= i < k ==> b[i].Length == m
    ensures acc == Combine(t.field, pa[..], Rows(b), k, m)[col]
  {
    acc := 0;
    ghost var column := Column(Rows(b), k, m, col);
    for i := 0 to k
      invariant acc == Dot(t.field, pa[..], column, i)
    {
      acc := t.Plus(acc, t.mul[pa[i], b[i][col]]);
    }
    CombineAt(t.field, pa[..], Rows(b), k, m, col);
  }
}
