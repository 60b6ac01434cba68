/** In-place matrix inversion by Gauss-Jordan elimination with full pivoting. */
module InvertMat {
  import opened Counting
  import opened Fields
  import opened GF256
  import opened Vectors
  import opened Elimination
  import opened Tables
  import opened Matrices

  method SwapEntries(a: array<gf>, b: array<gf>, k: nat)
    requires a.Length == k && b.Length == k && a != b
    modifies a, b
    ensures a[..] == old(b[..]) && b[..] == old(a[..])
  {
    for ix := 0 to k
      invariant forall q :: 0 <= q < ix ==> a[q] == old(b[q]) && b[q] == old(a[q])
      invariant forall q :: ix <= q < k ==> a[q] == old(a[q]) && b[q] == old(b[q])
    {
      a[ix], b[ix] := b[ix], a[ix];
    }
  }

  method SwapRowEntries(m: array<array<gf>>, irow: nat, icol: nat, k: nat)
    requires Block(m, k, k) && irow < k && icol < k
    modifies m[irow], m[icol]
    ensures Rows(m) == Swapped(old(Rows(m)), irow, icol)
  {
    if irow != icol {
      SwapEntries(m[irow], m[icol], k);
    }
  }

  lemma InvOne(f: Field<gf>)
    requires Lawful(f)
    ensures Inv(f, f.one) == f.one
  {
    MulInv(f, f.one); MulOne(f, Inv(f, f.one));
  }

  lemma PivotRowOfOne(f: Field<gf>, row: seq<gf>, p: nat)
    requires Lawful(f) && p < |row| && row[p] == f.one
    ensures PivotRow(f, row, p) == row
  {
    InvOne(f);
    assert row[p := f.one] == row;
    forall i | 0 <= i < |row| ensures PivotRow(f, row, p)[i] == row[i] { MulOne(f, row[i]); }
  }

  /** Divides the pivot row by its pivot, whose place takes the inverse. */
  method ScalePivotRow(t: GfTables, row: array<gf>, p: nat, k: nat)
    requires t.Valid() && row != t.exp && row != t.inverse
    requires row.Length == k && p < k && row[p] != 0
    modifies row
    ensures t.Valid() && row[..] == PivotRow(t.field, old(row[..]), p)
  {
    ghost var before := row[..];
    var c := row[p];
    if c != 1 {
      c := t.inverse[c];
      row[p] := 1;
      for ix := 0 to k
        invariant t.Valid() && row[..ix] == PivotRow(t.field, before, p)[..ix]
        invariant row[ix..] == before[p := 1][ix..]
      {
        row[ix] := t.mul[c, row[ix]];
      }
    } else {
      PivotRowOfOne(t.field, before, p);
    }
  }

  method EliminateRow(t: GfTables, row: array<gf>, pivotRow: array<gf>, p: nat, k: nat)
    requires t.Valid() && row != t.exp && row != t.inverse && row != pivotRow
    requires row.Length == k && pivotRow.Length == k && p < k
    modifies row
    ensures t.Valid() && row[..] == Eliminated(t.field, old(row[..]), pivotRow[..], p)
  {
    var c := row[p];
    row[p] := 0;
    assert row[..] == old(row[..])[p := 0];
    Addmul(t, row, pivotRow, c, k);
  }

  /** A pivot row that is already a unit row changes no other row. */
  lemma EliminatedByUnit(f: Field<gf>, row: seq<gf>, p: nat)
    requires Lawful(f) && p < |row|
    ensures Eliminated(f, row, Unit(f, |row|, p), p) == row
  {
    var u := Unit(f, |row|, p);
    forall i | 0 <= i < |row| ensures Eliminated(f, row, u, p)[i] == row[i] {
      MulOne(f, row[p]); MulZero(f, row[p]); AddZero(f, row[i]);
    }
  }

  /** Clears the pivot column outside the pivot row, unless the pivot row is a unit row. */
  method EliminateOthers(t: GfTables, m: array<array<gf>>, idRow: seq<gf>, p: nat, k: nat)
    requires t.Valid() && Block(m, k, k) && Apart(t, m) && p < k
    requires idRow == Unit(t.field, k, p)
    modifies Buffers(m)
    ensures t.Valid()
    ensures Rows(m) == Cleared(t.field, old(Rows(m)), p, k)
  {
    ghost var rows, cur := Rows(m), Rows(m);
    ghost var want := Cleared(t.field, rows, p, k);
    if m[p][..] != idRow {
      for ix := 0 to k
        invariant t.Valid() && Rows(m) == cur && |cur| == k
        invariant cur[p] == rows[p]
        invariant forall i :: 0 <= i < ix ==> cur[i] == want[i]
        invariant forall i :: ix <= i < k ==> cur[i] == rows[i]
      {
        if ix != p {
          EliminateRow(t, m[ix], m[p], p, k);
          cur := cur[ix := want[ix]];
        }
      }
    } else {
      forall i | 0 <= i < k ensures want[i] == rows[i] { EliminatedByUnit(t.field, rows[i], p); }
    }
  }

  // ----- the search for a pivot

  /** ipiv holds 1 exactly for the columns already used as pivot, and 0 otherwise. */
  ghost predicate Marks(ipiv: seq<int>, pivoted: seq<bool>, k: nat) {
    && |ipiv| == |pivoted| == k
    && forall i :: 0 <= i < k ==> ipiv[i] == if pivoted[i] then 1 else 0
  }

  /** First tries the diagonal, then every row and column not yet used. */
  method FindPivot(m: array<array<gf>>, ipiv: seq<int>, col: nat, k: nat, ghost pivoted: seq<bool>)
    returns (found: bool, irow: int, icol: int)
    requires Block(m, k, k) && Marks(ipiv, pivoted, k) && col < k
    ensures found ==> 0 <= irow < k && 0 <= icol < k && !pivoted[irow] && !pivoted[icol] && Rows(m)[irow][icol] != 0
    ensures !found ==> forall i, j :: 0 <= i < k && 0 <= j < k && !pivoted[i] && !pivoted[j] ==> Rows(m)[i][j] == 0
  {
    if ipiv[col] != 1 && m[col][col] != 0 {
      return true, col, col;
    }
    for row := 0 to k
      invariant forall i, j :: 0 <= i < row && 0 <= j < k && !pivoted[i] && !pivoted[j] ==> Rows(m)[i][j] == 0
    {
      if ipiv[row] != 1 {
        for ix := 0 to k
          invariant forall j :: 0 <= j < ix && !pivoted[j] ==> m[row][j] == 0
        {
          if ipiv[ix] == 0 {
            if m[row][ix] != 0 {
              return true, row, ix;
            }
          } else if ipiv[ix] > 1 {
            assert false;
          }
        }
      }
    }
    return false, -1, -1;
  }

  // ----- one pivot

  method ScaleRowOf(t: GfTables, m: array<array<gf>>, p: nat, k: nat)
    requires t.Valid() && Block(m, k, k) && Apart(t, m) && p < k && m[p][p] != 0
    modifies m[p]
    ensures t.Valid() && Rows(m) == old(Rows(m))[p := PivotRow(t.field, old(Rows(m)[p]), p)]
  {
    ScalePivotRow(t, m[p], p, k);
  }

  method ExchangeRows(t: GfTables, m: array<array<gf>>, idRow0: seq<gf>, p: nat, k: nat) returns (idRow: seq<gf>)
    requires t.Valid() && Block(m, k, k) && Apart(t, m)
    requires idRow0 == Zeros(t.field, k)
    requires p < k && m[p][p] != 0
    modifies Buffers(m)
    ensures t.Valid() && idRow == Zeros(t.field, k)
    ensures Rows(m) == Exchange(t.field, old(Rows(m)), p, k)
  {
    ScaleRowOf(t, m, p, k);
    idRow := idRow0[p := 1];
    EliminateOthers(t, m, idRow, p, k);
    idRow := idRow[p := 0];
  }

  method PivotStep(t: GfTables, m: array<array<gf>>, idRow0: seq<gf>, irow: nat, icol: nat, k: nat,
                   ghost a: seq<seq<gf>>, ghost pivoted: seq<bool>, ghost sigma: seq<nat>) returns (idRow: seq<gf>)
    requires t.Valid() && Block(m, k, k) && Apart(t, m)
    requires idRow0 == Zeros(t.field, k)
    requires irow < k && icol < k && Represents(t.field, a, Rows(m), pivoted, sigma, k)
    requires !pivoted[irow] && !pivoted[icol] && Rows(m)[irow][icol] != 0
    modifies Buffers(m)
    ensures t.Valid() && idRow == Zeros(t.field, k)
    ensures Represents(t.field, a, Rows(m), pivoted[icol := true], Swapped(sigma, irow, icol), k)
  {
    SwapRows(t.field, a, Rows(m), pivoted, sigma, k, irow, icol);
    SwapRowEntries(m, irow, icol, k);
    if m[icol][icol] == 0 {
      assert false;
    }
    ExchangeStep(t.field, a, Rows(m), pivoted, Swapped(sigma, irow, icol), k, icol);
    idRow := ExchangeRows(t, m, idRow0, icol, k);
  }

  // ----- the whole inversion

  /** The renamings that the row swaps lead through, oldest first. */
  ghost predicate Trace(rs: seq<int>, cs: seq<int>, sigmas: seq<seq<nat>>, k: nat) {
    && |cs| == |rs| && |sigmas| == |rs| + 1
    && (forall j :: 0 <= j < |sigmas| ==> |sigmas[j]| == k)
    && sigmas[0] == Iota(k)
    && (forall j :: 0 <= j < |rs| ==> 0 <= rs[j] < k && 0 <= cs[j] < k)
    && (forall j :: 0 <= j < |rs| ==> sigmas[j + 1] == Swapped(sigmas[j], rs[j], cs[j]))
  }

  lemma TraceStep(rs: seq<int>, cs: seq<int>, sigmas: seq<seq<nat>>, k: nat, r: int, c: int)
    requires Trace(rs, cs, sigmas, k) && 0 <= r < k && 0 <= c < k
    ensures Trace(rs + [r], cs + [c], sigmas + [Swapped(sigmas[|rs|], r, c)], k)
  {}

  /** n columns have been used as pivots: those in used, which are those marked. */
  ghost predicate Counted(pivoted: seq<bool>, used: set<nat>, n: nat, k: nat) {
    && |pivoted| == k && used <= Below(k) && |used| == n
    && forall q: nat :: q < k ==> (pivoted[q] <==> q in used)
  }

  lemma CountedStep(pivoted: seq<bool>, used: set<nat>, n: nat, k: nat, c: nat)
    requires Counted(pivoted, used, n, k) && c < k && !pivoted[c]
    ensures Counted(pivoted[c := true], used + {c}, n + 1, k)
  {}

  lemma MarksStep(ipiv: seq<int>, pivoted: seq<bool>, k: nat, c: nat)
    requires Marks(ipiv, pivoted, k) && c < k && !pivoted[c]
    ensures Marks(ipiv[c := ipiv[c] + 1], pivoted[c := true], k)
  {}

  lemma AllCounted(pivoted: seq<bool>, used: set<nat>, k: nat)
    requires Counted(pivoted, used, k, k)
    ensures forall q :: 0 <= q < k ==> pivoted[q]
  {
    AllIndices(used, k);
  }

  lemma Stuck(f: Field<gf>, a: seq<seq<gf>>, s: seq<seq<gf>>, pivoted: seq<bool>, used: set<nat>, sigma: seq<nat>, n: nat, k: nat)
    requires Lawful(f) && Represents(f, a, s, pivoted, sigma, k) && Counted(pivoted, used, n, k) && n < k
    requires forall i, j :: 0 <= i < k && 0 <= j < k && !pivoted[i] && !pivoted[j] ==> s[i][j] == f.zero
    ensures !Nonsingular(f, a, k)
  {
    var c := MissingIndex(used, k);
    NoPivotMeansSingular(f, a, s, pivoted, sigma, k, c);
  }

  /** The pivots so far: which columns, marked and as a set, and how the rows moved. */
  datatype Pivots = Pivots(marked: seq<bool>, used: set<nat>, sigmas: seq<seq<nat>>)

  ghost predicate Inside(d: int) { true }

  /** n columns of a have been exchanged, which gave the rows s; rs and cs say where the pivots were.
      Only proofs that mention Inside look at how. */
  ghost predicate Exchanged(f: Field<gf>, a: seq<seq<gf>>, s: seq<seq<gf>>, ipiv: seq<int>, rs: seq<int>, cs: seq<int>,
                            g: Pivots, n: nat, k: nat) {
    forall d {:trigger Inside(d)} :: Inside(d) ==>
      && Marks(ipiv, g.marked, k) && Counted(g.marked, g.used, n, k)
      && |rs| == n && Trace(rs, cs, g.sigmas, k)
      && Represents(f, a, s, g.marked, g.sigmas[n], k)
  }

  lemma ExchangedNone(f: Field<gf>, a: seq<seq<gf>>, k: nat)
    requires Lawful(f) && Matrix(a, k, k)
    ensures Exchanged(f, a, a, seq(k, _ => 0), [], [], Pivots(seq(k, _ => false), {}, [Iota(k)]), 0, k)
  {
    Start(f, a, k);
  }

  /** One more pivot, in row r before the rows moved and in column c. */
  ghost function WithPivot(g: Pivots, n: nat, r: nat, c: nat): Pivots
    requires c < |g.marked| && n < |g.sigmas| && r < |g.sigmas[n]| && c < |g.sigmas[n]|
  {
    Pivots(g.marked[c := true], g.used + {c}, g.sigmas + [Swapped(g.sigmas[n], r, c)])
  }

  /** Exchanges one more column, or finds the matrix singular. */
  method ExchangeColumn(t: GfTables, m: array<array<gf>>, k: nat, n: nat, idRow0: seq<gf>, ipiv: seq<int>, rs: seq<int>,
                        cs: seq<int>, ghost a: seq<seq<gf>>, ghost g0: Pivots)
    returns (found: bool, idRow: seq<gf>, irow: int, icol: int, ghost g: Pivots)
    requires t.Valid() && Block(m, k, k) && Apart(t, m) && n < k && idRow0 == Zeros(t.field, k) && Matrix(a, k, k)
    requires Exchanged(t.field, a, Rows(m), ipiv, rs, cs, g0, n, k)
    modifies Buffers(m)
    ensures t.Valid()
    ensures !found ==> !Nonsingular(t.field, a, k)
    ensures found ==> idRow == Zeros(t.field, k) && 0 <= icol < |ipiv| &&
                      Exchanged(t.field, a, Rows(m), ipiv[icol := ipiv[icol] + 1], rs + [irow], cs + [icol], g, n + 1, k)
  {
    assert Inside(0);
    found, irow, icol := FindPivot(m, ipiv, n, k, g0.marked);
    g, idRow := g0, idRow0;
    if !found {
      Stuck(t.field, a, Rows(m), g0.marked, g0.used, g0.sigmas[n], n, k);
      return;
    }
    TraceStep(rs, cs, g0.sigmas, k, irow, icol);
    CountedStep(g0.marked, g0.used, n, k, icol);
    MarksStep(ipiv, g0.marked, k, icol);
    g := WithPivot(g0, n, irow, icol);
    idRow := PivotStep(t, m, idRow0, irow, icol, k, a, g0.marked, g0.sigmas[n]);
  }

  lemma ExchangedAll(f: Field<gf>, a: seq<seq<gf>>, s: seq<seq<gf>>, ipiv: seq<int>, rs: seq<int>, cs: seq<int>,
                     g: Pivots, k: nat)
    requires Exchanged(f, a, s, ipiv, rs, cs, g, k, k)
    ensures |rs| == k && Trace(rs, cs, g.sigmas, k) && Represents(f, a, s, g.marked, g.sigmas[k], k)
    ensures forall q :: 0 <= q < k ==> g.marked[q]
  {
    assert Inside(0);
    AllCounted(g.marked, g.used, k);
  }

  /** Exchanges every column in turn, or finds the matrix singular. */
  method Reduce(t: GfTables, m: array<array<gf>>, k: nat)
    returns (error: int, indxr: seq<int>, indxc: seq<int>, ghost pivoted: seq<bool>, ghost sigmas: seq<seq<nat>>)
    requires t.Valid() && Block(m, k, k) && Apart(t, m)
    modifies Buffers(m)
    ensures t.Valid() && (error == 0 || error == 1)
    ensures error == 1 ==> !Nonsingular(t.field, old(Rows(m)), k)
    ensures error == 0 ==>
      && |indxr| == k && Trace(indxr, indxc, sigmas, k)
      && Represents(t.field, old(Rows(m)), Rows(m), pivoted, sigmas[k], k)
      && forall q :: 0 <= q < k ==> pivoted[q]
  {
    ghost var a, g := Rows(m), Pivots(seq(k, _ => false), {}, [Iota(k)]);
    var ipiv := seq(k, _ => 0);
    var idRow: seq<gf> := seq(k, _ => 0);
    indxr, indxc, error := [], [], 0;
    pivoted, sigmas := [], [];
    ExchangedNone(t.field, a, k);
    for col := 0 to k
      invariant t.Valid() && idRow == Zeros(t.field, k)
      invariant Exchanged(t.field, a, Rows(m), ipiv, indxr, indxc, g, col, k)
    {
      var found, irow, icol;
      found, idRow, irow, icol, g := ExchangeColumn(t, m, k, col, idRow, ipiv, indxr, indxc, a, g);
      if !found {
        error := 1;
        return;
      }
      ipiv := ipiv[icol := ipiv[icol] + 1];
      indxr, indxc := indxr + [irow], indxc + [icol];
    }
    ExchangedAll(t.field, a, Rows(m), ipiv, indxr, indxc, g, k);
    pivoted, sigmas := g.marked, g.sigmas;
  }

  method SwapColumnEntries(m: array<array<gf>>, i: nat, j: nat, k: nat)
    requires Block(m, k, k) && i < k && j < k
    modifies Buffers(m)
    ensures Rows(m) == SwapColumns(old(Rows(m)), i, j, k)
  {
    ghost var rows, cur := Rows(m), Rows(m);
    for row := 0 to k
      invariant Rows(m) == cur && |cur| == k
      invariant forall q :: 0 <= q < row ==> cur[q] == Swapped(rows[q], i, j)
      invariant forall q :: row <= q < k ==> cur[q] == rows[q]
    {
      m[row][i], m[row][j] := m[row][j], m[row][i];
      cur := cur[row := Swapped(rows[row], i, j)];
    }
  }

  lemma SwapColumnsBack(f: Field<gf>, a: seq<seq<gf>>, s: seq<seq<gf>>, pivoted: seq<bool>, sigma: seq<nat>, k: nat, i: nat, j: nat)
    requires Lawful(f) && i < k && j < k && |sigma| == k
    requires Represents(f, a, s, pivoted, Swapped(sigma, i, j), k)
    requires forall q :: 0 <= q < k ==> pivoted[q]
    ensures Represents(f, a, SwapColumns(s, i, j, k), pivoted, sigma, k)
  {
    SwapColumnsStep(f, a, s, pivoted, Swapped(sigma, i, j), k, i, j);
    SwappedTwice(sigma, i, j);
  }

  lemma SwapNothing(s: seq<seq<gf>>, i: nat, k: nat)
    requires Matrix(s, k, k) && i < k
    ensures SwapColumns(s, i, i, k) == s
  {
    forall q | 0 <= q < k ensures Swapped(s[q], i, i) == s[q] {}
  }

  method SwapBack(ghost f: Field<gf>, m: array<array<gf>>, i: nat, j: nat, k: nat,
                  ghost a: seq<seq<gf>>, ghost pivoted: seq<bool>, ghost sigma: seq<nat>)
    requires Lawful(f) && Block(m, k, k) && i < k && j < k && |sigma| == k
    requires Represents(f, a, Rows(m), pivoted, Swapped(sigma, i, j), k)
    requires forall q :: 0 <= q < k ==> pivoted[q]
    modifies Buffers(m)
    ensures Represents(f, a, Rows(m), pivoted, sigma, k)
  {
    SwapColumnsBack(f, a, Rows(m), pivoted, sigma, k, i, j);
    if i != j {
      SwapColumnEntries(m, i, j, k);
    } else {
      SwapNothing(Rows(m), i, k);
    }
  }

  /** Undoes the row swaps as column swaps, last first. */
  method Unscramble(t: GfTables, m: array<array<gf>>, indxr: seq<int>, indxc: seq<int>, k: nat,
                    ghost a: seq<seq<gf>>, ghost pivoted: seq<bool>, ghost sigmas: seq<seq<nat>>)
    requires t.Valid() && Block(m, k, k) && Apart(t, m)
    requires |indxr| == k && Trace(indxr, indxc, sigmas, k)
    requires Represents(t.field, a, Rows(m), pivoted, sigmas[k], k)
    requires forall q :: 0 <= q < k ==> pivoted[q]
    modifies Buffers(m)
    ensures t.Valid() && Inverse(t.field, a, Rows(m), k)
  {
    var col := k - 1;
    while col >= 0
      invariant -1 <= col < k && t.Valid()
      invariant Represents(t.field, a, Rows(m), pivoted, sigmas[col + 1], k)
    {
      if indxr[col] < 0 || indxr[col] >= k {
        assert false;
      } else if indxc[col] < 0 || indxc[col] >= k {
        assert false;
      } else {
        SwapBack(t.field, m, indxr[col], indxc[col], k, a, pivoted, sigmas[col]);
      }
      col := col - 1;
    }
    Finish(t.field, a, Rows(m), pivoted, k);
  }

  /** Returns 0 exactly when the matrix is non-singular, and then leaves its inverse in place. */
  method Invert(t: GfTables, m: array<array<gf>>, k: nat) returns (error: int)
    requires t.Valid() && Block(m, k, k) && Apart(t, m)
    modifies Buffers(m)
    ensures t.Valid()
    ensures error == if Nonsingular(t.field, old(Rows(m)), k) then 0 else 1
    ensures error == 0 ==> Inverse(t.field, old(Rows(m)), Rows(m), k)
  {
    ghost var a := Rows(m);
    var indxr, indxc;
    ghost var pivoted, sigmas;
    error, indxr, indxc, pivoted, sigmas := Reduce(t, m, k);
    if error == 0 {
      Unscramble(t, m, indxr, indxc, k, a, pivoted, sigmas);
      InverseIsNonsingular(t.field, a, Rows(m), k);
    }
  }
}
