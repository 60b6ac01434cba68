/** Encoding packets, and recovering the source from any k of them. */
module Packets {
  import opened Fields
  import opened GF256
  import opened Vectors
  import opened Tables
  import opened Matrices
  import opened Codes
  import opened Fec
  import opened Interpolation
  import InvertMat
  import Polynomials
  import Shuffle

  /** Clears dst and adds c[i] * src[i] for each of the k packets. */
  method Accumulate(t: GfTables, dst: array<gf>, c: array<gf>, src: array<array<gf>>, k: nat, sz: nat)
    requires t.Valid() && dst != t.exp && dst != t.inverse && dst != c && dst !in src[..]
    requires dst.Length == sz && c.Length == k && src.Length == k && forall i :: 0 <= i < k ==> src[i].Length == sz
    modifies dst
    ensures t.Valid() && dst[..] == Combine(t.field, c[..], Rows(src), k, sz)
  {
    ghost var f, rows, coefs := t.field, Rows(src), c[..];
    Clear(t, dst, sz);
    for i := 0 to k
      invariant t.Valid() && Rows(src) == rows && c[..] == coefs
      invariant dst[..] == Combine(f, coefs, rows, i, sz)
    {
      Addmul(t, dst, src[i], c[i], sz);
    }
  }

  method Clear(t: GfTables, dst: array<gf>, sz: nat)
    requires t.Valid() && dst != t.exp && dst != t.inverse && dst.Length == sz
    modifies dst
    ensures t.Valid() && dst[..] == Zeros(t.field, sz)
  {
    for q := 0 to sz
      invariant forall j :: 0 <= j < q ==> dst[j] == 0
    {
      dst[q] := 0;
    }
  }

  method CopyInto(dst: array<gf>, src: array<gf>, sz: nat)
    requires dst.Length == sz && src.Length == sz && dst != src
    modifies dst
    ensures dst[..] == src[..]
  {
    for q := 0 to sz
      invariant dst[..q] == src[..q]
    {
      dst[q] := src[q];
    }
  }

  /** What the coder's packets are. */
  lemma CodePacket(t: GfTables, code: FecParms, src: seq<seq<gf>>, sz: nat, r: nat, b: seq<gf>)
    requires code.Valid(t) && r < code.n && Matrix(src, code.k, sz)
    ensures IsPacket(b, src, code.k, sz, r) <==> b == Packet(t.field, Points(t, code.n), code.k, src, r, sz)
  {
    PacketIs(t.field, t.powers, t.logs, Points(t, code.n), src, code.k, sz, r, b);
  }

  /** Packet `index` of the code; nothing is written for an index out of range. */
  method Encode(t: GfTables, code: FecParms, src: array<array<gf>>, fec: array<gf>, index: nat, sz: nat)
    requires code.Valid(t) && src.Length == code.k && (forall i :: 0 <= i < code.k ==> src[i].Length == sz)
    requires fec.Length == sz && fec !in src[..] && fec !in code.encMatrix[..] && fec != t.exp && fec != t.inverse
    modifies fec
    ensures index < code.n ==> fec[..] == Packet(t.field, Points(t, code.n), code.k, Rows(src), index, sz)
    ensures index < code.n ==> IsPacket(fec[..], Rows(src), code.k, sz, index)
    ensures index >= code.n ==> fec[..] == old(fec[..])
  {
    var k := code.k;
    if index < k {
      CopyInto(fec, src[index], sz);
    } else if index < code.n {
      assert code.encMatrix[index][..] == Rows(code.encMatrix)[index];
      Accumulate(t, fec, code.encMatrix[index], src, k, sz);
    }
    if index < code.n { CodePacket(t, code, Rows(src), sz, index, fec[..]); }
  }

  // ----- the decoding matrix

  /** The indices name k different packets of the code. */
  ghost predicate Usable(index: seq<int>, k: nat, n: nat) {
    && |index| == k
    && (forall i :: 0 <= i < k ==> 0 <= index[i] < n)
    && Polynomials.Distinct(index)
  }

  lemma UsableIsRepeatFree(index: seq<int>, n: nat)
    requires forall i :: 0 <= i < |index| ==> 0 <= index[i] < n
    ensures Polynomials.Distinct(index) <==> Shuffle.RepeatFree(index, n)
  {
    if Shuffle.RepeatFree(index, n) {
      forall i, j | 0 <= i < j < |index| ensures index[i] != index[j] {}
    }
  }

  /** Fills one row of the decoding matrix; false for an index out of range. */
  method FillDecodeRow(t: GfTables, code: FecParms, p: array<gf>, index: int, i: nat) returns (ok: bool)
    requires code.Valid(t) && p.Length == code.k && i < code.k && 0 <= index && (index < code.k ==> index == i)
    requires p !in code.encMatrix[..] && p != t.exp && p != t.inverse
    modifies p
    ensures ok <==> index < code.n
    ensures ok ==> p[..] == EncRow(t.field, Points(t, code.n), code.k, index)
  {
    if index < code.k {
      FillUnit(t, p, i, code.k);
      ok := true;
    } else if index < code.n {
      assert code.encMatrix[index][..] == Rows(code.encMatrix)[index];
      CopyInto(p, code.encMatrix[index], code.k);
      ok := true;
    } else {
      ok := false;
    }
  }

  method SetDecodeRow(t: GfTables, code: FecParms, m: array<array<gf>>, index: array<int>, i: nat) returns (ok: bool)
    requires code.Valid(t) && Block(m, code.k, code.k) && Apart(t, m) && Buffers(m) !! Buffers(code.encMatrix)
    requires index.Length == code.k && Shuffle.Placed(index[..], code.k) && i < code.k && index[i] >= 0
    modifies m[i]
    ensures code.Valid(t)
    ensures ok <==> index[i] < code.n
    ensures ok ==> Rows(m) == old(Rows(m))[i := EncRow(t.field, Points(t, code.n), code.k, index[i])]
  {
    assert m[i] in Buffers(m);
    ok := FillDecodeRow(t, code, m[i], index[i], i);
  }

  method FillDecodeMatrix(t: GfTables, code: FecParms, m: array<array<gf>>, index: array<int>) returns (ok: bool)
    requires code.Valid(t) && Block(m, code.k, code.k) && Apart(t, m) && Buffers(m) !! Buffers(code.encMatrix)
    requires index.Length == code.k && Shuffle.Placed(index[..], code.k)
    requires forall i :: 0 <= i < code.k ==> 0 <= index[i]
    modifies Buffers(m)
    ensures code.Valid(t)
    ensures ok <==> forall i :: 0 <= i < code.k ==> index[i] < code.n
    ensures ok ==> Rows(m) == Selected(t.field, Points(t, code.n), code.k, index[..])
  {
    ghost var f, p, cur, idx := t.field, Points(t, code.n), Rows(m), index[..];
    for i := 0 to code.k
      invariant code.Valid(t) && Rows(m) == cur && |cur| == code.k && index[..] == idx
      invariant forall q :: 0 <= q < i ==> idx[q] < code.n
      invariant forall q :: 0 <= q < i ==> cur[q] == EncRow(f, p, code.k, idx[q])
    {
      ok := SetDecodeRow(t, code, m, index, i);
      if !ok {
        return;
      }
      cur := cur[i := EncRow(f, p, code.k, idx[i])];
    }
    ok := true;
  }

  /** Inverting the selected rows succeeds exactly when no row was selected twice. */
  method InvertSelected(t: GfTables, m: array<array<gf>>, k: nat, ghost p: seq<gf>, ghost index: seq<nat>) returns (error: int)
    requires t.Valid() && Block(m, k, k) && Apart(t, m)
    requires k <= |p| && Polynomials.Distinct(p) && |index| == k && forall i :: 0 <= i < k ==> index[i] < |p|
    requires Rows(m) == Selected(t.field, p, k, index)
    modifies Buffers(m)
    ensures t.Valid()
    ensures error == if Polynomials.Distinct(index) then 0 else 1
    ensures error == 0 ==> Inverse(t.field, Selected(t.field, p, k, index), Rows(m), k)
  {
    if Polynomials.Distinct(index) {
      AnyRowsNonsingular(t.field, p, k, index);
    }
    error := InvertMat.Invert(t, m, k);
    if error == 0 {
      InverseRowsDistinct(t.field, Selected(t.field, p, k, index), Rows(m), k);
      DistinctRowsDistinctIndices(t.field, p, k, index);
    }
  }

  /** The inverse of the rows of the received packets, or null: exactly when the indices are not
      those of k different packets. */
  method BuildDecodeMatrix(t: GfTables, code: FecParms, index: array<int>) returns (m: array?<array<gf>>)
    requires code.Valid(t)
    requires index.Length == code.k && Shuffle.Placed(index[..], code.k)
    requires forall i :: 0 <= i < code.k ==> 0 <= index[i]
    ensures code.Valid(t)
    ensures m != null <==> Usable(index[..], code.k, code.n)
    ensures m != null ==> fresh(m) && fresh(Buffers(m)) && Block(m, code.k, code.k)
    ensures m != null ==> Inverse(t.field, Selected(t.field, Points(t, code.n), code.k, index[..]), Rows(m), code.k)
  {
    var matrix := NewBlock(code.k, code.k);
    var ok := FillDecodeMatrix(t, code, matrix, index);
    if !ok {
      return null;
    }
    var error := InvertSelected(t, matrix, code.k, Points(t, code.n), index[..]);
    if error != 0 {
      return null;
    }
    return matrix;
  }

  lemma DistinctRowsDistinctIndices(f: Field<gf>, p: seq<gf>, k: nat, index: seq<nat>)
    requires k <= |p| && |index| == k && forall i :: 0 <= i < k ==> index[i] < |p|
    requires Polynomials.Distinct(Selected(f, p, k, index))
    ensures Polynomials.Distinct(index)
  {
    var d := Selected(f, p, k, index);
    forall i, j | 0 <= i < j < k ensures index[i] != index[j] {
      assert d[i] != d[j];
    }
  }

  // ----- decoding

  /** The packets after decoding, given the inverse of the received rows. */
  ghost function Decoded(f: Field<gf>, index: seq<int>, s: seq<seq<gf>>, pkt: seq<seq<gf>>, k: nat, sz: nat): (r: seq<seq<gf>>)
    requires |index| == k && Matrix(s, k, k) && Matrix(pkt, k, sz)
    ensures Matrix(r, k, sz)
  {
    seq(k, i requires 0 <= i < k => if index[i] < k then pkt[i] else Combine(f, s[i], pkt, k, sz))
  }

  method ComputeOne(t: GfTables, pkt: array<array<gf>>, c: array<gf>, k: nat, sz: nat) returns (buf: array<gf>)
    requires t.Valid() && Block(pkt, k, sz) && c.Length == k
    ensures fresh(buf) && buf.Length == sz && buf[..] == Combine(t.field, c[..], Rows(pkt), k, sz)
  {
    buf := new gf[sz](_ => 0);
    Accumulate(t, buf, c, pkt, k, sz);
  }

  method ComputeRow(t: GfTables, pkt: array<array<gf>>, index: int, m: array<array<gf>>, row: nat, k: nat, sz: nat)
    returns (buf: array?<gf>)
    requires t.Valid() && Block(pkt, k, sz) && Block(m, k, k) && row < k
    ensures index >= k ==> buf != null && fresh(buf) && buf.Length == sz
                           && buf[..] == Combine(t.field, Rows(m)[row], Rows(pkt), k, sz)
  {
    buf := null;
    if index >= k {
      assert m[row][..] == Rows(m)[row];
      buf := ComputeOne(t, pkt, m[row], k, sz);
    }
  }

  method ComputeMissing(t: GfTables, pkt: array<array<gf>>, index: array<int>, m: array<array<gf>>, k: nat, sz: nat)
    returns (newPkt: seq<array?<gf>>)
    requires t.Valid() && Block(pkt, k, sz) && Block(m, k, k) && index.Length == k
    ensures |newPkt| == k
    ensures forall i :: 0 <= i < k && index[i] >= k ==> newPkt[i] != null && fresh(newPkt[i]) && newPkt[i].Length == sz
    ensures forall i :: 0 <= i < k && index[i] >= k ==>
      newPkt[i][..] == Combine(t.field, Rows(m)[i], Rows(pkt), k, sz)
  {
    newPkt := [];
    ghost var f, rows, ms := t.field, Rows(pkt), Rows(m);
    ghost var want := seq(k, i requires 0 <= i < k => Combine(f, ms[i], rows, k, sz));
    for row := 0 to k
      invariant |newPkt| == row
      invariant forall i :: 0 <= i < row && index[i] >= k ==> newPkt[i] != null && fresh(newPkt[i]) && newPkt[i].Length == sz
      invariant forall i :: 0 <= i < row && index[i] >= k ==> newPkt[i][..] == want[i]
    {
      var buf := ComputeRow(t, pkt, index[row], m, row, k, sz);
      newPkt := newPkt + [buf];
    }
  }

  method MoveMissing(pkt: array<array<gf>>, index: array<int>, newPkt: seq<array?<gf>>, k: nat, sz: nat, ghost want: seq<seq<gf>>)
    requires Block(pkt, k, sz) && index.Length == k && |newPkt| == k && Matrix(want, k, sz)
    requires forall i :: 0 <= i < k && index[i] >= k ==>
      newPkt[i] != null && newPkt[i] !in pkt[..] && newPkt[i].Length == sz && newPkt[i][..] == want[i]
    requires forall i :: 0 <= i < k && index[i] < k ==> want[i] == Rows(pkt)[i]
    modifies Buffers(pkt)
    ensures Rows(pkt) == want
  {
    ghost var rows, cur, idx := Rows(pkt), Rows(pkt), index[..];
    for row := 0 to k
      invariant Rows(pkt) == cur && |cur| == k && index[..] == idx
      invariant forall i :: 0 <= i < k && idx[i] >= k ==> newPkt[i][..] == want[i]
      invariant forall i :: 0 <= i < row ==> cur[i] == want[i]
      invariant forall i :: row <= i < k ==> cur[i] == rows[i]
    {
      if index[row] >= k {
        CopyInto(pkt[row], newPkt[row], sz);
        cur := cur[row := want[row]];
      }
    }
  }

  /** Reordering the received packets along with their indices does not matter. */
  lemma EncodedReordered<T>(f: Field<gf>, p: seq<gf>, k: nat, src: seq<seq<gf>>, sz: nat,
                            index: seq<nat>, ptr: seq<T>, pkt: seq<seq<gf>>,
                            index0: seq<nat>, ptr0: seq<T>, pkt0: seq<seq<gf>>)
    requires k <= |p| && |index| == |ptr| == |index0| == |ptr0| == k && Matrix(pkt, k, sz) && Matrix(pkt0, k, sz)
    requires Shuffle.Reordered(index, ptr, index0, ptr0)
    requires forall i, j :: 0 <= i < k && 0 <= j < k && ptr[i] == ptr0[j] ==> pkt[i] == pkt0[j]
    requires Encoded(f, p, k, src, pkt0, index0, sz)
    ensures Encoded(f, p, k, src, pkt, index, sz)
  {
    forall i | 0 <= i < k ensures index[i] < |p| && pkt[i] == Packet(f, p, k, src, index[i], sz) {
      var j := Shuffle.Origin(index, ptr, index0, ptr0, i);
    }
  }

  lemma UsableReordered<T>(index: seq<int>, ptr: seq<T>, index0: seq<int>, ptr0: seq<T>, k: nat, n: nat)
    requires |index| == |ptr| == |index0| == |ptr0| == k
    requires Shuffle.Reordered(index, ptr, index0, ptr0)
    requires Shuffle.RepeatFree(index, n) <==> Shuffle.RepeatFree(index0, n)
    ensures Usable(index, k, n) <==> Usable(index0, k, n)
  {
    if forall i :: 0 <= i < k ==> 0 <= index0[i] < n {
      forall i | 0 <= i < k ensures 0 <= index[i] < n { var j := Shuffle.Origin(index, ptr, index0, ptr0, i); }
    }
    if forall i :: 0 <= i < k ==> 0 <= index[i] < n {
      forall i | 0 <= i < k ensures 0 <= index0[i] < n { var j := Shuffle.Origin(index0, ptr0, index, ptr, i); }
      UsableIsRepeatFree(index, n);
      UsableIsRepeatFree(index0, n);
    }
  }

  lemma DecodedIsSource(f: Field<gf>, p: seq<gf>, k: nat, index: seq<nat>, s: seq<seq<gf>>, pkt: seq<seq<gf>>, sz: nat, src: seq<seq<gf>>)
    requires Lawful(f) && k <= |p| && |index| == k && Matrix(s, k, k) && Matrix(pkt, k, sz)
    requires Shuffle.Placed(index, k) && Encoded(f, p, k, src, pkt, index, sz)
    requires Inverse(f, Selected(f, p, k, index), s, k)
    ensures Decoded(f, index, s, pkt, k, sz) == src
  {
    forall i | 0 <= i < k ensures Decoded(f, index, s, pkt, k, sz)[i] == src[i] {
      if index[i] >= k { Recovered(f, p, k, src, pkt, index, sz, s, i); }
    }
  }

  /** Decoding once every received source packet is at its own position. */
  method DecodePlaced(t: GfTables, code: FecParms, pkt: array<array<gf>>, index: array<int>, sz: nat) returns (error: int)
    requires code.Valid(t) && Block(pkt, code.k, sz) && Apart(t, pkt) && Buffers(pkt) !! Buffers(code.encMatrix)
    requires index.Length == code.k && Shuffle.Placed(index[..], code.k)
    requires forall i :: 0 <= i < code.k ==> 0 <= index[i]
    modifies Buffers(pkt)
    ensures code.Valid(t) && Block(pkt, code.k, sz)
    ensures error == if Usable(index[..], code.k, code.n) then 0 else 1
    ensures error == 0 ==> forall src: seq<seq<gf>> ::
      Encoded(t.field, Points(t, code.n), code.k, src, old(Rows(pkt)), index[..], sz) ==> Rows(pkt) == src
  {
    ghost var rows := Rows(pkt);
    var m := BuildDecodeMatrix(t, code, index);
    if m == null {
      return 1;
    }
    ghost var s := Rows(m);
    var newPkt := ComputeMissing(t, pkt, index, m, code.k, sz);
    ghost var want := Decoded(t.field, index[..], s, rows, code.k, sz);
    MoveMissing(pkt, index, newPkt, code.k, sz, want);
    forall src: seq<seq<gf>> | Encoded(t.field, Points(t, code.n), code.k, src, rows, index[..], sz) ensures want == src {
      DecodedIsSource(t.field, Points(t, code.n), code.k, index[..], s, rows, sz, src);
    }
    error := 0;
  }

  /** Whatever source the first packets were encoded from, the second ones are encoded from it, too. */
  ghost predicate KeepsSource(f: Field<gf>, p: seq<gf>, k: nat, sz: nat, pkt0: seq<seq<gf>>, index0: seq<nat>,
                              pkt: seq<seq<gf>>, index: seq<nat>) {
    && k <= |p| && |index0| == |index| == k && Matrix(pkt0, k, sz) && Matrix(pkt, k, sz)
    && forall src: seq<seq<gf>> :: Encoded(f, p, k, src, pkt0, index0, sz) ==> Encoded(f, p, k, src, pkt, index, sz)
  }

  lemma ReorderedKeepsSource<T>(f: Field<gf>, p: seq<gf>, k: nat, sz: nat, index: seq<nat>, ptr: seq<T>,
                                pkt: seq<seq<gf>>, index0: seq<nat>, ptr0: seq<T>, pkt0: seq<seq<gf>>)
    requires k <= |p| && |index| == |ptr| == |index0| == |ptr0| == k && Matrix(pkt, k, sz) && Matrix(pkt0, k, sz)
    requires Shuffle.Reordered(index, ptr, index0, ptr0)
    requires forall i, j :: 0 <= i < k && 0 <= j < k && ptr[i] == ptr0[j] ==> pkt[i] == pkt0[j]
    ensures KeepsSource(f, p, k, sz, pkt0, index0, pkt, index)
  {
    forall src: seq<seq<gf>> | Encoded(f, p, k, src, pkt0, index0, sz) ensures Encoded(f, p, k, src, pkt, index, sz) {
      EncodedReordered(f, p, k, src, sz, index, ptr, pkt, index0, ptr0, pkt0);
    }
  }

  lemma AllFrom<T>(index: seq<int>, ptr: seq<T>, index0: seq<int>, ptr0: seq<T>)
    requires Shuffle.Reordered(index, ptr, index0, ptr0)
    ensures forall b :: b in ptr ==> b in ptr0
  {
    forall b | b in ptr ensures b in ptr0 {
      var i :| 0 <= i < |ptr| && ptr[i] == b;
      var j := Shuffle.Origin(index, ptr, index0, ptr0, i);
    }
  }

  /** Different buffers out of a block make a block. */
  lemma SameBuffers(ptr: seq<array<gf>>, ptr0: seq<array<gf>>, sz: nat)
    requires Shuffle.Unrepeated(ptr) && forall b :: b in ptr ==> b in ptr0
    requires forall i :: 0 <= i < |ptr0| ==> ptr0[i].Length == sz
    ensures forall i :: 0 <= i < |ptr| ==> ptr[i].Length == sz
  {
    forall i | 0 <= i < |ptr| ensures ptr[i].Length == sz {
      assert ptr[i] in ptr0;
    }
  }

  lemma RepeatedNotUsable(index: seq<int>, k: nat, n: nat)
    requires !Shuffle.RepeatFree(index, k)
    ensures !Usable(index, k, n)
  {}

  /** Shuffling keeps the buffers, and what is encoded in them, and puts source packets in place. */
  method Rearrange(pkt: array<array<gf>>, index: array<int>, k: nat, sz: nat, ghost f: Field<gf>, ghost p: seq<gf>)
    returns (error: int)
    requires Block(pkt, k, sz) && k <= |p|
    requires index.Length == k && forall i :: 0 <= i < k ==> 0 <= index[i]
    modifies pkt, index
    ensures Block(pkt, k, sz) && (forall b :: b in pkt[..] ==> b in old(pkt[..]))
    ensures forall i :: 0 <= i < k ==> 0 <= index[i]
    ensures error == 0 || error == 1
    ensures error == 0 ==> Shuffle.Placed(index[..], k)
    ensures error == 1 ==> !Usable(old(index[..]), k, |p|)
    ensures Usable(index[..], k, |p|) <==> Usable(old(index[..]), k, |p|)
    ensures KeepsSource(f, p, k, sz, old(Rows(pkt)), old(index[..]), Rows(pkt), index[..])
  {
    ghost var index0, ptr0, pkt0 := index[..], pkt[..], Rows(pkt);
    error := Shuffle.Place(pkt, index, k);
    UsableReordered(index[..], pkt[..], index0, ptr0, k, |p|);
    if error == 1 { RepeatedNotUsable(index0, k, |p|); }
    AllFrom(index[..], pkt[..], index0, ptr0);
    SameBuffers(pkt[..], ptr0, sz);
    ReorderedKeepsSource(f, p, k, sz, index[..], pkt[..], Rows(pkt), index0, ptr0, pkt0);
  }

  /** The packets of these numbers, for a source. */
  ghost predicate ArePackets(pkt: seq<seq<gf>>, src: seq<seq<gf>>, k: nat, sz: nat, index: seq<nat>)
    requires 0 < k && |index| == |pkt| == k
  {
    Matrix(src, k, sz) && forall i :: 0 <= i < k ==> IsPacket(pkt[i], src, k, sz, index[i])
  }

  lemma ArePacketsEncoded(t: GfTables, code: FecParms, pkt: seq<seq<gf>>, index: seq<nat>, sz: nat)
    requires code.Valid(t) && |index| == code.k && Matrix(pkt, code.k, sz)
    requires forall i :: 0 <= i < code.k ==> index[i] < code.n
    ensures forall src: seq<seq<gf>> :: ArePackets(pkt, src, code.k, sz, index) <==>
                                        Encoded(t.field, Points(t, code.n), code.k, src, pkt, index, sz)
  {
    forall src: seq<seq<gf>> | Matrix(src, code.k, sz)
      ensures ArePackets(pkt, src, code.k, sz, index) <==>
              Encoded(t.field, Points(t, code.n), code.k, src, pkt, index, sz)
    {
      forall i | 0 <= i < code.k
        ensures IsPacket(pkt[i], src, code.k, sz, index[i]) <==>
                pkt[i] == Packet(t.field, Points(t, code.n), code.k, src, index[i], sz)
      {
        CodePacket(t, code, src, sz, index[i], pkt[i]);
      }
    }
  }

  /** Recovers the source packets in place from k received packets, in any order. Succeeds exactly
      when the indices name k different packets of the code; then, whatever source the packets
      were encoded from, that source is what is left in pkt. */
  method Decode(t: GfTables, code: FecParms, pkt: array<array<gf>>, index: array<int>, sz: nat) returns (error: int)
    requires code.Valid(t) && Block(pkt, code.k, sz) && Apart(t, pkt) && Buffers(pkt) !! Buffers(code.encMatrix)
    requires pkt != code.encMatrix
    requires index.Length == code.k && forall i :: 0 <= i < code.k ==> 0 <= index[i]
    modifies pkt, index, Buffers(pkt)
    ensures code.Valid(t) && Block(pkt, code.k, sz)
    ensures error == if Usable(old(index[..]), code.k, code.n) then 0 else 1
    ensures error == 0 ==> forall src: seq<seq<gf>> ::
      ArePackets(old(Rows(pkt)), src, code.k, sz, old(index[..])) ==> Rows(pkt) == src
  {
    ghost var rows, numbers := Rows(pkt), index[..];
    error := Rearrange(pkt, index, code.k, sz, t.field, Points(t, code.n));
    if error == 0 {
      error := DecodePlaced(t, code, pkt, index, sz);
    }
    if error == 0 { ArePacketsEncoded(t, code, rows, numbers, sz); }
  }

  /** Encodes the packets that index names, whatever was in pkt before. */
  method EncodeAll(t: GfTables, code: FecParms, src: array<array<gf>>, pkt: array<array<gf>>, index: array<int>, sz: nat)
    requires code.Valid(t) && Block(pkt, code.k, sz) && Apart(t, pkt) && Buffers(pkt) !! Buffers(code.encMatrix)
    requires src.Length == code.k && (forall i :: 0 <= i < code.k ==> src[i].Length == sz) && Buffers(src) !! Buffers(pkt)
    requires index.Length == code.k && forall i :: 0 <= i < code.k ==> 0 <= index[i] < code.n
    modifies Buffers(pkt)
    ensures code.Valid(t) && Block(pkt, code.k, sz) && Rows(src) == old(Rows(src))
    ensures ArePackets(Rows(pkt), Rows(src), code.k, sz, index[..])
  {
    ghost var rows := Rows(src);
    for i := 0 to code.k
      invariant code.Valid(t) && Rows(src) == rows
      invariant forall j :: 0 <= j < i ==> pkt[j][..] == Packet(t.field, Points(t, code.n), code.k, rows, index[j], sz)
    {
      EncodeOne(t, code, src, pkt, index[i], i, sz);
    }
    ArePacketsEncoded(t, code, Rows(pkt), index[..], sz);
  }

  method EncodeOne(t: GfTables, code: FecParms, src: array<array<gf>>, pkt: array<array<gf>>, index: nat, i: nat, sz: nat)
    requires code.Valid(t) && Block(pkt, code.k, sz) && Apart(t, pkt) && Buffers(pkt) !! Buffers(code.encMatrix)
    requires src.Length == code.k && (forall j :: 0 <= j < code.k ==> src[j].Length == sz) && Buffers(src) !! Buffers(pkt)
    requires index < code.n && i < code.k
    modifies pkt[i]
    ensures code.Valid(t) && Rows(src) == old(Rows(src))
    ensures Rows(pkt) == old(Rows(pkt))[i := Packet(t.field, Points(t, code.n), code.k, Rows(src), index, sz)]
  {
    assert pkt[i] in Buffers(pkt);
    Encode(t, code, src, pkt[i], index, sz);
  }

  /** The round trip: k packets of the code are encoded and decoded. That succeeds exactly when no
      packet was taken twice, and then leaves the source. */
  method EncodeAndDecode(t: GfTables, code: FecParms, src: array<array<gf>>, pkt: array<array<gf>>, index: array<int>, sz: nat)
    returns (error: int)
    requires code.Valid(t) && Block(pkt, code.k, sz) && Apart(t, pkt) && Buffers(pkt) !! Buffers(code.encMatrix)
    requires pkt != code.encMatrix && pkt != src
    requires src.Length == code.k && (forall i :: 0 <= i < code.k ==> src[i].Length == sz) && Buffers(src) !! Buffers(pkt)
    requires index.Length == code.k && forall i :: 0 <= i < code.k ==> 0 <= index[i] < code.n
    modifies pkt, index, Buffers(pkt)
    ensures error == if Polynomials.Distinct(old(index[..])) then 0 else 1
    ensures error == 0 ==> Rows(pkt) == old(Rows(src))
  {
    EncodeAll(t, code, src, pkt, index, sz);
    error := Decode(t, code, pkt, index, sz);
  }
}
