/** Shift-and-add multiplication, over any addition of characteristic two and any linear shift. */
module BitProducts {

  datatype Space<!F> = Space(zero: F, add: (F, F) -> F, shift: F -> F)

  function Add<F>(s: Space<F>, a: F, b: F): F { s.add(a, b) }

  function Shift<F>(s: Space<F>, a: F): F { s.shift(a) }

  ghost predicate AddLaws<F(!new)>(s: Space<F>) {
    && (forall a: F :: Add(s, s.zero, a) == a && Add(s, a, s.zero) == a)
    && (forall a: F :: Add(s, a, a) == s.zero)
    && (forall a: F, b: F, c: F, d: F :: Add(s, Add(s, a, b), Add(s, c, d)) == Add(s, Add(s, a, c), Add(s, b, d)))
  }

  ghost predicate ShiftLaw<F(!new)>(s: Space<F>) {
    forall a: F, b: F :: Shift(s, Add(s, a, b)) == Add(s, Shift(s, a), Shift(s, b))
  }

  ghost predicate Linear<F(!new)>(s: Space<F>) { AddLaws(s) && ShiftLaw(s) }

  function Pick<F>(s: Space<F>, bit: bool, a: F): F { if bit then a else s.zero }

  /** Sum of a shifted i times over the positions i set in bits. */
  function Product<F>(s: Space<F>, a: F, bits: seq<bool>): F {
    if bits == [] then s.zero else Add(s, Pick(s, bits[0], a), Product(s, Shift(s, a), bits[1..]))
  }

  function XorBits(b: seq<bool>, c: seq<bool>): (r: seq<bool>)
    requires |b| == |c|
    ensures |r| == |b|
  {
    seq(|b|, i requires 0 <= i < |b| => b[i] != c[i])
  }

  lemma ShiftZero<F(!new)>(s: Space<F>)
    requires Linear(s)
    ensures Shift(s, s.zero) == s.zero
  {
    assert Shift(s, Add(s, s.zero, s.zero)) == Add(s, Shift(s, s.zero), Shift(s, s.zero));
  }

  lemma {:induction false} ProductXor<F(!new)>(s: Space<F>, a: F, b: seq<bool>, c: seq<bool>)
    requires Linear(s) && |b| == |c|
    ensures Product(s, a, XorBits(b, c)) == Add(s, Product(s, a, b), Product(s, a, c))
  {
    if b != [] {
      var x := Shift(s, a);
      assert XorBits(b, c)[1..] == XorBits(b[1..], c[1..]);
      ProductXor(s, x, b[1..], c[1..]);
      assert Pick(s, b[0] != c[0], a) == Add(s, Pick(s, b[0], a), Pick(s, c[0], a));
    }
  }

  lemma {:induction false} ProductOfShift<F(!new)>(s: Space<F>, a: F, b: seq<bool>)
    requires Linear(s)
    ensures Product(s, Shift(s, a), b) == Shift(s, Product(s, a, b))
  {
    ShiftZero(s);
    if b != [] {
      ProductOfShift(s, Shift(s, a), b[1..]);
      assert Shift(s, Pick(s, b[0], a)) == Pick(s, b[0], Shift(s, a));
    }
  }

  lemma {:induction false} ProductNone<F(!new)>(s: Space<F>, a: F, b: seq<bool>)
    requires Linear(s)
    requires forall i :: 0 <= i < |b| ==> !b[i]
    ensures Product(s, a, b) == s.zero
  {
    if b != [] { ProductNone(s, Shift(s, a), b[1..]); }
  }

  lemma {:induction false} ProductOfZero<F(!new)>(s: Space<F>, b: seq<bool>)
    requires Linear(s)
    ensures Product(s, s.zero, b) == s.zero
  {
    ShiftZero(s);
    if b != [] { ProductOfZero(s, b[1..]); }
  }
}
