/** Fields of characteristic two, given by their operations.
    The linear algebra of the erasure code is proved over any such field. */
module Fields {

  datatype Field<!F> = Field(zero: F, one: F, add: (F, F) -> F, mul: (F, F) -> F, inv: F -> F)

  function Add<F>(f: Field<F>, a: F, b: F): F { f.add(a, b) }

  function Mul<F>(f: Field<F>, a: F, b: F): F { f.mul(a, b) }

  function Inv<F>(f: Field<F>, a: F): F { f.inv(a) }

  // The laws below are instantiated only where one of these is mentioned, which
  // keeps associativity and commutativity from feeding on each other.
  ghost predicate At<F>(a: F) { true }
  ghost predicate At2<F>(a: F, b: F) { true }
  ghost predicate At3<F>(a: F, b: F, c: F) { true }

  ghost predicate Lawful<F(!new)>(f: Field<F>) {
    && f.one != f.zero
    && (forall a {:trigger At(a)} :: Add(f, a, f.zero) == a)
    && (forall a {:trigger At(a)} :: Add(f, a, a) == f.zero)
    && (forall a {:trigger At(a)} :: Mul(f, a, f.one) == a)
    && (forall a {:trigger At(a)} :: a != f.zero ==> Mul(f, a, Inv(f, a)) == f.one)
    && (forall a, b {:trigger At2(a, b)} :: Add(f, a, b) == Add(f, b, a))
    && (forall a, b {:trigger At2(a, b)} :: Mul(f, a, b) == Mul(f, b, a))
    && (forall a, b, c {:trigger At3(a, b, c)} :: Add(f, Add(f, a, b), c) == Add(f, a, Add(f, b, c)))
    && (forall a, b, c {:trigger At3(a, b, c)} :: Mul(f, Mul(f, a, b), c) == Mul(f, a, Mul(f, b, c)))
    && (forall a, b, c {:trigger At3(a, b, c)} :: Mul(f, a, Add(f, b, c)) == Add(f, Mul(f, a, b), Mul(f, a, c)))
  }

  lemma AddZero<F(!new)>(f: Field<F>, a: F)
    requires Lawful(f)
    ensures Add(f, a, f.zero) == a && Add(f, f.zero, a) == a
  {
    assert At(a) && At2(a, f.zero);
  }

  lemma AddSelf<F(!new)>(f: Field<F>, a: F)
    requires Lawful(f)
    ensures Add(f, a, a) == f.zero
  {
    assert At(a);
  }

  lemma AddComm<F(!new)>(f: Field<F>, a: F, b: F)
    requires Lawful(f)
    ensures Add(f, a, b) == Add(f, b, a)
  {
    assert At2(a, b);
  }

  lemma AddAssoc<F(!new)>(f: Field<F>, a: F, b: F, c: F)
    requires Lawful(f)
    ensures Add(f, Add(f, a, b), c) == Add(f, a, Add(f, b, c))
  {
    assert At3(a, b, c);
  }

  lemma MulComm<F(!new)>(f: Field<F>, a: F, b: F)
    requires Lawful(f)
    ensures Mul(f, a, b) == Mul(f, b, a)
  {
    assert At2(a, b);
  }

  lemma MulAssoc<F(!new)>(f: Field<F>, a: F, b: F, c: F)
    requires Lawful(f)
    ensures Mul(f, Mul(f, a, b), c) == Mul(f, a, Mul(f, b, c))
  {
    assert At3(a, b, c);
  }

  lemma MulOne<F(!new)>(f: Field<F>, a: F)
    requires Lawful(f)
    ensures Mul(f, a, f.one) == a && Mul(f, f.one, a) == a
  {
    assert At(a) && At2(a, f.one);
  }

  lemma MulInv<F(!new)>(f: Field<F>, a: F)
    requires Lawful(f) && a != f.zero
    ensures Mul(f, a, Inv(f, a)) == f.one && Mul(f, Inv(f, a), a) == f.one
  {
    assert At(a) && At2(a, Inv(f, a));
  }

  lemma Distribute<F(!new)>(f: Field<F>, a: F, b: F, c: F)
    requires Lawful(f)
    ensures Mul(f, a, Add(f, b, c)) == Add(f, Mul(f, a, b), Mul(f, a, c))
    ensures Mul(f, Add(f, b, c), a) == Add(f, Mul(f, b, a), Mul(f, c, a))
  {
    assert At3(a, b, c) && At2(a, Add(f, b, c)) && At2(a, b) && At2(a, c);
  }

  lemma MulZero<F(!new)>(f: Field<F>, a: F)
    requires Lawful(f)
    ensures Mul(f, a, f.zero) == f.zero && Mul(f, f.zero, a) == f.zero
  {
    AddZero(f, f.zero);
    Distribute(f, a, f.zero, f.zero);
    AddSelf(f, Mul(f, a, f.zero));
    MulComm(f, a, f.zero);
  }

  /** (a + b) + (c + d) == (a + c) + (b + d) */
  lemma AddSwap<F(!new)>(f: Field<F>, a: F, b: F, c: F, d: F)
    requires Lawful(f)
    ensures Add(f, Add(f, a, b), Add(f, c, d)) == Add(f, Add(f, a, c), Add(f, b, d))
  {
    calc {
      Add(f, Add(f, a, b), Add(f, c, d));
      { AddAssoc(f, a, b, Add(f, c, d)); }
      Add(f, a, Add(f, b, Add(f, c, d)));
      { AddAssoc(f, b, c, d); AddComm(f, b, c); AddAssoc(f, c, b, d); }
      Add(f, a, Add(f, c, Add(f, b, d)));
      { AddAssoc(f, a, c, Add(f, b, d)); }
      Add(f, Add(f, a, c), Add(f, b, d));
    }
  }

  /** Adding b twice changes nothing. */
  lemma AddCancel<F(!new)>(f: Field<F>, a: F, b: F)
    requires Lawful(f)
    ensures Add(f, Add(f, a, b), b) == a
  {
    AddAssoc(f, a, b, b); AddSelf(f, b); AddZero(f, a);
  }

  lemma EqualIffSumZero<F(!new)>(f: Field<F>, a: F, b: F)
    requires Lawful(f)
    ensures a == b <==> Add(f, a, b) == f.zero
  {
    AddSelf(f, a); AddCancel(f, a, b); AddZero(f, b);
  }

  lemma NoZeroDivisors<F(!new)>(f: Field<F>, a: F, b: F)
    requires Lawful(f)
    ensures Mul(f, a, b) == f.zero <==> a == f.zero || b == f.zero
  {
    MulZero(f, a); MulZero(f, b);
    if a != f.zero && Mul(f, a, b) == f.zero {
      MulInv(f, a); MulAssoc(f, Inv(f, a), a, b); MulOne(f, b); MulZero(f, Inv(f, a));
    }
  }
}
