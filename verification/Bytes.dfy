/** Bytes and their bitwise exclusive or. */
module Bytes {

  type byte = x: int | 0 <= x < 256

  predicate Odd(a: nat) { a % 2 == 1 }

  /** Exclusive or of the binary digits of a and b, for numbers below 2^n. */
  function XorDigits(a: nat, b: nat, n: nat): (r: nat) {
    if n == 0 then 0
    else 2 * XorDigits(a / 2, b / 2, n - 1) + (if Odd(a) == Odd(b) then 0 else 1)
  }

  function Pow2(n: nat): nat { if n == 0 then 1 else 2 * Pow2(n - 1) }

  lemma {:induction false} XorBound(a: nat, b: nat, n: nat)
    ensures XorDigits(a, b, n) < Pow2(n)
  {
    if n > 0 { XorBound(a / 2, b / 2, n - 1); }
  }

  function Xor(a: byte, b: byte): byte {
    XorBound(a, b, 8);
    assert Pow2(8) == 256;
    XorDigits(a, b, 8)
  }

  lemma XorHalf(a: nat, b: nat, n: nat)
    requires n > 0
    ensures XorDigits(a, b, n) / 2 == XorDigits(a / 2, b / 2, n - 1)
    ensures Odd(XorDigits(a, b, n)) == (Odd(a) != Odd(b))
  {}

  lemma {:induction false} XorDigitsComm(a: nat, b: nat, n: nat)
    ensures XorDigits(a, b, n) == XorDigits(b, a, n)
    ensures XorDigits(a, a, n) == 0
    ensures a < Pow2(n) ==> XorDigits(a, 0, n) == a
  {
    if n > 0 { XorDigitsComm(a / 2, b / 2, n - 1); }
  }

  lemma {:induction false} XorDigitsAssoc(a: nat, b: nat, c: nat, n: nat)
    ensures XorDigits(XorDigits(a, b, n), c, n) == XorDigits(a, XorDigits(b, c, n), n)
  {
    if n > 0 {
      var ab, bc := XorDigits(a, b, n), XorDigits(b, c, n);
      XorDigitsAssoc(a / 2, b / 2, c / 2, n - 1);
      XorHalf(a, b, n);
      XorHalf(b, c, n);
      assert XorDigits(ab / 2, c / 2, n - 1) == XorDigits(a / 2, bc / 2, n - 1);
    }
  }

  lemma TopHalf(a: nat, n: nat)
    requires n > 0
    ensures (a + Pow2(n)) / 2 == a / 2 + Pow2(n - 1) && Odd(a + Pow2(n)) == Odd(a)
    ensures a < Pow2(n) ==> a / 2 < Pow2(n - 1)
  {}

  lemma {:induction false} XorPad(a: nat, b: nat, n: nat)
    requires a < Pow2(n) && b < Pow2(n)
    ensures XorDigits(a, b, n + 1) == XorDigits(a, b, n)
  {
    if n > 0 {
      TopHalf(a, n); TopHalf(b, n);
      XorPad(a / 2, b / 2, n - 1);
    }
  }

  /** One more digit on top of a, or of both. */
  lemma {:induction false} XorTop(a: nat, b: nat, n: nat)
    requires a < Pow2(n) && b < Pow2(n)
    ensures XorDigits(a + Pow2(n), b, n + 1) == XorDigits(a, b, n) + Pow2(n)
  {
    if n > 0 {
      TopHalf(a, n); TopHalf(b, n);
      XorTop(a / 2, b / 2, n - 1);
    }
  }

  lemma {:induction false} XorTopBoth(a: nat, b: nat, n: nat)
    requires a < Pow2(n) && b < Pow2(n)
    ensures XorDigits(a + Pow2(n), b + Pow2(n), n + 1) == XorDigits(a, b, n)
  {
    if n > 0 {
      TopHalf(a, n); TopHalf(b, n);
      XorTopBoth(a / 2, b / 2, n - 1);
    }
  }

  lemma XorDouble(a: nat, b: nat, n: nat)
    ensures XorDigits(2 * a, 2 * b, n + 1) == 2 * XorDigits(a, b, n)
  {}

  lemma XorComm(a: byte, b: byte)
    ensures Xor(a, b) == Xor(b, a)
  {
    XorDigitsComm(a, b, 8);
  }

  lemma XorAssoc(a: byte, b: byte, c: byte)
    ensures Xor(Xor(a, b), c) == Xor(a, Xor(b, c))
  {
    XorDigitsAssoc(a, b, c, 8);
  }

  lemma XorSelf(a: byte)
    ensures Xor(a, a) == 0
  {
    XorDigitsComm(a, 0, 8);
  }

  lemma XorZero(a: byte)
    ensures Xor(a, 0) == a && Xor(0, a) == a
  {
    assert Pow2(8) == 256;
    XorDigitsComm(a, 0, 8);
  }

  lemma XorSwap(a: byte, b: byte, c: byte, d: byte)
    ensures Xor(Xor(a, b), Xor(c, d)) == Xor(Xor(a, c), Xor(b, d))
  {
    calc {
      Xor(Xor(a, b), Xor(c, d));
      { XorAssoc(a, b, Xor(c, d)); }
      Xor(a, Xor(b, Xor(c, d)));
      { XorAssoc(b, c, d); XorComm(b, c); XorAssoc(c, b, d); }
      Xor(a, Xor(c, Xor(b, d)));
      { XorAssoc(a, c, Xor(b, d)); }
      Xor(Xor(a, c), Xor(b, d));
    }
  }

  lemma {:induction false} XorPadTo(a: nat, b: nat, n: nat, m: nat)
    requires n <= m && a < Pow2(n) && b < Pow2(n)
    ensures XorDigits(a, b, m) == XorDigits(a, b, n) && Pow2(n) <= Pow2(m)
    decreases m
  {
    if n < m { XorPadTo(a, b, n, m - 1); XorPad(a, b, m - 1); }
  }

  /** Exclusive or with a power of two above a adds it. */
  lemma {:induction false} XorNewTop(a: byte, n: nat)
    requires n < 8 && a < Pow2(n)
    ensures Pow2(n) < 256 && Xor(a, Pow2(n)) == a + Pow2(n)
  {
    XorTop(0, a, n);
    XorDigitsComm(a, 0, n);
    XorDigitsComm(0, a, n);
    XorPadTo(Pow2(n), a, n + 1, 8);
    assert Pow2(8) == 256;
    XorComm(a, Pow2(n));
  }
}
