/** The field GF(2^8): polynomials over GF(2) of degree below eight, modulo
    1 + x^2 + x^3 + x^4 + x^8. Digit i of an element is its coefficient of x^i. */
module GF256 {
  import opened Bytes
  import B = BitProducts

  type gf = byte

  /** x * a: one shift, reduced by the field polynomial. */
  function Xtime(a: gf): gf { if a < 128 then 2 * a else Xor(2 * (a - 128), 29) }

  /** The n lowest coefficients of b, lowest power first. */
  function Coefficients(b: nat, n: nat): (r: seq<bool>)
    ensures |r| == n
  {
    if n == 0 then [] else [Odd(b)] + Coefficients(b / 2, n - 1)
  }

  function Polynomials(): B.Space<gf> { B.Space(0, (a: gf, b: gf) => Xor(a, b), (a: gf) => Xtime(a)) }

  /** Multiplication modulo the field polynomial: the sum of x^i * a over the powers x^i in b. */
  function Times(a: gf, b: gf): gf { B.Product(Polynomials(), a, Coefficients(b, 8)) }

  lemma {:induction false} XorLow(l: nat, m: nat)
    requires l < 128 && m < 128
    ensures Xor(l, m) == XorDigits(l, m, 7) < 128
  {
    assert Pow2(7) == 128;
    XorBound(l, m, 7);
    XorPad(l, m, 7);
  }

  lemma XorOneHigh(l: nat, m: nat)
    requires l < 128 && m < 128
    ensures Xor(l + 128, m) == Xor(l, m) + 128
  {
    assert Pow2(7) == 128;
    XorLow(l, m);
    XorTop(l, m, 7);
  }

  lemma XorTwoHigh(l: nat, m: nat)
    requires l < 128 && m < 128
    ensures Xor(l + 128, m + 128) == Xor(l, m)
  {
    assert Pow2(7) == 128;
    XorLow(l, m);
    XorTopBoth(l, m, 7);
  }

  lemma XorTwice(l: nat, m: nat)
    requires l < 128 && m < 128
    ensures Xor(2 * l, 2 * m) == 2 * Xor(l, m)
  {
    XorLow(l, m);
    XorDouble(l, m, 7);
  }

  lemma XtimeXor(a: gf, b: gf)
    ensures Xtime(Xor(a, b)) == Xor(Xtime(a), Xtime(b))
  {
    var l, m := if a < 128 then a else a - 128, if b < 128 then b else b - 128;
    XorLow(l, m); XorOneHigh(l, m); XorOneHigh(m, l); XorTwoHigh(l, m); XorTwice(l, m);
    XorComm(l, m); XorComm(l, m + 128);
    var ra, rb := if a < 128 then 0 else 29, if b < 128 then 0 else 29;
    XorZero(2 * l); XorZero(2 * m); XorZero(2 * Xor(l, m));
    XorSelf(29); XorZero(29); XorZero(0);
    XorSwap(2 * l, ra, 2 * m, rb);
  }

  lemma PolynomialsAdd()
    ensures B.AddLaws(Polynomials())
  {
    var s := Polynomials();
    forall a: gf, b: gf, c: gf, d: gf
      ensures B.Add(s, B.Add(s, a, b), B.Add(s, c, d)) == B.Add(s, B.Add(s, a, c), B.Add(s, b, d))
    {
      XorSwap(a, b, c, d);
    }
    forall a: gf
      ensures B.Add(s, s.zero, a) == a && B.Add(s, a, s.zero) == a && B.Add(s, a, a) == s.zero
    {
      XorZero(a); XorSelf(a);
    }
  }

  lemma PolynomialsShift()
    ensures B.ShiftLaw(Polynomials())
  {
    var s := Polynomials();
    forall a: gf, b: gf ensures B.Shift(s, B.Add(s, a, b)) == B.Add(s, B.Shift(s, a), B.Shift(s, b)) {
      XtimeXor(a, b);
    }
  }

  lemma {:induction false} CoefficientsXor(a: nat, b: nat, n: nat)
    ensures Coefficients(XorDigits(a, b, n), n) == B.XorBits(Coefficients(a, n), Coefficients(b, n))
  {
    if n > 0 {
      CoefficientsXor(a / 2, b / 2, n - 1);
      XorHalf(a, b, n);
    }
  }

  lemma {:induction false} NoCoefficients(n: nat)
    ensures forall i :: 0 <= i < n ==> !Coefficients(0, n)[i]
  {
    if n > 0 { NoCoefficients(n - 1); }
  }

  lemma TimesXor(a: gf, b: gf, c: gf)
    ensures Times(a, Xor(b, c)) == Xor(Times(a, b), Times(a, c))
  {
    PolynomialsAdd(); PolynomialsShift();
    CoefficientsXor(b, c, 8);
    B.ProductXor(Polynomials(), a, Coefficients(b, 8), Coefficients(c, 8));
  }

  lemma TimesZero(a: gf)
    ensures Times(a, 0) == 0
  {
    PolynomialsAdd(); PolynomialsShift();
    NoCoefficients(8);
    B.ProductNone(Polynomials(), a, Coefficients(0, 8));
  }

  lemma ZeroTimes(b: gf)
    ensures Times(0, b) == 0
  {
    PolynomialsAdd(); PolynomialsShift();
    B.ProductOfZero(Polynomials(), Coefficients(b, 8));
  }

  lemma TimesXtime(a: gf, b: gf)
    ensures Times(Xtime(a), b) == Xtime(Times(a, b))
  {
    PolynomialsAdd(); PolynomialsShift();
    B.ProductOfShift(Polynomials(), a, Coefficients(b, 8));
  }

  lemma {:induction false} XorLowestDigit(e: nat, g: nat, n: nat)
    requires e < 2 && n > 0 && g < Pow2(n - 1)
    ensures XorDigits(e, 2 * g, n) == e + 2 * g
  {
    ZeroXor(g, n - 1);
    assert e / 2 == 0 && 2 * g / 2 == g && !Odd(2 * g);
  }

  lemma {:induction false} ZeroXor(g: nat, n: nat)
    requires g < Pow2(n)
    ensures XorDigits(0, g, n) == g
  {
    XorDigitsComm(g, 0, n);
  }

  lemma XorLowest(e: nat, g: nat)
    requires e < 2 && g < 128
    ensures Xor(e, 2 * g) == e + 2 * g
  {
    assert Pow2(7) == 128;
    XorLowestDigit(e, g, 8);
  }

  lemma {:induction false} OneTimesDigits(h: nat, n: nat)
    requires n <= 8 && h < Pow2(n)
    ensures B.Product(Polynomials(), 1, Coefficients(h, n)) == h
  {
    if n > 0 {
      var s, g, e := Polynomials(), h / 2, if Odd(h) then 1 else 0;
      OneTimesDigits(g, n - 1);
      PolynomialsAdd(); PolynomialsShift();
      B.ProductOfShift(s, 1, Coefficients(g, n - 1));
      assert Coefficients(h, n)[1..] == Coefficients(g, n - 1);
      assert g < 128 by { Pow2Bound(n - 1, 7); assert Pow2(7) == 128; }
      XorLowest(e, g);
    }
  }

  lemma {:induction false} Pow2Bound(m: nat, n: nat)
    requires m <= n
    ensures Pow2(m) <= Pow2(n)
  {
    if m < n { Pow2Bound(m, n - 1); }
  }

  lemma OneTimes(b: gf)
    ensures Times(1, b) == b
  {
    assert Pow2(8) == 256;
    OneTimesDigits(b, 8);
  }

  // ----- x generates the non-zero elements

  /** x^i */
  ghost function Exp(i: nat): gf {
    if i == 0 then 1
    else
      // choosing the predecessor keeps Exp(255) from being unfolded all the way down
      var j: nat :| j + 1 == i;
      Xtime(Exp(j))
  }

  lemma ExpNext(i: nat)
    ensures Exp(i + 1) == Xtime(Exp(i))
  {}

  lemma {:induction false} ExpTimes(i: nat, j: nat)
    ensures Times(Exp(i), Exp(j)) == Exp(i + j)
  {
    if i == 0 {
      OneTimes(Exp(j));
    } else {
      ExpTimes(i - 1, j);
      ExpNext(i - 1);
      ExpNext(i - 1 + j);
      TimesXtime(Exp(i - 1), Exp(j));
    }
  }
}
