/** x generates the non-zero elements of GF(2^8): its first 255 powers are all of them. */
module Generator {
  import opened Bytes
  import opened Counting
  import opened Fields
  import opened GF256
  import Polynomials

  function D(b: bool): nat { if b then 1 else 0 }

  /** The byte with the given binary digits, lowest first. */
  function Val(b0: bool, b1: bool, b2: bool, b3: bool, b4: bool, b5: bool, b6: bool, b7: bool): gf {
    D(b0) + 2 * (D(b1) + 2 * (D(b2) + 2 * (D(b3) + 2 * (D(b4) + 2 * (D(b5) + 2 * (D(b6) + 2 * D(b7)))))))
  }

  /** x^n times the polynomial with the given coefficients. */
  function Run(b0: bool, b1: bool, b2: bool, b3: bool, b4: bool, b5: bool, b6: bool, b7: bool, n: nat): gf
    decreases n
  {
    if n == 0 then Val(b0, b1, b2, b3, b4, b5, b6, b7)
    else Run(b7, b0, b1 != b7, b2 != b7, b3 != b7, b4, b5, b6, n - 1)
  }

  lemma XorCons(d: bool, a: nat, e: bool, b: nat, n: nat)
    ensures XorDigits(D(d) + 2 * a, D(e) + 2 * b, n + 1) == D(d != e) + 2 * XorDigits(a, b, n)
  {
    var x, y := D(d) + 2 * a, D(e) + 2 * b;
    assert x / 2 == a && Odd(x) == d && y / 2 == b && Odd(y) == e;
  }

  // Adding the lower part of the field polynomial, 29 == 1 + 4 + 8 + 16, digit by digit; t is true.
  lemma XorNext(b: bool, e: bool, a: nat, c: nat, r: nat, n: nat)
    requires XorDigits(a, c, n) == r
    ensures XorDigits(D(b) + 2 * a, D(e) + 2 * c, n + 1) == D(b != e) + 2 * r
  {
    XorCons(b, a, e, c, n);
  }

  lemma {:induction false} Reduce4(h: nat, b: bool, t: bool)
    requires h < 8 && t
    ensures XorDigits(D(b) + 2 * h, D(t), 4) == D(b != t) + 2 * h
  {
    assert Pow2(3) == 8;
    XorDigitsComm(h, 0, 3);
    XorNext(b, t, h, 0, h, 3);
  }

  lemma Reduce5(h: nat, b2: bool, b3: bool, t: bool)
    requires h < 8 && t
    ensures XorDigits(D(b2) + 2 * (D(b3) + 2 * h), 3, 5) == D(b2 != t) + 2 * (D(b3 != t) + 2 * h)
  {
    Reduce4(h, b3, t);
    XorNext(b2, t, D(b3) + 2 * h, 1, D(b3 != t) + 2 * h, 4);
  }

  lemma Reduce6(h: nat, b1: bool, b2: bool, b3: bool, t: bool)
    requires h < 8 && t
    ensures XorDigits(D(b1) + 2 * (D(b2) + 2 * (D(b3) + 2 * h)), 7, 6)
         == D(b1 != t) + 2 * (D(b2 != t) + 2 * (D(b3 != t) + 2 * h))
  {
    Reduce5(h, b2, b3, t);
    XorNext(b1, t, D(b2) + 2 * (D(b3) + 2 * h), 3, D(b2 != t) + 2 * (D(b3 != t) + 2 * h), 5);
  }

  lemma {:induction false} Reduce8(a: nat, r: nat, b0: bool, t: bool)
    requires XorDigits(a, 7, 6) == r && t
    ensures XorDigits(2 * (D(b0) + 2 * a), 29, 8) == D(t) + 2 * (D(b0) + 2 * r)
  {
    XorNext(b0, false, a, 7, r, 6);
    XorNext(false, t, D(b0) + 2 * a, 14, D(b0 != false) + 2 * r, 7);
  }

  lemma {:induction false} XtimeHigh(low: nat)
    requires low < 128
    ensures Xtime(low + 128) == XorDigits(2 * low, 29, 8)
  {}

  lemma {:induction false} XtimeOfHigh(a: nat, r: nat, b0: bool, t: bool, v: gf)
    requires XorDigits(a, 7, 6) == r && t && a < 64
    requires v == D(b0) + 2 * a + 128
    ensures Xtime(v) == D(t) + 2 * (D(b0) + 2 * r)
  {
    Reduce8(a, r, b0, t);
    XtimeHigh(D(b0) + 2 * a);
  }

  lemma XtimeValHigh(b0: bool, b1: bool, b2: bool, b3: bool, h: nat, t: bool, v: gf)
    requires h < 8 && t
    requires v == D(b0) + 2 * (D(b1) + 2 * (D(b2) + 2 * (D(b3) + 2 * h))) + 128
    ensures Xtime(v) == D(t) + 2 * (D(b0) + 2 * (D(b1 != t) + 2 * (D(b2 != t) + 2 * (D(b3 != t) + 2 * h))))
  {
    Reduce6(h, b1, b2, b3, t);
    XtimeOfHigh(D(b1) + 2 * (D(b2) + 2 * (D(b3) + 2 * h)), D(b1 != t) + 2 * (D(b2 != t) + 2 * (D(b3 != t) + 2 * h)), b0, t, v);
  }

  lemma XtimeValLow(b0: bool, b1: bool, b2: bool, b3: bool, b4: bool, b5: bool, b6: bool)
    ensures Xtime(Val(b0, b1, b2, b3, b4, b5, b6, false)) == Val(false, b0, b1, b2, b3, b4, b5, b6)
  {
    assert Xtime(Val(b0, b1, b2, b3, b4, b5, b6, false)) == 2 * Val(b0, b1, b2, b3, b4, b5, b6, false);
  }

  lemma XtimeVal(b0: bool, b1: bool, b2: bool, b3: bool, b4: bool, b5: bool, b6: bool, b7: bool)
    ensures Xtime(Val(b0, b1, b2, b3, b4, b5, b6, b7)) == Val(b7, b0, b1 != b7, b2 != b7, b3 != b7, b4, b5, b6)
  {
    if b7 {
      var v := Val(b0, b1, b2, b3, b4, b5, b6, b7);
      XtimeValHigh(b0, b1, b2, b3, D(b4) + 2 * (D(b5) + 2 * D(b6)), b7, v);
    } else {
      XtimeValLow(b0, b1, b2, b3, b4, b5, b6);
      assert (b1 != b7) == b1 && (b2 != b7) == b2 && (b3 != b7) == b3;
    }
  }

  lemma {:induction false} RunExp(i: nat, b0: bool, b1: bool, b2: bool, b3: bool, b4: bool, b5: bool, b6: bool, b7: bool, n: nat)
    requires Exp(i) == Val(b0, b1, b2, b3, b4, b5, b6, b7)
    ensures Exp(i + n) == Run(b0, b1, b2, b3, b4, b5, b6, b7, n)
    decreases n
  {
    if n > 0 {
      XtimeVal(b0, b1, b2, b3, b4, b5, b6, b7);
      RunExp(i + 1, b7, b0, b1 != b7, b2 != b7, b3 != b7, b4, b5, b6, n - 1);
    }
  }
  function Keep(a: nat, p: nat): nat { if a >= p then a - p else a }

  /** x^n * a, computed on the digits of a. */
  function JumpBy(a: gf, n: nat): gf {
    var a7 := Keep(a, 128);
    var a6 := Keep(a7, 64);
    var a5 := Keep(a6, 32);
    var a4 := Keep(a5, 16);
    var a3 := Keep(a4, 8);
    var a2 := Keep(a3, 4);
    var a1 := Keep(a2, 2);
    Run(a1 >= 1, a2 >= 2, a3 >= 4, a4 >= 8, a5 >= 16, a6 >= 32, a7 >= 64, a >= 128, n)
  }

  function Jump(a: gf): gf { JumpBy(a, 8) }

  lemma LowDigits(a: nat)
    requires a < 16
    ensures var a3 := Keep(a, 8); var a2 := Keep(a3, 4); var a1 := Keep(a2, 2);
            a == D(a1 >= 1) + 2 * (D(a2 >= 2) + 2 * (D(a3 >= 4) + 2 * D(a >= 8)))
  {}

  lemma HighDigits(a: gf)
    ensures var a7 := Keep(a, 128); var a6 := Keep(a7, 64); var a5 := Keep(a6, 32); var a4 := Keep(a5, 16);
            a4 < 16 && a == a4 + 16 * (D(a5 >= 16) + 2 * (D(a6 >= 32) + 2 * (D(a7 >= 64) + 2 * D(a >= 128))))
  {}

  lemma AllDigits(a: gf)
    ensures var a7 := Keep(a, 128); var a6 := Keep(a7, 64); var a5 := Keep(a6, 32); var a4 := Keep(a5, 16);
            var a3 := Keep(a4, 8); var a2 := Keep(a3, 4); var a1 := Keep(a2, 2);
            a == Val(a1 >= 1, a2 >= 2, a3 >= 4, a4 >= 8, a5 >= 16, a6 >= 32, a7 >= 64, a >= 128)
  {
    HighDigits(a);
    LowDigits(Keep(Keep(Keep(Keep(a, 128), 64), 32), 16));
  }

  lemma JumpExp(i: nat, a: gf, n: nat)
    requires Exp(i) == a
    ensures Exp(i + n) == JumpBy(a, n)
  {
    AllDigits(a);
    var a7 := Keep(a, 128);
    var a6 := Keep(a7, 64);
    var a5 := Keep(a6, 32);
    var a4 := Keep(a5, 16);
    var a3 := Keep(a4, 8);
    var a2 := Keep(a3, 4);
    var a1 := Keep(a2, 2);
    RunExp(i, a1 >= 1, a2 >= 2, a3 >= 4, a4 >= 8, a5 >= 16, a6 >= 32, a7 >= 64, a >= 128, n);
  }

  /** x^0, x^8, x^16, ..., x^256 */
  const EVERY_EIGHTH: seq<gf> := [
    1, 29, 76, 143, 157, 106, 70, 93, 95, 101, 253,
    254, 217, 13, 129, 59, 133, 79, 168, 73, 230, 252,
    227, 149, 130, 28, 81, 195, 18, 247, 44, 27, 2
  ]

  lemma Jumps0()
    ensures forall k :: 0 <= k < 4 ==> Jump(EVERY_EIGHTH[k]) == EVERY_EIGHTH[k + 1]
  {
    assert Jump(1) == 29 && Jump(29) == 76 && Jump(76) == 143 && Jump(143) == 157;
  }

  lemma Jumps1()
    ensures forall k :: 4 <= k < 8 ==> Jump(EVERY_EIGHTH[k]) == EVERY_EIGHTH[k + 1]
  {
    assert Jump(157) == 106 && Jump(106) == 70 && Jump(70) == 93 && Jump(93) == 95;
  }

  lemma Jumps2()
    ensures forall k :: 8 <= k < 12 ==> Jump(EVERY_EIGHTH[k]) == EVERY_EIGHTH[k + 1]
  {
    assert Jump(95) == 101 && Jump(101) == 253 && Jump(253) == 254 && Jump(254) == 217;
  }

  lemma Jumps3()
    ensures forall k :: 12 <= k < 16 ==> Jump(EVERY_EIGHTH[k]) == EVERY_EIGHTH[k + 1]
  {
    assert Jump(217) == 13 && Jump(13) == 129 && Jump(129) == 59 && Jump(59) == 133;
  }

  lemma Jumps4()
    ensures forall k :: 16 <= k < 20 ==> Jump(EVERY_EIGHTH[k]) == EVERY_EIGHTH[k + 1]
  {
    assert Jump(133) == 79 && Jump(79) == 168 && Jump(168) == 73 && Jump(73) == 230;
  }

  lemma Jumps5()
    ensures forall k :: 20 <= k < 24 ==> Jump(EVERY_EIGHTH[k]) == EVERY_EIGHTH[k + 1]
  {
    assert Jump(230) == 252 && Jump(252) == 227 && Jump(227) == 149 && Jump(149) == 130;
  }

  lemma Jumps6()
    ensures forall k :: 24 <= k < 28 ==> Jump(EVERY_EIGHTH[k]) == EVERY_EIGHTH[k + 1]
  {
    assert Jump(130) == 28 && Jump(28) == 81 && Jump(81) == 195 && Jump(195) == 18;
  }

  lemma Jumps7()
    ensures forall k :: 28 <= k < 32 ==> Jump(EVERY_EIGHTH[k]) == EVERY_EIGHTH[k + 1]
  {
    assert Jump(18) == 247 && Jump(247) == 44 && Jump(44) == 27 && Jump(27) == 2;
  }

  lemma {:induction false} EveryEighth(k: nat)
    requires k <= 32
    ensures Exp(8 * k) == EVERY_EIGHTH[k]
  {
    if k > 0 {
      EveryEighth(k - 1);
      JumpExp(8 * (k - 1), EVERY_EIGHTH[k - 1], 8);
      Jumps0(); Jumps1(); Jumps2(); Jumps3(); Jumps4(); Jumps5(); Jumps6(); Jumps7();
    }
  }

  lemma XtimeInjective(a: gf, b: gf)
    requires Xtime(a) == Xtime(b)
    ensures a == b
  {
    XtimeXor(a, b);
    XorSelf(Xtime(a));
    if Xor(a, b) != 0 { XtimeNonzero(Xor(a, b)); }
    XorAssoc(a, b, b); XorSelf(b); XorZero(a); XorZero(b);
  }

  lemma XtimeNonzero(a: gf)
    requires a != 0
    ensures Xtime(a) != 0
  {
    if a >= 128 { XorHalf(2 * (a - 128), 29, 8); }
  }

  lemma {:induction false} ExpNonzero(i: nat)
    ensures Exp(i) != 0
  {
    if i > 0 { ExpNonzero(i - 1); XtimeNonzero(Exp(i - 1)); }
  }

  lemma Exp255()
    ensures Exp(255) == 1
  {
    EveryEighth(32);
    XtimeInjective(Exp(255), 1);
  }

  lemma CycleOnce(d: nat, t: nat)
    ensures Exp(d) == 1 ==> Exp(d + t) == Exp(t)
  {
    ExpTimes(d, t);
    OneTimes(Exp(t));
  }

  lemma OneMore(m: nat, d: nat, r: nat)
    requires m > 0
    ensures (m - 1) * d >= 0 && m * d + r == d + ((m - 1) * d + r)
  {}

  lemma {:induction false} CycleMultiple(d: nat, m: nat, r: nat)
    requires Exp(d) == 1
    ensures Exp(m * d + r) == Exp(r)
  {
    if m > 0 {
      CycleMultiple(d, m - 1, r);
      OneMore(m, d, r);
      CycleOnce(d, (m - 1) * d + r);
    }
  }

  lemma DivisorsOf255(d: nat, e: nat)
    requires d * e == 255 && d < 255
    ensures 15 % d == 0 || 51 % d == 0 || 85 % d == 0
  {
    assert d != 0 && e > 1;
    if d < 16 {
      SmallDivisor(d, e);
    } else {
      assert e < 16 by { if e >= 16 { MulMonotone(16, 16, d, e); } }
      SmallDivisor(e, d);
    }
  }

  lemma MulMonotone(a: nat, b: nat, c: nat, d: nat)
    requires a <= c && b <= d
    ensures a * b <= c * d
  {
    assert a * b <= c * b <= c * d;
  }

  lemma SmallDivisor(d: nat, e: nat)
    requires d < 16 && d * e == 255
    ensures (d == 1 && e == 255) || (d == 3 && e == 85) || (d == 5 && e == 51) || (d == 15 && e == 17)
  {
    if d == 0 || d == 2 || d == 4 || d == 6 || d == 8 || d == 10 || d == 12 || d == 14 {
    } else if d == 1 || d == 3 || d == 5 || d == 15 {
    } else if d == 7 || d == 9 {
    } else if d == 11 {
    }
  }

  lemma ShortCycleOf(d: nat, n: nat, r: nat)
    requires d > 0 && Exp(d) == 1
    ensures n % d == 0 ==> Exp(n + r) == Exp(r)
  {
    if n % d == 0 {
      assert n == (n / d) * d;
      CycleMultiple(d, n / d, r);
    }
  }

  lemma FirstExps()
    ensures Exp(1) == 2 && Exp(3) == 8 && Exp(5) == 32
  {
    assert Exp(2) == 4 && Exp(4) == 16;
  }

  lemma {:induction false} NoCycleDividing(d: nat)
    requires d > 0 && (15 % d == 0 || 51 % d == 0 || 85 % d == 0)
    ensures Exp(d) != 1
  {
    if Exp(d) == 1 {
      FirstExps();
      if 15 % d == 0 {
        ShortCycleOf(d, 15, 1); Exp16();
      } else if 51 % d == 0 {
        ShortCycleOf(d, 51, 5); Exp56();
      } else {
        ShortCycleOf(d, 85, 3); Exp88();
      }
    }
  }

  lemma Exp16() ensures Exp(16) == 76 { EveryEighth(2); }
  lemma Exp56() ensures Exp(56) == 93 { EveryEighth(7); }
  lemma Exp88() ensures Exp(88) == 254 { EveryEighth(11); }

  /** No power of x between the first and the 255th is one. */
  lemma {:induction false} NoShortCycle(d: nat)
    requires 0 < d < 255
    ensures Exp(d) != 1
    decreases d
  {
    var m, r := 255 / d, 255 % d;
    assert 255 == m * d + r;
    if r > 0 {
      NoShortCycle(r);
      if Exp(d) == 1 {
        CycleMultiple(d, m, r);
        Exp255();
      }
    } else {
      DivisorsOf255(d, m);
      NoCycleDividing(d);
    }
  }

  lemma {:induction false} ExpInjective(i: nat, j: nat)
    requires i < j < 255
    ensures Exp(i) != Exp(j)
  {
    if Exp(i) == Exp(j) {
      ExpTimes(255 - i, i);
      ExpTimes(255 - i, j);
      Exp255();
      ExpTimes(255, j - i);
      OneTimes(Exp(j - i));
      NoShortCycle(j - i);
    }
  }

  // ----- 255 distinct non-zero elements are all of them

  ghost function FirstPowers(n: nat): set<nat> { set i: nat | i < n :: Exp(i) }

  lemma {:induction false} CountPowers(n: nat)
    requires n <= 255
    ensures |FirstPowers(n)| == n
  {
    if n > 0 {
      CountPowers(n - 1);
      forall i: nat | i < n - 1 ensures Exp(i) != Exp(n - 1) { ExpInjective(i, n - 1); }
      assert FirstPowers(n) == FirstPowers(n - 1) + {Exp(n - 1)};
    }
  }

  lemma ExpOnto(a: gf)
    requires a != 0
    ensures exists i: nat :: i < 255 && Exp(i) == a
  {
    CountPowers(255);
    var nonzero := PositiveBelow(256);
    forall b | b in FirstPowers(255) ensures b in nonzero {
      var i: nat :| i < 255 && Exp(i) == b;
      ExpNonzero(i);
    }
    SubsetSize(FirstPowers(255), nonzero);
    assert a in nonzero;
  }

  ghost function Log(a: gf): (i: nat)
    requires a != 0
    ensures i < 255 && Exp(i) == a
  {
    ExpOnto(a);
    var i: nat :| i < 255 && Exp(i) == a;
    i
  }

  // ----- the field

  ghost function Inverse(a: gf): gf { if a == 0 then 0 else Exp(255 - Log(a)) }

  ghost function GF(): Field<gf> {
    Field(0, 1, (a: gf, b: gf) => Xor(a, b), (a: gf, b: gf) => Times(a, b), (a: gf) => Inverse(a))
  }

  lemma TimesComm(a: gf, b: gf)
    ensures Times(a, b) == Times(b, a)
  {
    if a == 0 {
      ZeroTimes(b); TimesZero(b);
    } else if b == 0 {
      ZeroTimes(a); TimesZero(a);
    } else {
      ExpTimes(Log(a), Log(b)); ExpTimes(Log(b), Log(a));
    }
  }

  lemma {:induction false} ExpAssoc(i: nat, j: nat, k: nat)
    ensures Times(Times(Exp(i), Exp(j)), Exp(k)) == Times(Exp(i), Times(Exp(j), Exp(k)))
  {
    ExpTimesLeft(i, j, k);
    ExpTimesRight(i, j, k);
  }

  lemma ExpTimesLeft(i: nat, j: nat, k: nat)
    ensures Times(Times(Exp(i), Exp(j)), Exp(k)) == Exp(i + j + k)
  {
    ExpTimes(i, j); ExpTimes(i + j, k);
  }

  lemma ExpTimesRight(i: nat, j: nat, k: nat)
    ensures Times(Exp(i), Times(Exp(j), Exp(k))) == Exp(i + j + k)
  {
    ExpTimes(j, k); ExpTimes(i, j + k);
  }

  lemma TimesAssoc(a: gf, b: gf, c: gf)
    ensures Times(Times(a, b), c) == Times(a, Times(b, c))
  {
    if a == 0 {
      ZeroTimes(b); ZeroTimes(c); ZeroTimes(Times(b, c));
    } else if b == 0 {
      TimesZero(a); ZeroTimes(c);
    } else if c == 0 {
      TimesZero(b); TimesZero(a); TimesZero(Times(a, b));
    } else {
      ExpAssoc(Log(a), Log(b), Log(c));
    }
  }

  lemma TimesInverse(a: gf)
    requires a != 0
    ensures Times(a, Inverse(a)) == 1
  {
    ExpTimes(Log(a), 255 - Log(a));
    Exp255();
  }

  lemma TimesOne(a: gf)
    ensures Times(a, 1) == a
  {
    OneTimes(a); TimesComm(a, 1);
  }

  /** Bytes under exclusive or and polynomial multiplication are a field. */
  lemma GFLawful()
    ensures Lawful(GF())
  {
    var f := GF();
    forall a: gf
      ensures Add(f, a, f.zero) == a && Add(f, a, a) == f.zero && Mul(f, a, f.one) == a
      ensures a != f.zero ==> Mul(f, a, Inv(f, a)) == f.one
    {
      XorZero(a); XorSelf(a); TimesOne(a);
      if a != 0 { TimesInverse(a); }
    }
    forall a: gf, b: gf ensures Add(f, a, b) == Add(f, b, a) && Mul(f, a, b) == Mul(f, b, a) {
      XorComm(a, b); TimesComm(a, b);
    }
    forall a: gf, b: gf, c: gf
      ensures Add(f, Add(f, a, b), c) == Add(f, a, Add(f, b, c))
      ensures Mul(f, Mul(f, a, b), c) == Mul(f, a, Mul(f, b, c))
      ensures Mul(f, a, Add(f, b, c)) == Add(f, Mul(f, a, b), Mul(f, a, c))
    {
      XorAssoc(a, b, c); TimesAssoc(a, b, c); TimesXor(a, b, c);
    }
  }

  lemma ExpWrap(i: nat)
    ensures Exp(255 + i) == Exp(i)
  {
    Exp255();
    CycleOnce(255, i);
  }

  lemma {:induction false} ExpMod(i: nat)
    ensures Exp(i % 255) == Exp(i)
  {
    if i >= 255 {
      ExpMod(i - 255);
      ExpWrap(i - 255);
      ModDown(i);
    }
  }

  lemma ModDown(i: nat)
    requires i >= 255
    ensures i % 255 == (i - 255) % 255 && i - 255 + 255 == i
  {}

  lemma XtimeByTable(v: gf)
    requires v >= 128
    ensures Xor(v, 128) == v - 128 && Xor(29, 2 * (v - 128)) == Xtime(v)
  {
    assert Pow2(7) == 128;
    XorNewTop(v - 128, 7);
    XorAssoc(v - 128, 128, 128); XorSelf(128); XorZero(v - 128);
    XorComm(29, 2 * (v - 128));
  }

  // ----- what the tables are to hold

  ghost predicate Entry(i: int) { true }
  ghost predicate Pair(a: int, b: int) { true }

  /** powers and logs list the powers of x and their logarithms, and f is the field. The facts
      about single entries are instantiated only by the lemmas below. */
  ghost predicate Describes(f: Field<gf>, powers: seq<gf>, logs: seq<nat>) {
    && Lawful(f) && f.zero == 0 && f.one == 1
    && |powers| == 510 && |logs| == 256 && logs[0] == 255
    && (forall i: nat {:trigger Entry(i)} :: i < 510 ==> powers[i] == Exp(i))
    && (forall a: gf {:trigger Entry(a)} :: a != 0 ==> logs[a] == Log(a) && Inv(f, a) == Inverse(a))
    && (forall a: gf, b: gf {:trigger Pair(a, b)} :: Add(f, a, b) == Xor(a, b) && Mul(f, a, b) == Times(a, b))
  }

  ghost function Powers(): (p: seq<gf>)
    ensures |p| == 510 && forall i: nat :: i < 510 ==> p[i] == Exp(i)
  {
    seq(510, i requires 0 <= i < 510 => Exp(i))
  }

  ghost function Logs(): (p: seq<nat>)
    ensures |p| == 256 && p[0] == 255 && forall a: gf :: a != 0 ==> p[a] == Log(a)
  {
    seq(256, a requires 0 <= a < 256 => if a == 0 then 255 else Log(a))
  }

  lemma DescribesAll()
    ensures Describes(GF(), Powers(), Logs())
  {
    var f, powers, logs := GF(), Powers(), Logs();
    GFLawful();
    forall i: nat | i < 510 ensures powers[i] == Exp(i) {}
    forall a: gf | a != 0 ensures logs[a] == Log(a) && Inv(f, a) == Inverse(a) {}
    forall a: gf, b: gf ensures Add(f, a, b) == Xor(a, b) && Mul(f, a, b) == Times(a, b) {}
  }

  /** One table step: the power after v, given that x^8 is 29. */
  lemma NextPower(f: Field<gf>, powers: seq<gf>, logs: seq<nat>, i: nat)
    requires Describes(f, powers, logs) && i + 1 < 510
    ensures var v := powers[i];
            if v >= 128 then Xor(v, 128) == v - 128 && Xor(29, 2 * (v - 128)) == powers[i + 1] else 2 * v == powers[i + 1]
  {
    assert Entry(i) && Entry(i + 1);
    if powers[i] >= 128 { XtimeByTable(powers[i]); }
  }

  lemma {:induction false} SmallPower(f: Field<gf>, powers: seq<gf>, logs: seq<nat>, i: nat)
    requires Describes(f, powers, logs) && i < 8
    ensures powers[i] == Pow2(i)
  {
    assert Entry(i);
    SmallExp(i);
  }

  lemma {:induction false} SmallExp(i: nat)
    requires i < 8
    ensures Exp(i) == Pow2(i) < 256
  {
    assert Pow2(7) == 128;
    if i > 0 { SmallExp(i - 1); Pow2Bound(i, 7); }
  }

  lemma EighthPower(f: Field<gf>, powers: seq<gf>, logs: seq<nat>)
    requires Describes(f, powers, logs)
    ensures powers[8] == 29
  {
    assert Entry(8);
    EveryEighth(1);
  }

  lemma PowersWrap(f: Field<gf>, powers: seq<gf>, logs: seq<nat>, i: nat)
    requires Describes(f, powers, logs) && i < 255
    ensures powers[i + 255] == powers[i]
  {
    assert Entry(i) && Entry(i + 255);
    ExpWrap(i);
  }

  lemma PowersDistinct(f: Field<gf>, powers: seq<gf>, logs: seq<nat>, i: nat)
    requires Describes(f, powers, logs) && i < 255
    ensures powers[i] != 0 && forall j :: 0 <= j < i ==> powers[j] != powers[i]
  {
    assert Entry(i);
    ExpNonzero(i);
    forall j: nat | j < i ensures powers[j] != powers[i] { assert Entry(j); ExpInjective(j, i); }
  }

  lemma LogPower(f: Field<gf>, powers: seq<gf>, logs: seq<nat>, a: gf)
    requires Describes(f, powers, logs) && a != 0
    ensures logs[a] < 255 && powers[logs[a]] == a && powers[255 - logs[a]] == Inv(f, a)
  {
    assert Entry(a);
    var l := Log(a);
    assert logs[a] == l && Entry(l);
    var i: nat := 255 - l;
    assert Entry(i);
    assert powers[i] == Exp(i);
    assert Inverse(a) == Exp(i);
  }

  lemma ProductByLogs(f: Field<gf>, powers: seq<gf>, logs: seq<nat>, a: gf, b: gf)
    requires Describes(f, powers, logs)
    ensures a != 0 && b != 0 ==> powers[(logs[a] + logs[b]) % 255] == Mul(f, a, b)
    ensures a == 0 || b == 0 ==> Mul(f, a, b) == 0
  {
    MulZero(f, a); MulZero(f, b);
    if a != 0 && b != 0 {
      assert Entry(a) && Entry(b) && Pair(a, b);
      var n: nat := (logs[a] + logs[b]) % 255;
      assert Entry(n);
      ExpTimes(Log(a), Log(b));
      ExpMod(Log(a) + Log(b));
    }
  }

  lemma {:induction false} PowIsExp(f: Field<gf>, powers: seq<gf>, logs: seq<nat>, row: nat, col: nat)
    requires Describes(f, powers, logs)
    ensures Polynomials.Pow(f, Exp(row), col) == Exp(row * col)
  {
    if col > 0 {
      PowIsExp(f, powers, logs, row, col - 1);
      ExpTimes(row, row * (col - 1));
      assert Pair(Exp(row), Exp(row * (col - 1)));
      assert row + row * (col - 1) == row * col;
    }
  }

  /** The table entry for a power of a power of x. */
  lemma {:induction false} PowByTable(f: Field<gf>, powers: seq<gf>, logs: seq<nat>, row: nat, col: nat)
    requires Describes(f, powers, logs) && row < 255
    ensures 0 <= (row * col) % 255 < 255
    ensures powers[(row * col) % 255] == Polynomials.Pow(f, powers[row], col)
  {
    var n: nat := row * col;
    assert Entry(row) && Entry(n % 255);
    PowIsExp(f, powers, logs, row, col);
    ExpMod(n);
  }
}
