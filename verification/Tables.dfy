/** The arithmetic tables of the erasure code and the loops that fill them. */
module Tables {
  import opened Bytes
  import opened Fields
  import opened GF256
  import Gen = Generator

  const GF_BITS := 8
  const GF_SIZE := 255

  /** Coefficients of the field polynomial, lowest power first. */
  const FIELD_POLYNOMIAL := "101110001"

  /** Reduction modulo 255 without a division. */
  method Modnn(x0: int) returns (r: gf)
    ensures r == if x0 >= 0 then x0 % GF_SIZE else x0 % 256
  {
    var x := x0;
    while x >= GF_SIZE
      invariant x0 >= 0 ==> x >= 0 && x % GF_SIZE == x0 % GF_SIZE
      invariant x0 < 0 ==> x == x0
      decreases x
    {
      x := x - GF_SIZE;
      var y := x / 256 + x % 256;
      assert x == 256 * (x / 256) + x % 256;
      assert x - y == GF_SIZE * (x / 256);
      ModOfMultiple(x / 256, y);
      ModOfMultiple(1, x);
      x := y;
    }
    r := x % 256;
  }

  lemma ModOfMultiple(q: int, y: int)
    ensures (GF_SIZE * q + y) % GF_SIZE == y % GF_SIZE
  {}

  /** Sum of x^j over the powers below i of the field polynomial. */
  function Taps(i: nat): nat
    requires i <= GF_BITS
  {
    if i == 0 then 0 else Taps(i - 1) + if FIELD_POLYNOMIAL[i - 1] == '1' then Pow2(i - 1) else 0
  }

  lemma {:induction false} TapsBound(i: nat)
    requires i <= GF_BITS
    ensures Taps(i) < Pow2(i)
  {
    if i > 0 { TapsBound(i - 1); }
  }

  lemma AllTaps()
    ensures Taps(8) == 29
  {}

  lemma TapStep(i: nat)
    requires i < GF_BITS
    ensures Pow2(i) < 256 && Taps(i) < 256
    ensures Taps(i + 1) == if FIELD_POLYNOMIAL[i] == '1' then Xor(Taps(i), Pow2(i)) else Taps(i)
  {
    TapsBound(i);
    Pow2Bound(i, 7);
    assert Pow2(7) == 128;
    XorNewTop(Taps(i), i);
  }

  class GfTables {
    const exp: array<gf>
    const log: array<int>
    const inverse: array<gf>
    const mul: array2<gf>
    var initialized: bool
    ghost const field: Field<gf>
    ghost const powers: seq<gf>
    ghost const logs: seq<nat>

    /** The tables have been filled, with the arithmetic of a field. */
    ghost predicate Valid()
      reads this, exp, inverse, mul
    {
      && initialized
      && Lawful(field) && field.zero == 0 && field.one == 1
      && (forall a: gf, b: gf {:trigger Gen.Pair(a, b)} :: Add(field, a, b) == Xor(a, b))
      && inverse.Length == 256 && mul.Length0 == 256 && mul.Length1 == 256
      && exp[..] == powers
      && (forall a: gf | a != 0 :: inverse[a] == Inv(field, a))
      && (forall a: gf, b: gf :: mul[a, b] == Mul(field, a, b))
    }

    ghost predicate Allocated()
      reads this
    {
      && exp.Length == 2 * GF_SIZE && log.Length == 256 && inverse.Length == 256 && exp != inverse
      && mul.Length0 == 256 && mul.Length1 == 256
      && Gen.Describes(field, powers, logs)
    }

    constructor ()
      ensures Allocated() && !initialized && fresh(exp) && fresh(log) && fresh(inverse) && fresh(mul)
      ensures field == Gen.GF() && powers == Gen.Powers() && logs == Gen.Logs()
    {
      exp := new gf[2 * GF_SIZE](_ => 0);
      log := new int[256](_ => 0);
      inverse := new gf[256](_ => 0);
      mul := new gf[256, 256]((_, _) => 0);
      initialized := false;
      field := Gen.GF();
      powers := Gen.Powers();
      logs := Gen.Logs();
      Gen.DescribesAll();
    }

    /** Fills the tables of powers, logarithms and inverses. */
    method GenerateGf()
      requires Allocated()
      modifies exp, log, inverse
      ensures exp[..] == powers && log[..] == logs
      ensures forall a: gf | a != 0 :: inverse[a] == Inv(field, a)
    {
      FirstPowers();
      OtherPowers();
      log[0] := GF_SIZE;
      var i := 0;
      while i < GF_SIZE
        invariant 0 <= i <= GF_SIZE
        invariant forall j :: 0 <= j < GF_SIZE + i ==> exp[j] == powers[j]
        invariant log[0] == GF_SIZE && forall j :: 0 <= j < GF_SIZE ==> log[powers[j]] == j
      {
        exp[i + GF_SIZE] := exp[i];
        Gen.PowersWrap(field, powers, logs, i);
        i := i + 1;
      }
      assert log[..] == logs by {
        forall a: gf | a != 0 ensures log[a] == logs[a] {
          Gen.LogPower(field, powers, logs, a);
        }
      }
      inverse[0] := 0;
      inverse[1] := 1;
      MulOne(field, Inv(field, 1)); MulInv(field, 1);
      i := 2;
      while i <= GF_SIZE
        invariant 2 <= i <= GF_SIZE + 1
        invariant exp[..] == powers && log[..] == logs
        invariant forall a: gf | 0 < a < i :: inverse[a] == Inv(field, a)
      {
        Gen.LogPower(field, powers, logs, i);
        inverse[i] := exp[GF_SIZE - log[i]];
        i := i + 1;
      }
    }

    /** Records i as the logarithm of the power just computed. */
    method SetLog(i: nat)
      requires Allocated() && i < GF_SIZE && exp[i] == powers[i]
      requires forall j :: 0 <= j < i ==> log[powers[j]] == j
      modifies log
      ensures forall j :: 0 <= j <= i ==> log[powers[j]] == j
    {
      Gen.PowersDistinct(field, powers, logs, i);
      log[exp[i]] := i;
    }

    /** The first powers are single digits; x^8 is read off the field polynomial. */
    method FirstPowers()
      requires Allocated()
      modifies exp, log
      ensures forall j :: 0 <= j <= GF_BITS ==> exp[j] == powers[j] && log[powers[j]] == j
    {
      var mask: gf := 1;
      exp[GF_BITS] := 0;
      var i := 0;
      assert powers[0] == 1 by { Gen.SmallPower(field, powers, logs, 0); }
      while i < GF_BITS
        invariant 0 <= i <= GF_BITS
        invariant i < GF_BITS ==> mask == powers[i]
        invariant forall j :: 0 <= j < i ==> exp[j] == powers[j]
        invariant forall j :: 0 <= j < i ==> log[powers[j]] == j
        invariant exp[GF_BITS] == Taps(i)
      {
        exp[i] := mask;
        SetLog(i);
        assert Taps(i + 1) == if FIELD_POLYNOMIAL[i] == '1' then Xor(exp[GF_BITS], mask) else exp[GF_BITS] by {
          Gen.SmallPower(field, powers, logs, i);
          TapStep(i);
        }
        if FIELD_POLYNOMIAL[i] == '1' {
          exp[GF_BITS] := Xor(exp[GF_BITS], mask);
        }
        assert i + 1 < GF_BITS ==> powers[i + 1] == mask as int * 2 by { NextDigit(i); }
        i := i + 1;
        mask := mask * 2 % 256;
      }
      assert Taps(8) == powers[8] by {
        Gen.EighthPower(field, powers, logs);
        AllTaps();
      }
      SetLog(GF_BITS);
    }

    lemma NextDigit(i: nat)
      requires Allocated() && i < GF_BITS
      ensures i + 1 < GF_BITS ==> powers[i + 1] == powers[i] as int * 2
    {
      Gen.SmallPower(field, powers, logs, i);
      if i + 1 < GF_BITS { Gen.SmallPower(field, powers, logs, i + 1); }
    }

    /** Every further power is one shift and one reduction. */
    method OtherPowers()
      requires Allocated()
      requires forall j :: 0 <= j <= GF_BITS ==> exp[j] == powers[j] && log[powers[j]] == j
      modifies exp, log
      ensures forall j :: 0 <= j < GF_SIZE ==> exp[j] == powers[j] && log[powers[j]] == j && powers[j] != 0
    {
      var mask := 128;
      var i := GF_BITS + 1;
      Gen.EighthPower(field, powers, logs);
      while i < GF_SIZE
        invariant GF_BITS < i <= GF_SIZE
        invariant forall j :: 0 <= j < i ==> exp[j] == powers[j] && log[powers[j]] == j
      {
        Gen.NextPower(field, powers, logs, i - 1);
        if exp[i - 1] >= mask {
          exp[i] := Xor(exp[GF_BITS], Xor(exp[i - 1], mask) * 2);
        } else {
          exp[i] := exp[i - 1] * 2;
        }
        SetLog(i);
        i := i + 1;
      }
      forall j: nat | j < GF_SIZE ensures powers[j] != 0 { Gen.PowersDistinct(field, powers, logs, j); }
    }

    method InitMulTable()
      requires Allocated() && exp[..] == powers && log[..] == logs
      modifies mul
      ensures forall a: gf, b: gf :: mul[a, b] == Mul(field, a, b)
    {
      var i := 0;
      while i < GF_SIZE + 1
        invariant 0 <= i <= 256
        invariant forall a: gf, b: gf | a < i && a != 0 && b != 0 :: mul[a, b] == Mul(field, a, b)
      {
        var j := 0;
        while j < GF_SIZE + 1
          invariant 0 <= j <= 256
          invariant forall a: gf, b: gf | a < i && a != 0 && b != 0 :: mul[a, b] == Mul(field, a, b)
          invariant forall b: gf | b < j && i != 0 && b != 0 :: mul[i, b] == Mul(field, i, b)
        {
          var m := Modnn(log[i] + log[j]);
          mul[i, j] := exp[m];
          Gen.ProductByLogs(field, powers, logs, i, j);
          j := j + 1;
        }
        i := i + 1;
      }
      var j := 0;
      while j < GF_SIZE + 1
        invariant 0 <= j <= 256
        invariant forall a: gf, b: gf | a != 0 && b != 0 :: mul[a, b] == Mul(field, a, b)
        invariant forall b: gf | b < j :: mul[0, b] == 0 && mul[b, 0] == 0
      {
        mul[j, 0] := 0;
        mul[0, j] := 0;
        j := j + 1;
      }
      forall a: gf, b: gf | a == 0 || b == 0 ensures mul[a, b] == Mul(field, a, b) {
        Gen.ProductByLogs(field, powers, logs, a, b);
      }
    }

    method InitFec()
      requires Allocated()
      modifies this`initialized, exp, log, inverse, mul
      ensures Valid()
    {
      GenerateGf();
      InitMulTable();
      initialized := true;
      forall a: gf, b: gf ensures Add(field, a, b) == Xor(a, b) {
        assert Gen.Pair(a, b);
      }
    }

    /** Addition in the field. */
    method Plus(a: gf, b: gf) returns (r: gf)
      requires Valid()
      ensures r == Add(field, a, b)
    {
      assert Gen.Pair(a, b);
      r := Xor(a, b);
    }
  }
}
