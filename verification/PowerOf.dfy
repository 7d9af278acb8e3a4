/** `tools::PowerOf<a, b>`: a power computed by template recursion in 64-bit unsigned arithmetic. */
module PowerOf {
  import opened ModArith

  const RANGE := 0x1_0000_0000_0000_0000

  type uint64 = x: int | 0 <= x < RANGE

  /** Multiplication of `uint64_t`: it wraps around. */
  function Times(a: uint64, b: uint64): uint64 { (a * b) % RANGE }

  function Value(a: uint64, b: uint64): uint64 {
    if b == 0 then 1 else Times(a, Value(a, b - 1))
  }

  /** The template is the mathematical power modulo 2^64. */
  lemma {:induction false} IsPower(a: uint64, b: uint64)
    ensures Value(a, b) == Pow(a, b) % RANGE
  {
    if b > 0 {
      IsPower(a, b - 1);
      MulMod(a, Pow(a, b - 1), RANGE);
    }
  }

  /** It is the power itself exactly when that fits. */
  lemma ExactIff(a: uint64, b: uint64)
    ensures Value(a, b) == Pow(a, b) <==> Pow(a, b) < RANGE
  {
    IsPower(a, b);
    PowNonNegative(a, b);
    if Pow(a, b) < RANGE {
      DivUnique(Pow(a, b), 0, Pow(a, b), RANGE);
    }
  }

  lemma {:induction false} PowNonNegative(a: nat, b: nat)
    ensures Pow(a, b) >= 0
  {
    if b > 0 {
      PowNonNegative(a, b - 1);
    }
  }

  lemma AddsExponents(a: uint64, b: uint64, c: uint64)
    requires b + c < RANGE
    ensures Value(a, b + c) == Times(Value(a, b), Value(a, c))
  {
    IsPower(a, b);
    IsPower(a, c);
    IsPower(a, b + c);
    PowAdd(a, b, c);
    MulMod(Pow(a, b), Value(a, c), RANGE);
    MulMod(Pow(a, b), Pow(a, c), RANGE);
  }

  lemma MultipliesExponents(a: uint64, b: uint64, c: uint64)
    requires b * c < RANGE
    ensures 0 <= b * c && Value(a, b * c) == Value(Value(a, b), c)
  {
    PowMul(a, b, c);
    IsPower(a, b);
    IsPower(a, b * c);
    IsPower(Value(a, b), c);
    CongMod(Pow(a, b), RANGE);
    PowCong(Value(a, b), Pow(a, b), c, RANGE);
  }

  lemma DistributesOverTimes(a: uint64, b: uint64, c: uint64)
    ensures Value(Times(a, b), c) == Times(Value(a, c), Value(b, c))
  {
    IsPower(Times(a, b), c);
    IsPower(a, c);
    IsPower(b, c);
    CongMod(a * b, RANGE);
    PowCong(Times(a, b), a * b, c, RANGE);
    PowProduct(a, b, c);
    MulMod(Pow(a, c), Value(b, c), RANGE);
    MulMod(Pow(a, c), Pow(b, c), RANGE);
  }

  // ----- when the value is zero -----

  lemma {:induction false} OddPower(m: nat, e: nat)
    requires m % 2 == 1
    ensures Pow(m, e) % 2 == 1
  {
    if e > 0 {
      OddPower(m, e - 1);
      MulMod(m, Pow(m, e - 1), 2);
    }
  }

  lemma RangeIsPower()
    ensures RANGE == Pow(2, 64)
  {
    PowAdd(2, 32, 32);
    PowAdd(2, 16, 16);
    PowAdd(2, 8, 8);
    PowAdd(2, 4, 4);
    assert Pow(2, 4) == 16 by {
      assert Pow(2, 2) == 4;
    }
  }

  /** A power of two times an odd number is a multiple of 2^64 just when the power is. */
  lemma TwoPart(k: nat, odd: nat)
    requires odd % 2 == 1
    ensures (Pow(2, k) * odd) % RANGE == 0 <==> k >= 64
  {
    if k >= 64 {
      TwoPartLarge(k, odd);
    } else if (Pow(2, k) * odd) % RANGE == 0 {
      TwoPartSmall(k, odd);
    }
  }

  lemma TwoPartLarge(k: nat, odd: nat)
    requires k >= 64
    ensures (Pow(2, k) * odd) % RANGE == 0
  {
    RangeIsPower();
    PowAdd(2, 64, k - 64);
    var p := Pow(2, k - 64);
    assert RANGE * p * odd == 0 + (p * odd) * RANGE by { MulAssoc(RANGE, p, odd); }
    CongIntro(Pow(2, k) * odd, 0, p * odd, RANGE);
  }

  lemma TwoPartSmall(k: nat, odd: nat)
    requires k < 64 && (Pow(2, k) * odd) % RANGE == 0
    ensures odd % 2 == 0
  {
    RangeIsPower();
    var p, h := Pow(2, k), Pow(2, 64 - k - 1);
    PowAdd(2, k, 64 - k);
    PowPositive(2, k);
    var q := CongElim(p * odd, 0, RANGE);
    assert RANGE == p * (2 * h);
    assert q * (p * (2 * h)) == p * (q * (2 * h)) by { MulAssoc(q, p, 2 * h); MulAssoc(p, q, 2 * h); }
    CancelLeft(p, odd, q * (2 * h));
    assert q * (2 * h) == 0 + (q * h) * 2 by { MulAssoc(q, h, 2); }
    CongIntro(odd, 0, q * h, 2);
  }

  /** Collapse: with `a` a power of two times an odd number, the value is zero exactly from exponent 64/k on. */
  lemma ZeroIff(a: uint64, b: uint64, k: nat, odd: nat)
    requires odd % 2 == 1 && a == Pow(2, k) * odd
    ensures Value(a, b) == 0 <==> k * b >= 64
  {
    IsPower(a, b);
    PowProduct(Pow(2, k), odd, b);
    PowMul(2, k, b);
    OddPower(odd, b);
    PowNonNegative(odd, b);
    TwoPart(k * b, Pow(odd, b));
  }

  lemma {:induction false} HasTwoPart(a: nat) returns (k: nat, odd: nat)
    requires a > 0
    ensures odd % 2 == 1 && a == Pow(2, k) * odd
  {
    if a % 2 == 1 {
      k, odd := 0, a;
    } else {
      k, odd := HasTwoPart(a / 2);
      assert Pow(2, k + 1) == 2 * Pow(2, k);
      k := k + 1;
    }
  }

  lemma {:induction false} ZeroPower(b: uint64)
    requires b > 0
    ensures Value(0, b) == 0
  {
    assert 0 * Value(0, b - 1) == 0;
  }

  /** An even base is zero from exponent 64 on; an odd one never is. */
  lemma Collapse(a: uint64, b: uint64)
    ensures a % 2 == 0 && b >= 64 ==> Value(a, b) == 0
    ensures a % 2 == 1 ==> Value(a, b) % 2 == 1
  {
    if a % 2 == 1 {
      IsPower(a, b);
      OddPower(a, b);
      OddRemainder(Pow(a, b));
    } else if b >= 64 {
      if a == 0 {
        ZeroPower(b);
      } else {
        var k, odd := HasTwoPart(a);
        assert k > 0;
        MulMonotone(b, 1, k);
        ZeroIff(a, b, k, odd);
      }
    }
  }

  lemma OddRemainder(p: int)
    requires p % 2 == 1
    ensures p % RANGE % 2 == 1
  {
    var q, half := p / RANGE, 0x8000_0000_0000_0000;
    assert p == (2 * half) * q + p % RANGE;
    CongIntro(p, p % RANGE, half * q, 2);
  }
}
