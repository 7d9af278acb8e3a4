/** Modular powers with exponents of either sign: a negative one inverts the base first. */
module SignedPower {
  import opened Numerals
  import opened ModArith

  predicate Inverse(a: int, b: int, m: int)
    requires m > 0
  {
    Cong(a * b, 1, m)
  }

  function SearchInverse(a: int, m: int, x: nat): (r: Option<nat>)
    requires m > 0 && x <= m
    ensures r.Some? ==> r.value < x && Inverse(a, r.value, m)
    ensures r.None? ==> forall y :: 0 <= y < x ==> !Inverse(a, y, m)
  {
    if x == 0 then None else if Inverse(a, x - 1, m) then Some(x - 1) else SearchInverse(a, m, x - 1)
  }

  /** The inverse modulo `m`, if there is one. */
  function ModInverse(a: int, m: int): (r: Option<nat>)
    requires m > 0
    ensures r.Some? ==> r.value < m && Inverse(a, r.value, m)
  {
    SearchInverse(a, m, m)
  }

  lemma InverseUnique(a: int, x: int, y: int, m: int)
    requires m > 0 && Inverse(a, x, m) && Inverse(a, y, m)
    ensures Cong(x, y, m)
  {
    CongScale(a * y, 1, x, m);
    CongScale(a * x, 1, y, m);
    assert x * (a * y) == y * (a * x) by { MulAssoc(x, a, y); MulAssoc(y, a, x); MulAssoc(y, x, a); MulAssoc(x, y, a); }
  }

  lemma InverseFound(a: int, b: int, m: int)
    requires m > 0 && Inverse(a, b, m)
    ensures ModInverse(a, m).Some? && Cong(ModInverse(a, m).value, b, m)
  {
    var y := b % m;
    CongMod(b, m);
    CongScale(y, b, a, m);
    assert Inverse(a, y, m);
    InverseUnique(a, ModInverse(a, m).value, b, m);
  }

  /** `c` to the power `e`, where `d` is an inverse of `c`. */
  function SignedPow(c: int, d: int, e: int): int { if e >= 0 then Pow(c, e) else Pow(d, -e) }

  lemma Mirror(c: int, d: int, e: int)
    ensures SignedPow(c, d, e) == SignedPow(d, c, -e)
  {
  }

  lemma SignedNext(c: int, d: int, e: int, m: int)
    requires m > 0 && Inverse(c, d, m)
    ensures Cong(SignedPow(c, d, e + 1), SignedPow(c, d, e) * c, m)
  {
    hide Cong;
    if e >= 0 {
      CongSame(Pow(c, e + 1), Pow(c, e) * c, m);
    } else {
      assert Pow(d, -e) == d * Pow(d, -e - 1);
      Undo(c, d, Pow(d, -e - 1), m);
    }
  }

  lemma Undo(c: int, d: int, p: int, m: int)
    requires m > 0 && Inverse(c, d, m)
    ensures Cong(p, (d * p) * c, m)
  {
    CongScale(c * d, 1, p, m);
    MulAssoc(c, d, p);
  }

  lemma {:induction false} SignedAddNat(c: int, d: int, e: int, f: nat, m: int)
    requires m > 0 && Inverse(c, d, m)
    ensures Cong(SignedPow(c, d, e + f), SignedPow(c, d, e) * SignedPow(c, d, f), m)
    decreases f
  {
    if f > 0 {
      SignedAddNat(c, d, e, f - 1, m);
      SignedNext(c, d, e + f - 1, m);
      var x, y := SignedPow(c, d, e), Pow(c, f - 1);
      CongScale(SignedPow(c, d, e + f - 1), x * y, c, m);
      assert (x * y) * c == x * (c * y) by { MulAssoc(x, y, c); }
    }
  }

  lemma SignedAdd(c: int, d: int, e: int, f: int, m: int)
    requires m > 0 && Inverse(c, d, m)
    ensures Cong(SignedPow(c, d, e + f), SignedPow(c, d, e) * SignedPow(c, d, f), m)
  {
    if f >= 0 {
      SignedAddNat(c, d, e, f, m);
    } else {
      assert c * d == d * c;
      SignedAddNat(d, c, -e, -f, m);
      Mirror(c, d, e + f);
      Mirror(c, d, e);
      Mirror(c, d, f);
    }
  }

  lemma SignedInverse(c: int, d: int, e: int, m: int)
    requires m > 0 && Inverse(c, d, m)
    ensures Inverse(SignedPow(c, d, e), SignedPow(c, d, -e), m)
  {
    SignedAdd(c, d, e, -e, m);
  }

  lemma {:induction false} PowOfSigned(c: int, d: int, e: int, f: nat, m: int)
    requires m > 0 && Inverse(c, d, m)
    ensures Cong(Pow(SignedPow(c, d, e), f), SignedPow(c, d, e * f), m)
    decreases f
  {
    if f > 0 {
      PowOfSigned(c, d, e, f - 1, m);
      var x := SignedPow(c, d, e);
      CongScale(Pow(x, f - 1), SignedPow(c, d, e * (f - 1)), x, m);
      SignedAdd(c, d, e, e * (f - 1), m);
      assert e + e * (f - 1) == e * f;
    } else {
      assert e * f == 0;
    }
  }

  lemma SignedMul(c: int, d: int, e: int, f: int, m: int)
    requires m > 0 && Inverse(c, d, m)
    ensures Cong(SignedPow(SignedPow(c, d, e), SignedPow(c, d, -e), f), SignedPow(c, d, e * f), m)
  {
    if f >= 0 {
      PowOfSigned(c, d, e, f, m);
    } else {
      PowOfSigned(c, d, -e, -f, m);
      assert (-e) * (-f) == e * f;
    }
  }

  lemma SignedCong(c: int, d: int, c': int, d': int, e: int, m: int)
    requires m > 0 && Cong(c, c', m) && Cong(d, d', m)
    ensures Cong(SignedPow(c, d, e), SignedPow(c', d', e), m)
  {
    if e >= 0 {
      PowCong(c, c', e, m);
    } else {
      PowCong(d, d', -e, m);
    }
  }

  lemma SignedProduct(a: int, a': int, b: int, b': int, e: int)
    ensures SignedPow(a * b, a' * b', e) == SignedPow(a, a', e) * SignedPow(b, b', e)
  {
    if e >= 0 {
      PowProduct(a, b, e);
    } else {
      PowProduct(a', b', -e);
    }
  }

  /** Modular exponentiation as the code does it. It fails when a negative exponent meets no inverse. */
  function ModExp(base: int, e: int, m: int): Option<nat>
    requires m > 0
  {
    if e >= 0 then Some(Pow(base, e) % m)
    else
      var inv :- ModInverse(base, m);
      Some(Pow(inv, -e) % m)
  }

  /** It fails exactly if the exponent is negative and the base has no inverse. */
  lemma ModExpIff(base: int, e: int, m: int)
    requires m > 0
    ensures ModExp(base, e, m).None? <==> e < 0 && forall x :: !Inverse(base, x, m)
    ensures e >= 0 ==> ModExp(base, e, m).Some? && Cong(ModExp(base, e, m).value, Pow(base, e), m)
  {
    hide Pow;
    if x :| Inverse(base, x, m) {
      InverseFound(base, x, m);
    }
    if e >= 0 {
      CongMod(Pow(base, e), m);
    }
  }

  /** On a base that has an inverse it never fails, and it is the signed power. */
  lemma ModExpIsPower(c: int, d: int, e: int, m: int)
    requires m > 0 && Inverse(c, d, m)
    ensures ModExp(c, e, m) == Some(SignedPow(c, d, e) % m)
  {
    if e < 0 {
      InverseFound(c, d, m);
      PowCong(ModInverse(c, m).value, d, -e, m);
    }
  }
}
