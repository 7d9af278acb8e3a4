/** Powers and congruences over the integers. */
module ModArith {

  // ----- division -----

  lemma MulMonotone(a: int, x: int, y: int)
    requires 0 <= a && x <= y
    ensures a * x <= a * y
  {
  }

  /** Quotient and remainder are unique. */
  lemma DivUnique(x: int, q: int, r: int, m: int)
    requires 0 < m && 0 <= r < m && x == m * q + r
    ensures x / m == q && x % m == r
  {
    var q', r' := x / m, x % m;
    assert x == m * q' + r';
    assert m * (q - q') == r' - r;
    if q > q' {
      MulMonotone(m, 1, q - q');
    } else if q < q' {
      MulMonotone(m, q - q', -1);
    }
  }

  /** `a` and `b` differ by a multiple of `m`. */
  predicate Cong(a: int, b: int, m: int)
    requires m > 0
  {
    a % m == b % m
  }

  lemma CongSame(a: int, b: int, m: int)
    requires m > 0 && a == b
    ensures Cong(a, b, m)
  {
  }

  lemma CongTrans(a: int, b: int, c: int, m: int)
    requires m > 0 && Cong(a, b, m) && Cong(b, c, m)
    ensures Cong(a, c, m) && Cong(c, a, m)
  {
  }

  lemma CongIntro(a: int, b: int, k: int, m: int)
    requires m > 0 && a == b + k * m
    ensures Cong(a, b, m)
  {
    var q, r := b / m, b % m;
    assert b == m * q + r;
    assert a == m * (q + k) + r by { assert m * (q + k) == m * q + k * m; }
    DivUnique(a, q + k, r, m);
  }

  lemma CongElim(a: int, b: int, m: int) returns (k: int)
    requires m > 0 && Cong(a, b, m)
    ensures a == b + k * m
  {
    k := a / m - b / m;
    assert a == m * (a / m) + a % m && b == m * (b / m) + b % m;
    assert k * m == m * (a / m) - m * (b / m);
  }

  lemma CongMod(a: int, m: int)
    requires m > 0
    ensures Cong(a % m, a, m) && 0 <= a % m < m
  {
    assert a == m * (a / m) + a % m;
    assert a % m == a + (-(a / m)) * m;
    CongIntro(a % m, a, -(a / m), m);
  }

  lemma CongSmall(a: int, b: int, m: int)
    requires 0 <= a < m && 0 <= b < m && Cong(a, b, m)
    ensures a == b
  {
    DivUnique(a, 0, a, m);
    DivUnique(b, 0, b, m);
  }

  lemma CongScale(a: int, b: int, c: int, m: int)
    requires m > 0 && Cong(a, b, m)
    ensures Cong(a * c, b * c, m) && Cong(c * a, c * b, m)
  {
    var k := CongElim(a, b, m);
    Spread(b, k, m, c);
    CongIntro(a * c, b * c, k * c, m);
  }

  lemma Spread(b: int, k: int, m: int, c: int)
    ensures (b + k * m) * c == b * c + (k * c) * m
    ensures c * (b + k * m) == c * b + (k * c) * m
  {
  }

  lemma CongMul(a: int, a': int, b: int, b': int, m: int)
    requires m > 0 && Cong(a, a', m) && Cong(b, b', m)
    ensures Cong(a * b, a' * b', m)
  {
    CongScale(a, a', b, m);
    CongScale(b, b', a', m);
  }

  lemma CongAdd(a: int, a': int, b: int, b': int, m: int)
    requires m > 0 && Cong(a, a', m) && Cong(b, b', m)
    ensures Cong(a + b, a' + b', m)
  {
    var k := CongElim(a, a', m);
    var l := CongElim(b, b', m);
    assert a + b == a' + b' + (k + l) * m;
    CongIntro(a + b, a' + b', k + l, m);
  }

  /** Reducing factors before multiplying changes nothing. */
  lemma MulMod(a: int, b: int, m: int)
    requires m > 0
    ensures ((a % m) * b) % m == (a * b) % m
    ensures (a * (b % m)) % m == (a * b) % m
  {
    CongMod(a, m);
    CongMod(b, m);
    CongMul(a % m, a, b, b, m);
    CongMul(a, a, b % m, b, m);
  }

  lemma MulAssoc(a: int, b: int, c: int)
    ensures a * (b * c) == (a * b) * c
  {
  }

  lemma Commute(x: int, y: int)
    ensures x * y == y * x
  {
  }

  lemma Shuffle(a: int, b: int, x: int, y: int)
    ensures (a * b) * (x * y) == (a * x) * (b * y)
  {
    MulAssoc(a * b, x, y);
    assert (a * b) * x == (a * x) * b by { MulAssoc(a, b, x); MulAssoc(a, x, b); }
    MulAssoc(a * x, b, y);
  }

  lemma CancelLeft(p: int, x: int, y: int)
    requires p > 0 && p * x == p * y
    ensures x == y
  {
    if x < y {
      MulMonotone(p, x + 1, y);
    } else if y < x {
      MulMonotone(p, y + 1, x);
    }
  }

  /** Multiplication modulo `m`. */
  function ModMul(a: int, b: int, m: int): (r: nat)
    requires m > 0
    ensures r < m
  {
    (a * b) % m
  }

  // ----- powers -----

  function Pow(a: int, e: nat): int { if e == 0 then 1 else a * Pow(a, e - 1) }

  lemma {:induction false} PowAdd(a: int, d: nat, e: nat)
    ensures Pow(a, d + e) == Pow(a, d) * Pow(a, e)
  {
    if d > 0 {
      PowAdd(a, d - 1, e);
      MulAssoc(a, Pow(a, d - 1), Pow(a, e));
    }
  }

  lemma {:induction false} PowMul(a: int, d: nat, e: nat)
    ensures 0 <= d * e && Pow(a, d * e) == Pow(Pow(a, d), e)
    decreases e
  {
    if e > 0 {
      PowMul(a, d, e - 1);
      assert d * e == d + d * (e - 1);
      PowAdd(a, d, d * (e - 1));
    } else {
      assert d * e == 0;
    }
  }

  lemma {:induction false} PowProduct(a: int, b: int, e: nat)
    ensures Pow(a * b, e) == Pow(a, e) * Pow(b, e)
  {
    if e > 0 {
      PowProduct(a, b, e - 1);
      Shuffle(a, b, Pow(a, e - 1), Pow(b, e - 1));
    }
  }

  lemma {:induction false} PowOne(e: nat)
    ensures Pow(1, e) == 1
  {
    if e > 0 {
      PowOne(e - 1);
    }
  }

  lemma {:induction false} PowPositive(a: int, e: nat)
    requires a > 0
    ensures Pow(a, e) > 0
  {
    if e > 0 {
      PowPositive(a, e - 1);
    }
  }

  lemma {:induction false} PowCong(a: int, b: int, e: nat, m: int)
    requires m > 0 && Cong(a, b, m)
    ensures Cong(Pow(a, e), Pow(b, e), m)
  {
    if e > 0 {
      PowCong(a, b, e - 1, m);
      CongMul(a, b, Pow(a, e - 1), Pow(b, e - 1), m);
    }
  }
}
