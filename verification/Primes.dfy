/** Fermat's little theorem, and what it says modulo the square of a product of two primes. */
module Primes {
  import opened ModArith
  import opened SignedPower
  import opened Lagrange
  import opened Paillier

  predicate Divides(d: int, x: int)
    requires d > 0
  {
    x % d == 0
  }

  predicate IsPrime(p: int) {
    p > 1 && forall d :: 1 < d < p ==> !Divides(d, p)
  }

  lemma DividesElim(d: int, x: int) returns (k: int)
    requires d > 0 && Divides(d, x)
    ensures x == d * k
  {
    k := x / d;
    assert x == d * (x / d) + x % d;
  }

  lemma DividesIntro(d: int, x: int, k: int)
    requires d > 0 && x == d * k
    ensures Divides(d, x)
  {
    DivUnique(x, k, 0, d);
  }

  // ----- Euclid's lemma -----

  /** The least positive `m` for which `p` divides `m * b`. */
  function LeastFactor(p: int, b: int, m: nat): (d: nat)
    requires p > 0 && 0 < m <= p
    requires forall y :: 0 < y < m ==> !Divides(p, y * b)
    ensures 0 < d <= p && Divides(p, d * b)
    ensures forall y :: 0 < y < d ==> !Divides(p, y * b)
    decreases p - m
  {
    if Divides(p, m * b) then m
    else
      assert m < p by { if m == p { DividesIntro(p, p * b, b); } }
      LeastFactor(p, b, m + 1)
  }

  /** It divides every `m` for which `p` divides `m * b`. */
  lemma LeastDivides(p: int, b: int, d: nat, m: int)
    requires p > 0 && 0 < d && Divides(p, d * b) && Divides(p, m * b)
    requires forall y :: 0 < y < d ==> !Divides(p, y * b)
    ensures Divides(d, m)
  {
    var q, r := m / d, m % d;
    assert m == d * q + r;
    var k := DividesElim(p, d * b);
    var l := DividesElim(p, m * b);
    assert r * b == m * b - q * (d * b) by {
      assert (m - d * q) * b == m * b - (d * q) * b;
      MulAssoc(q, d, b);
    }
    assert q * (p * k) == p * (q * k) by { MulAssoc(q, p, k); MulAssoc(p, q, k); }
    assert p * l - p * (q * k) == p * (l - q * k);
    DividesIntro(p, r * b, l - q * k);
  }

  lemma Euclid(p: int, a: int, b: int)
    requires IsPrime(p) && Divides(p, a * b)
    ensures Divides(p, a) || Divides(p, b)
  {
    var d := LeastFactor(p, b, 1);
    DividesIntro(p, p * b, b);
    LeastDivides(p, b, d, p);
    LeastDivides(p, b, d, a);
    assert d == 1 || d == p;
    assert 1 * b == b;
  }

  // ----- a product of different numbers from 1 to n is n! -----

  function Product(s: seq<int>): int {
    if s == [] then 1 else s[0] * Product(s[1..])
  }

  function ProductIn(m: set<int>, n: nat): int {
    if n == 0 then 1 else (if n in m then n else 1) * ProductIn(m, n - 1)
  }

  lemma {:induction false} ProductInsert(m: set<int>, x: int, n: nat)
    requires x !in m && 1 <= x
    ensures ProductIn(m + {x}, n) == if x <= n then x * ProductIn(m, n) else ProductIn(m, n)
  {
    if n > 0 {
      ProductInsert(m, x, n - 1);
      var f, rest := (if n in m then n else 1), ProductIn(m, n - 1);
      MulAssoc(f, x, rest);
      MulAssoc(x, f, rest);
    }
  }

  lemma {:induction false} ProductIsIn(s: seq<int>, n: nat)
    requires Distinct(s) && forall k :: 0 <= k < |s| ==> 1 <= s[k] <= n
    ensures Product(s) == ProductIn(Members(s), n)
    decreases |s|
  {
    if s == [] {
      assert Members(s) == {};
      ProductNone(n);
    } else {
      ProductIsIn(s[1..], n);
      assert Members(s) == Members(s[1..]) + {s[0]};
      ProductInsert(Members(s[1..]), s[0], n);
    }
  }

  lemma {:induction false} ProductNone(n: nat)
    ensures ProductIn({}, n) == 1
  {
    if n > 0 {
      ProductNone(n - 1);
    }
  }

  lemma {:induction false} ProductAll(m: set<int>, n: nat)
    requires forall x :: 1 <= x <= n ==> x in m
    ensures ProductIn(m, n) == Factorial(n)
  {
    if n > 0 {
      ProductAll(m, n - 1);
    }
  }

  function UpTo(n: nat): (r: set<int>)
    ensures |r| == n && forall x :: x in r <==> 1 <= x <= n
  {
    if n == 0 then {} else UpTo(n - 1) + {n}
  }

  lemma {:induction false} MembersCount(s: seq<int>)
    requires Distinct(s)
    ensures |Members(s)| == |s|
    decreases |s|
  {
    if s == [] {
      assert Members(s) == {};
    } else {
      MembersCount(s[1..]);
      assert Members(s) == Members(s[1..]) + {s[0]};
      assert s[0] !in Members(s[1..]);
    }
  }

  lemma SameSize(a: set<int>, b: set<int>)
    requires a <= b && |a| == |b|
    ensures a == b
  {
    assert b == a + (b - a) && |b| == |a| + |b - a|;
  }

  /** Different numbers from 1 to n, n of them, multiply to n!. */
  lemma PermutationProduct(s: seq<int>, n: nat)
    requires Distinct(s) && |s| == n && forall k :: 0 <= k < |s| ==> 1 <= s[k] <= n
    ensures Product(s) == Factorial(n)
  {
    ProductIsIn(s, n);
    MembersCount(s);
    SameSize(Members(s), UpTo(n));
    ProductAll(Members(s), n);
  }

  // ----- Fermat -----

  /** The multiples of `a`, reduced modulo `p`. */
  function Multiples(p: int, a: int, n: nat): (r: seq<int>)
    requires p > 0
    ensures |r| == n && forall k :: 0 <= k < n ==> r[k] == ((n - k) * a) % p
  {
    if n == 0 then [] else [(n * a) % p] + Multiples(p, a, n - 1)
  }

  lemma {:induction false} MultiplesProduct(p: int, a: int, n: nat)
    requires p > 0
    ensures Cong(Product(Multiples(p, a, n)), Pow(a, n) * Factorial(n), p)
  {
    if n > 0 {
      MultiplesProduct(p, a, n - 1);
      var rest := Multiples(p, a, n - 1);
      assert Multiples(p, a, n)[1..] == rest;
      MultiplesStep(p, a, n, Product(rest), Pow(a, n - 1), Factorial(n - 1));
    }
  }

  lemma MultiplesStep(p: int, a: int, n: nat, rest: int, w: int, f: int)
    requires p > 0 && Cong(rest, w * f, p)
    ensures Cong(((n * a) % p) * rest, (a * w) * (n * f), p)
  {
    hide Cong;
    var m, v := n * a, w * f;
    CongMod(m, p);
    CongMul(m % p, m, rest, v, p);
    Exchange(n, a, w, f);
  }

  lemma Exchange(n: int, a: int, w: int, f: int)
    ensures (n * a) * (w * f) == (a * w) * (n * f)
  {
    Shuffle(n, a, f, w);
    Commute(w, f);
    Commute(n * f, a * w);
  }

  lemma MultiplesDistinct(p: int, a: int, n: nat)
    requires IsPrime(p) && !Divides(p, a) && n < p
    ensures var s := Multiples(p, a, n);
            Distinct(s) && forall k :: 0 <= k < n ==> 1 <= s[k] <= p - 1
  {
    var s := Multiples(p, a, n);
    forall k | 0 <= k < n
      ensures 1 <= s[k] <= p - 1
    {
      if Divides(p, (n - k) * a) {
        Euclid(p, n - k, a);
        SmallNotDivided(p, n - k);
      }
    }
    forall k, l | 0 <= k < l < n
      ensures s[k] != s[l]
    {
      if s[k] == s[l] {
        var t := CongElim((n - k) * a, (n - l) * a, p);
        assert (n - k) * a - (n - l) * a == (l - k) * a;
        DividesIntro(p, (l - k) * a, t);
        Euclid(p, l - k, a);
        SmallNotDivided(p, l - k);
      }
    }
  }

  lemma SmallNotDivided(p: int, x: int)
    requires 0 < x < p
    ensures !Divides(p, x)
  {
    DivUnique(x, 0, x, p);
  }

  lemma {:induction false} FactorialNotDivided(p: int, n: nat)
    requires IsPrime(p) && n < p
    ensures !Divides(p, Factorial(n))
  {
    if n == 0 {
      SmallNotDivided(p, 1);
    } else {
      FactorialNotDivided(p, n - 1);
      if Divides(p, Factorial(n)) {
        Euclid(p, n, Factorial(n - 1));
        SmallNotDivided(p, n);
      }
    }
  }

  lemma Fermat(p: int, a: int)
    requires IsPrime(p) && !Divides(p, a)
    ensures Cong(Pow(a, p - 1), 1, p)
  {
    var n := p - 1;
    MultiplesDistinct(p, a, n);
    PermutationProduct(Multiples(p, a, n), n);
    MultiplesProduct(p, a, n);
    var f, w := Factorial(n), Pow(a, n);
    var t := CongElim(w * f, f, p);
    assert (w - 1) * f == w * f - f == p * t;
    DividesIntro(p, (w - 1) * f, t);
    FactorialNotDivided(p, n);
    Euclid(p, w - 1, f);
    var k := DividesElim(p, w - 1);
    CongIntro(w, 1, k, p);
  }

  // ----- modulo the square of a product of two primes -----

  lemma UnitNotDivided(n: int, r: int, x: int, p: int, q: int)
    requires n > 0 && p > 1 && n == p * q && Inverse(r, x, n)
    ensures !Divides(p, r)
  {
    if Divides(p, r) {
      var k := DividesElim(p, r);
      var t := CongElim(r * x, 1, n);
      assert (p * k) * x == p * (k * x) by { MulAssoc(p, k, x); }
      assert t * (p * q) == p * (t * q) by { MulAssoc(t, p, q); MulAssoc(p, t, q); }
      assert p * (k * x) - p * (t * q) == p * (k * x - t * q);
      DividesIntro(p, 1, k * x - t * q);
      SmallNotDivided(p, 1);
    }
  }

  lemma PrimeSquare(p: int, r: int, e: nat)
    requires IsPrime(p) && !Divides(p, r)
    ensures p * p > 0 && (p - 1) * p * e >= 0 && Cong(Pow(r, (p - 1) * p * e), 1, p * p)
  {
    Fermat(p, r);
    Lift(p, Pow(r, p - 1));
    PowMul(r, p - 1, p);
    PowMul(r, (p - 1) * p, e);
    PowCong(Pow(r, (p - 1) * p), 1, e, p * p);
    PowOne(e);
  }

  lemma DistinctPrimes(p: int, q: int)
    requires IsPrime(p) && IsPrime(q) && p != q
    ensures !Divides(q, p)
  {
    if Divides(q, p) {
      var k := DividesElim(q, p);
      if k <= 0 {
        MulMonotone(q, k, 0);
      } else {
        MulMonotone(q, 1, k);
      }
    }
  }

  /** A multiple of both squares is a multiple of their product. */
  lemma SquaresCombine(p: int, q: int, x: int)
    requires IsPrime(p) && IsPrime(q) && p != q
    requires p * p > 0 && q * q > 0 && Divides(p * p, x) && Divides(q * q, x)
    ensures exists k :: x == (p * p) * (q * q) * k
  {
    var a := DividesElim(p * p, x);
    var b := DividesElim(q * q, x);
    DistinctPrimes(p, q);
    assert (p * p) * a == q * (q * b) by { MulAssoc(q, q, b); }
    var c := Extract(p, q, a, q * b);
    assert (p * p) * (q * c) == q * ((p * p) * c) by { MulAssoc(p * p, q, c); MulAssoc(q, p * p, c); }
    CancelLeft(q, (p * p) * c, q * b);
    var d := Extract(p, q, c, b);
    assert a == q * (q * d) == (q * q) * d by { MulAssoc(q, q, d); }
    MulAssoc(p * p, q * q, d);
  }

  lemma Extract(p: int, q: int, a: int, y: int) returns (c: int)
    requires IsPrime(q) && !Divides(q, p) && (p * p) * a == q * y
    ensures a == q * c
  {
    DividesIntro(q, (p * p) * a, y);
    Euclid(q, p * p, a);
    if Divides(q, p * p) {
      Euclid(q, p, p);
    }
    c := DividesElim(q, a);
  }

  /** An N-th power of a unit, to the power (p-1)(q-1), is one modulo N^2. */
  lemma Annihilates(p: int, q: int, r: int, x: int)
    requires IsPrime(p) && IsPrime(q) && p != q && p * q > 1 && Inverse(r, x, p * q)
    ensures var n, phi := p * q, (p - 1) * (q - 1);
            phi >= 0 && n * n > 0 && Cong(Pow(Pow(r, n), phi), 1, n * n)
  {
    hide Cong, Pow;
    var n, phi := p * q, (p - 1) * (q - 1);
    SquarePositive(n);
    MulMonotone(p - 1, 0, q - 1);
    PowMul(r, n, phi);
    OneModSquare(p, q, r, x);
    assert q * p == n && (q - 1) * (p - 1) == phi;
    OneModSquare(q, p, r, x);
    OneModBoth(p, q, Pow(r, n * phi));
  }

  lemma OneModSquare(p: int, q: int, r: int, x: int)
    requires IsPrime(p) && IsPrime(q) && p * q > 1 && Inverse(r, x, p * q)
    ensures p * p > 0 && (p * q) * ((p - 1) * (q - 1)) >= 0
    ensures Cong(Pow(r, (p * q) * ((p - 1) * (q - 1))), 1, p * p)
  {
    hide Cong, Pow;
    UnitNotDivided(p * q, r, x, p, q);
    MulMonotone(q, 0, q - 1);
    PrimeSquare(p, r, q * (q - 1));
    Exponents(p, q);
  }

  lemma OneModBoth(p: int, q: int, w: int)
    requires IsPrime(p) && IsPrime(q) && p != q
    requires p * p > 0 && q * q > 0 && Cong(w, 1, p * p) && Cong(w, 1, q * q)
    ensures (p * q) * (p * q) > 0 && Cong(w, 1, (p * q) * (p * q))
  {
    hide Cong;
    var k := CongElim(w, 1, p * p);
    var l := CongElim(w, 1, q * q);
    DividesIntro(p * p, w - 1, k);
    DividesIntro(q * q, w - 1, l);
    SquaresCombine(p, q, w - 1);
    var t :| w - 1 == (p * p) * (q * q) * t;
    Shuffle(p, p, q, q);
    MulMonotone(p, 2, q);
    SquarePositive(p * q);
    var m := (p * q) * (p * q);
    assert w == 1 + t * m;
    CongIntro(w, 1, t, m);
  }

  lemma Exponents(p: int, q: int)
    ensures (p * q) * ((p - 1) * (q - 1)) == (p - 1) * p * (q * (q - 1))
    ensures (p * q) * ((p - 1) * (q - 1)) == (q - 1) * q * (p * (p - 1))
  {
    Shuffle(p, q, p - 1, q - 1);
  }

  /** Any multiple of (p-1)(q-1), of either sign, will do. */
  lemma AnnihilatesSigned(p: int, q: int, r: int, x: int, k: int)
    requires IsPrime(p) && IsPrime(q) && p != q && p * q > 1 && Inverse(r, x, p * q)
    ensures var n := p * q;
            n * n > 0 && Cong(SignedPow(Pow(r, n), Pow(x, n), (p - 1) * (q - 1) * k), 1, n * n)
  {
    var n, phi := p * q, (p - 1) * (q - 1);
    SquarePositive(n);
    Annihilates(p, q, r, x);
    UnitPower(n, r, x);
    var a, b, m := Pow(r, n), Pow(x, n), n * n;
    var u, v := SignedPow(a, b, phi), SignedPow(a, b, -phi);
    SignedInverse(a, b, phi, m);
    CongScale(u, 1, v, m);
    assert Cong(v, 1, m);
    SignedCong(u, v, 1, 1, k, m);
    OnePower(k);
    SignedMul(a, b, phi, k, m);
  }

  lemma OnePower(k: int)
    ensures SignedPow(1, 1, k) == 1
  {
    if k >= 0 { PowOne(k); } else { PowOne(-k); }
  }
}
