/** Interpolation at zero with integer weights: the weights of a threshold decryption. */
module Lagrange {
  import opened Numerals
  import opened ModArith

  /** 16!: it clears the denominators for every committee of at most sixteen members. */
  const DELTA := 20922789888000

  const MAX_COMMITTEE := 16

  // ----- the weights as they are computed -----

  /** The factors of numerator and denominator that one other member contributes. */
  function Minus(i: int, j: int): int { if j == i then 1 else -j }

  function Gap(i: int, j: int): int { if j == i then 1 else i - j }

  function Numerator(s: seq<int>, i: int): int {
    if s == [] then 1 else Minus(i, s[0]) * Numerator(s[1..], i)
  }

  function Denominator(s: seq<int>, i: int): (d: int)
    ensures d != 0
  {
    if s == [] then 1 else NonZeroProduct(Gap(i, s[0]), Denominator(s[1..], i))
  }

  function NonZeroProduct(a: int, b: int): (c: int)
    requires a != 0 && b != 0
    ensures c == a * b && c != 0
  {
    a * b
  }

  /** The weight of member `i`, if the division is exact. */
  function Mu(s: seq<int>, i: int): Option<int> {
    if |s| < 2 || i !in s || (DELTA * Numerator(s, i)) % Denominator(s, i) != 0 then None
    else Some((DELTA * Numerator(s, i)) / Denominator(s, i))
  }

  /** The loop over the subset that computes the weight. */
  method LagrangeMu(subset: seq<int>, i: int) returns (mu: Option<int>)
    ensures mu == Mu(subset, i)
    ensures mu.Some? ==> mu.value * Denominator(subset, i) == DELTA * Numerator(subset, i)
  {
    if |subset| < 2 {
      return None;
    }
    if i !in subset {
      return None;
    }
    hide Numerator, Denominator;
    var num, den := DELTA, 1;
    var k := 0;
    assert subset[0..] == subset;
    while k < |subset|
      invariant 0 <= k <= |subset|
      invariant num * Numerator(subset[k..], i) == DELTA * Numerator(subset, i)
      invariant den * Denominator(subset[k..], i) == Denominator(subset, i)
      invariant den != 0
    {
      var j := subset[k];
      ProductsNext(subset, k, i, num, den);
      if j != i {
        num := num * -j;
        den := NonZeroProduct(den, i - j);
      }
      k := k + 1;
    }
    assert subset[k..] == [];
    NothingLeft(i);
    if num % den != 0 {
      return None;
    }
    mu := Some(num / den);
    assert num == den * (num / den) + num % den;
  }

  lemma NothingLeft(i: int)
    ensures Numerator([], i) == 1 && Denominator([], i) == 1
  {
  }

  /** One more member in both products. */
  lemma ProductsNext(s: seq<int>, k: nat, i: int, num: int, den: int)
    requires k < |s|
    ensures num * Numerator(s[k..], i) == (num * Minus(i, s[k])) * Numerator(s[k + 1..], i)
    ensures den * Denominator(s[k..], i) == (den * Gap(i, s[k])) * Denominator(s[k + 1..], i)
  {
    var rest := s[k + 1..];
    assert s[k..][0] == s[k] && s[k..][1..] == rest;
    MulAssoc(num, Minus(i, s[k]), Numerator(rest, i));
    MulAssoc(den, Gap(i, s[k]), Denominator(rest, i));
  }

  // ----- the division is always exact -----

  predicate Distinct(s: seq<int>) {
    forall a, b :: 0 <= a < b < |s| ==> s[a] != s[b]
  }

  /** Different members, numbered from 1 to at most 16. */
  predicate IsSubset(s: seq<int>) {
    Distinct(s) && forall k :: 0 <= k < |s| ==> 1 <= s[k] <= MAX_COMMITTEE
  }

  /** The product of the gaps to the members of `m` up to `n`. */
  function GapsIn(m: set<int>, i: int, n: nat): int {
    if n == 0 then 1 else (if n in m then Gap(i, n) else 1) * GapsIn(m, i, n - 1)
  }

  function GapsOut(m: set<int>, i: int, n: nat): int {
    if n == 0 then 1 else (if n in m then 1 else Gap(i, n)) * GapsOut(m, i, n - 1)
  }

  function AllGaps(i: int, n: nat): int {
    if n == 0 then 1 else Gap(i, n) * AllGaps(i, n - 1)
  }

  lemma {:induction false} GapsSplit(m: set<int>, i: int, n: nat)
    ensures AllGaps(i, n) == GapsIn(m, i, n) * GapsOut(m, i, n)
  {
    if n > 0 {
      GapsSplit(m, i, n - 1);
      var a, b := (if n in m then Gap(i, n) else 1), (if n in m then 1 else Gap(i, n));
      Shuffle(a, b, GapsIn(m, i, n - 1), GapsOut(m, i, n - 1));
    }
  }

  lemma {:induction false} GapsInsert(m: set<int>, x: int, i: int, n: nat)
    requires 1 <= x <= n && x !in m
    ensures GapsIn(m + {x}, i, n) == Gap(i, x) * GapsIn(m, i, n)
  {
    var f := if n in m then Gap(i, n) else 1;
    var rest := GapsIn(m, i, n - 1);
    if n == x {
      GapsSame(m, x, i, n - 1);
    } else {
      GapsInsert(m, x, i, n - 1);
      MulAssoc(f, Gap(i, x), rest);
      MulAssoc(Gap(i, x), f, rest);
    }
  }

  lemma {:induction false} GapsSame(m: set<int>, x: int, i: int, n: nat)
    requires n < x
    ensures GapsIn(m + {x}, i, n) == GapsIn(m, i, n)
  {
    if n > 0 {
      GapsSame(m, x, i, n - 1);
    }
  }

  lemma {:induction false} GapsNone(i: int, n: nat)
    ensures GapsIn({}, i, n) == 1
  {
    if n > 0 {
      GapsNone(i, n - 1);
    }
  }

  function Members(s: seq<int>): set<int> { set x | x in s }

  lemma {:induction false} DenominatorIsGaps(s: seq<int>, i: int)
    requires IsSubset(s)
    ensures Denominator(s, i) == GapsIn(Members(s), i, MAX_COMMITTEE)
    decreases |s|
  {
    if s == [] {
      assert Members(s) == {};
      GapsNone(i, MAX_COMMITTEE);
    } else {
      DenominatorIsGaps(s[1..], i);
      assert Members(s) == Members(s[1..]) + {s[0]};
      GapsInsert(Members(s[1..]), s[0], i, MAX_COMMITTEE);
    }
  }

  function Factorial(n: nat): int { if n == 0 then 1 else n * Factorial(n - 1) }

  /** Binomial coefficients, by Pascal's rule: the ways to split `a + b` into `a` and `b`. */
  function Choose(a: nat, b: nat): int {
    if a == 0 || b == 0 then 1 else Choose(a - 1, b) + Choose(a, b - 1)
  }

  lemma {:induction false} FactorialSplit(a: nat, b: nat)
    ensures Factorial(a + b) == Choose(a, b) * (Factorial(a) * Factorial(b))
  {
    if a > 0 && b > 0 {
      FactorialSplit(a - 1, b);
      FactorialSplit(a, b - 1);
      var x, y, u, v := Choose(a - 1, b), Choose(a, b - 1), Factorial(a - 1), Factorial(b - 1);
      var f := Factorial(a + b - 1);
      assert f == x * (u * (b * v)) && f == y * ((a * u) * v);
      Pascal(a, b, x, y, u, v);
      assert Factorial(a + b) == (a + b) * f == a * f + b * f;
    }
  }

  lemma Pascal(a: int, b: int, x: int, y: int, u: int, v: int)
    ensures (x + y) * ((a * u) * (b * v)) == a * (x * (u * (b * v))) + b * (y * ((a * u) * v))
  {
    assert x * ((a * u) * (b * v)) == a * (x * (u * (b * v)));
    assert y * ((a * u) * (b * v)) == b * (y * ((a * u) * v));
  }

  function Sign(k: nat): int { if k % 2 == 0 then 1 else -1 }

  lemma {:induction false} GapsBelow(i: nat, n: nat)
    requires n < i
    ensures AllGaps(i, n) * Factorial(i - 1 - n) == Factorial(i - 1)
  {
    if n > 0 {
      GapsBelow(i, n - 1);
      var g, f := AllGaps(i, n - 1), Factorial(i - 1 - n);
      assert Factorial(i - n) == (i - n) * f;
      Swap(g, i - n, f);
      MulAssoc(i - n, g, f);
    }
  }

  lemma NegateBoth(k: int, s: int, a: int, b: int)
    ensures k * (s * (a * b)) == (-s) * (a * ((-k) * b))
  {
  }

  /** All gaps of member `i` among `n`: (i - 1)! below and (n - i)! above, with a sign. */
  lemma {:induction false} GapsAreFactorials(i: nat, n: nat)
    requires 1 <= i <= n
    ensures AllGaps(i, n) == Sign(n - i) * (Factorial(i - 1) * Factorial(n - i))
  {
    if n == i {
      GapsBelow(i, i - 1);
    } else {
      GapsAreFactorials(i, n - 1);
      var s, a, b := Sign(n - 1 - i), Factorial(i - 1), Factorial(n - 1 - i);
      assert Sign(n - i) == -s;
      NegateBoth(i - n, s, a, b);
    }
  }

  lemma DeltaIsFactorial()
    ensures DELTA == Factorial(MAX_COMMITTEE)
  {
    assert Factorial(4) == 24;
    assert Factorial(8) == 8 * (7 * (6 * (5 * Factorial(4))));
    assert Factorial(12) == 12 * (11 * (10 * (9 * Factorial(8))));
    assert Factorial(16) == 16 * (15 * (14 * (13 * Factorial(12))));
  }

  /** All gaps of one member multiply to a divisor of 16!. */
  lemma AllGapsDivide(i: int) returns (q: int)
    requires 1 <= i <= MAX_COMMITTEE
    ensures DELTA == q * AllGaps(i, MAX_COMMITTEE)
  {
    var a, b := i - 1, MAX_COMMITTEE - i;
    DeltaIsFactorial();
    FactorialSplit(a, b);
    GapsAreFactorials(i, MAX_COMMITTEE);
    var f, s, c := Factorial(a) * Factorial(b), Sign(b), Choose(a, b);
    q := 16 * c * s;
    assert Factorial(16) == 16 * Factorial(15);
    assert (16 * c * s) * (s * f) == 16 * (c * f) by { SignSquare(b, 16 * c, f); MulAssoc(16, c, f); }
  }

  lemma SignSquare(b: nat, x: int, f: int)
    ensures (x * Sign(b)) * (Sign(b) * f) == x * f
  {
  }

  /** Every member of every committee subset of two or more has an integer weight. */
  lemma MuExists(s: seq<int>, i: int)
    requires IsSubset(s) && |s| >= 2 && i in s
    ensures Mu(s, i).Some?
    ensures Mu(s, i).value * Denominator(s, i) == DELTA * Numerator(s, i)
  {
    hide Numerator, Denominator;
    var t := DenominatorDivides(s, i);
    var d, n := Denominator(s, i), Numerator(s, i);
    MulAssoc(d, t, n);
    ExactDivision(DELTA * n, d, t * n);
  }

  /** The weight is refused only for subsets that are too small and for others than their members. */
  lemma MuExistsIff(s: seq<int>, i: int)
    requires IsSubset(s)
    ensures Mu(s, i).Some? <==> |s| >= 2 && i in s
  {
    hide Numerator, Denominator, IsSubset;
    if |s| >= 2 && i in s {
      MuExists(s, i);
    }
  }

  lemma DenominatorDivides(s: seq<int>, i: int) returns (t: int)
    requires IsSubset(s) && i in s
    ensures DELTA == Denominator(s, i) * t
  {
    hide Denominator, GapsIn, GapsOut, AllGaps;
    var k :| 0 <= k < |s| && s[k] == i;
    var q := AllGapsDivide(i);
    var out_ := GapsOut(Members(s), i, MAX_COMMITTEE);
    DenominatorIsGaps(s, i);
    GapsSplit(Members(s), i, MAX_COMMITTEE);
    t := q * out_;
    Swap(q, Denominator(s, i), out_);
  }

  lemma Swap(q: int, d: int, o: int)
    ensures q * (d * o) == d * (q * o)
  {
  }

  lemma ExactDivision(x: int, d: int, t: int)
    requires d != 0 && x == d * t
    ensures x % d == 0 && x / d == t
  {
    if d > 0 {
      DivUnique(x, t, 0, d);
    } else {
      var q, r := x / d, x % d;
      assert x == d * q + r && 0 <= r < -d;
      assert (-d) * (q - t) == r;
      if q - t >= 1 {
        MulMonotone(-d, 1, q - t);
      } else if q - t <= -1 {
        MulMonotone(-d, q - t, -1);
      }
    }
  }
}
