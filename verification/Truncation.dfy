/** Interpolation over the integers that truncates each term, and exactly when that is exact. */
module Truncation {
  import opened Numerals
  import opened ModArith
  import opened Lagrange
  import opened Interpolation
  import opened Polynomials

  // ----- interpolation with truncating division -----

  /** Division that rounds toward zero. */
  function TruncatedDiv(a: int, b: int): int
    requires b != 0
  {
    if (a < 0) == (b < 0) then Abs(a) / Abs(b) else -(Abs(a) / Abs(b))
  }

  function Abs(a: int): nat { if a < 0 then -a else a }

  lemma TruncatedExact(t: int, b: int)
    requires b != 0
    ensures TruncatedDiv(b * t, b) == t
  {
    if b > 0 {
      if t >= 0 { MulMonotone(b, 0, t); DivUnique(b * t, t, 0, b); }
      else { MulMonotone(b, t, -1); assert b * -t == -(b * t); DivUnique(b * -t, -t, 0, b); }
    } else {
      if t > 0 { MulMonotone(-b, 1, t); assert -b * t == -(b * t); DivUnique(-b * t, t, 0, -b); }
      else { MulMonotone(-b, t, 0); assert -b * -t == b * t; DivUnique(-b * -t, -t, 0, -b); }
    }
  }

  /** What the loops compute: every weighted share is divided on its own, and the remainder dropped. */
  function TruncatedSum(s: seq<int>, t: seq<int>, shares: seq<int>): int
    requires |t| == |shares|
  {
    if t == [] then 0
    else TruncatedDiv(shares[0] * Numerator(s, t[0]), Denominator(s, t[0])) + TruncatedSum(s, t[1..], shares[1..])
  }

  /** The products over the places from `j` on, without place `k`. */
  function NumeratorBut(s: seq<int>, k: nat, j: nat): int
    requires k < |s| && j <= |s|
    decreases |s| - j
  {
    if j == |s| then 1 else (if j == k then 1 else -s[j]) * NumeratorBut(s, k, j + 1)
  }

  function DenominatorBut(s: seq<int>, k: nat, j: nat): int
    requires k < |s| && j <= |s|
    decreases |s| - j
  {
    if j == |s| then 1 else (if j == k then 1 else s[k] - s[j]) * DenominatorBut(s, k, j + 1)
  }

  /** A division by zero fails, which nobody looks at, and leaves the dividend as it was. */
  function DivideTerm(a: int, b: int): int { if b == 0 then a else TruncatedDiv(a, b) }

  function TermSum(s: seq<int>, shares: seq<int>, k: nat): int
    requires |s| == |shares| && k <= |s|
    decreases |s| - k
  {
    if k == |s| then 0
    else DivideTerm(shares[k] * NumeratorBut(s, k, 0), DenominatorBut(s, k, 0)) + TermSum(s, shares, k + 1)
  }

  lemma {:induction false} ProductsBut(s: seq<int>, k: nat, j: nat)
    requires k < |s| && j <= |s| && Distinct(s)
    ensures NumeratorBut(s, k, j) == Numerator(s[j..], s[k]) && DenominatorBut(s, k, j) == Denominator(s[j..], s[k])
    decreases |s| - j
  {
    if j < |s| {
      ProductsBut(s, k, j + 1);
      assert s[j..][0] == s[j] && s[j..][1..] == s[j + 1..];
      assert s[j] == s[k] <==> j == k;
    }
  }

  /** With different members it does not matter that a member is told by its place. */
  lemma {:induction false} TermSumIsTruncated(s: seq<int>, shares: seq<int>, k: nat)
    requires |s| == |shares| && k <= |s| && Distinct(s)
    ensures TermSum(s, shares, k) == TruncatedSum(s, s[k..], shares[k..])
    decreases |s| - k
  {
    hide TruncatedDiv, Numerator, Denominator, NumeratorBut, DenominatorBut;
    if k < |s| {
      TermSumIsTruncated(s, shares, k + 1);
      ProductsBut(s, k, 0);
      assert s[0..] == s;
      assert s[k..][0] == s[k] && s[k..][1..] == s[k + 1..];
      assert shares[k..][0] == shares[k] && shares[k..][1..] == shares[k + 1..];
    }
  }

  method InterpolateZero(subset: seq<int>, shares: seq<int>) returns (r: Option<int>)
    ensures |subset| != |shares| || subset == [] ==> r == None
    ensures |subset| == |shares| && subset != [] ==> r == Some(TermSum(subset, shares, 0))
    ensures |subset| == |shares| && subset != [] && Distinct(subset) ==>
              r == Some(TruncatedSum(subset, subset, shares))
  {
    if |subset| != |shares| || subset == [] {
      return None;
    }
    hide TruncatedDiv, TruncatedSum;
    var total, k := 0, 0;
    while k < |subset|
      invariant 0 <= k <= |subset|
      invariant total + TermSum(subset, shares, k) == TermSum(subset, shares, 0)
    {
      var num, den, j := 1, 1, 0;
      while j < |subset|
        invariant 0 <= j <= |subset|
        invariant num * NumeratorBut(subset, k, j) == NumeratorBut(subset, k, 0)
        invariant den * DenominatorBut(subset, k, j) == DenominatorBut(subset, k, 0)
      {
        if j != k {
          MulAssoc(num, -subset[j], NumeratorBut(subset, k, j + 1));
          MulAssoc(den, subset[k] - subset[j], DenominatorBut(subset, k, j + 1));
          num := num * -subset[j];
          den := den * (subset[k] - subset[j]);
        }
        j := j + 1;
      }
      total := total + DivideTerm(shares[k] * num, den);
      k := k + 1;
    }
    if Distinct(subset) {
      TermSumIsTruncated(subset, shares, 0);
      assert subset[0..] == subset && shares[0..] == shares;
    }
    return Some(total);
  }

  /** The values of a polynomial at the given points. */
  function Values(g: seq<int>, t: seq<int>): (r: seq<int>)
    ensures |r| == |t| && forall i :: 0 <= i < |t| ==> r[i] == Eval(g, t[i])
  {
    seq(|t|, i requires 0 <= i < |t| => Eval(g, t[i]))
  }

  // ----- exact or not -----

  /** Every weight of the members `s` is an integer. */
  predicate IntegralWeights(s: seq<int>) {
    forall k :: 0 <= k < |s| ==> Numerator(s, s[k]) % Denominator(s, s[k]) == 0
  }

  /** The shares of any polynomial of low enough degree interpolate to its value at zero. */
  ghost predicate Exact(s: seq<int>) {
    forall g :: |g| <= |s| ==> TruncatedSum(s, s, Values(g, s)) == Eval(g, 0)
  }

  // ----- integer weights suffice -----

  lemma {:induction false} IntegralSum(s: seq<int>, t: seq<int>, g: seq<int>)
    requires forall k :: 0 <= k < |t| ==> Numerator(s, t[k]) % Denominator(s, t[k]) == 0
    ensures TruncatedSum(s, t, Values(g, t)) as real == Sum(s, t, g)
    decreases |t|
  {
    hide Numerator, Denominator, Weight, Eval, TruncatedDiv;
    if t != [] {
      IntegralSum(s, t[1..], g);
      assert Values(g, t)[1..] == Values(g, t[1..]);
      var i, v := t[0], Eval(g, t[0]);
      IntegralTerm(v, Numerator(s, i), Denominator(s, i), Weight(s, i)) by { WeightIsQuotient(s, i); }
    }
  }

  lemma IntegralTerm(v: int, n: int, d: int, w: real)
    requires d != 0 && n % d == 0 && n as real == w * d as real
    ensures TruncatedDiv(v * n, d) as real == w * v as real
  {
    hide TruncatedDiv;
    var q := n / d;
    assert n == d * q;
    RealProduct(d, q);
    Same(q as real, 1.0, d as real, w, n as real);
    Swap(v, d, q);
    TruncatedExact(v * q, d);
    RealProduct(v, q);
  }

  // ----- and they are necessary -----

  /** The product of `x - j` over the members other than `i`. */
  function Distances(s: seq<int>, i: int, x: int): int {
    if s == [] then 1 else (if s[0] == i then 1 else x - s[0]) * Distances(s[1..], i, x)
  }

  function Basis(s: seq<int>, i: int): (g: seq<int>)
    ensures |g| <= if i in s then |s| else |s| + 1
  {
    if s == [] then [1]
    else if s[0] == i then Basis(s[1..], i)
    else Times([-s[0], 1], Basis(s[1..], i))
  }

  lemma {:induction false} BasisEval(s: seq<int>, i: int, x: int)
    ensures Eval(Basis(s, i), x) == Distances(s, i, x)
    decreases |s|
  {
    hide Eval, Times;
    if s == [] {
      EvalOne(x);
    } else {
      BasisEval(s[1..], i, x);
      TimesEval([-s[0], 1], Basis(s[1..], i), x);
      LineEval(s[0], x);
    }
  }

  lemma LineEval(a: int, x: int)
    ensures Eval([-a, 1], x) == x - a
  {
    assert [-a, 1][1..] == [1];
    EvalOne(x);
  }

  lemma {:induction false} DistancesAre(s: seq<int>, i: int)
    ensures Distances(s, i, 0) == Numerator(s, i) && Distances(s, i, i) == Denominator(s, i)
    decreases |s|
  {
    if s != [] {
      DistancesAre(s[1..], i);
    }
  }

  lemma {:induction false} DistancesVanish(s: seq<int>, i: int, x: int)
    requires x in s && x != i
    ensures Distances(s, i, x) == 0
    decreases |s|
  {
    if s[0] != x {
      DistancesVanish(s[1..], i, x);
    }
  }

  /** A polynomial with chosen values at the members: the numerator times the denominator of each. */
  function Mix(s: seq<int>, t: seq<int>): (g: seq<int>)
    requires forall k :: 0 <= k < |t| ==> t[k] in s
    ensures |g| <= |s|
  {
    if t == [] then [] else Plus(Scaled(Numerator(s, t[0]), Basis(s, t[0])), Mix(s, t[1..]))
  }

  function Squares(s: seq<int>, t: seq<int>): int {
    if t == [] then 0 else Numerator(s, t[0]) * Numerator(s, t[0]) + Squares(s, t[1..])
  }

  lemma MixStep(s: seq<int>, t: seq<int>, x: int)
    requires t != [] && forall k :: 0 <= k < |t| ==> t[k] in s
    ensures Eval(Mix(s, t), x) == Numerator(s, t[0]) * Distances(s, t[0], x) + Eval(Mix(s, t[1..]), x)
  {
    hide Eval, Plus, Scaled, Basis, Numerator;
    var i := t[0];
    BasisEval(s, i, x);
    ScaledEval(Numerator(s, i), Basis(s, i), x);
    PlusEval(Scaled(Numerator(s, i), Basis(s, i)), Mix(s, t[1..]), x);
  }

  lemma {:induction false} MixAtZero(s: seq<int>, t: seq<int>)
    requires forall k :: 0 <= k < |t| ==> t[k] in s
    ensures Eval(Mix(s, t), 0) == Squares(s, t)
    decreases |t|
  {
    hide Mix, Numerator, Distances;
    if t == [] {
      MixNothing(s, 0);
    } else {
      MixStep(s, t, 0);
      DistancesAre(s, t[0]);
      MixAtZero(s, t[1..]);
    }
  }

  lemma MixNothing(s: seq<int>, x: int)
    ensures Eval(Mix(s, []), x) == 0
  {
  }

  lemma {:induction false} MixAtMember(s: seq<int>, t: seq<int>, x: int)
    requires Distinct(t) && x in s && forall k :: 0 <= k < |t| ==> t[k] in s
    ensures Eval(Mix(s, t), x) == if x in t then Numerator(s, x) * Denominator(s, x) else 0
    decreases |t|
  {
    hide Mix, Numerator, Denominator, Distances, Eval;
    if t == [] {
      MixNothing(s, x);
    } else {
      MixStep(s, t, x);
      MixAtMember(s, t[1..], x);
      if x == t[0] {
        DistancesAre(s, x);
      } else {
        DistancesVanish(s, t[0], x);
      }
    }
  }

  /** Division that rounds down. */
  function FloorDiv(a: int, b: int): int
    requires b != 0
  {
    if b > 0 then a / b else (-a) / (-b)
  }

  /** The share of the chosen polynomial makes the quotient positive, so that truncating rounds down. */
  lemma WitnessTerm(n: int, d: int)
    requires d != 0
    ensures TruncatedDiv((1 + n * d) * n, d) == n * n + FloorDiv(n, d)
  {
    if d > 0 {
      PositiveTerm(n, d);
    } else {
      PositiveTerm(0 - n, 0 - d);
      Opposite(n, d);
    }
  }

  lemma Opposite(n: int, d: int)
    ensures (0 - n) * (0 - n) == n * n
    ensures (1 + (0 - n) * (0 - d)) * (0 - n) == 0 - (1 + n * d) * n
  {
    assert (0 - n) * (0 - d) == n * d;
  }

  lemma PositiveTerm(n: int, d: int)
    requires d > 0
    ensures var a := (1 + n * d) * n; a >= 0 && a / d == n * n + n / d
  {
    var a, square := (1 + n * d) * n, n * n;
    Squared(n, d);
    MulMonotone(square, 1, d);
    var q, r := n / d, n % d;
    assert n == d * q + r;
    assert (square + q) * d == square * d + d * q;
    DivUnique(a, square + q, r, d);
  }

  lemma Squared(n: int, d: int)
    ensures (1 + n * d) * n == n + (n * n) * d
    ensures n * n >= 0 && n * n >= 0 - n
  {
    MulAssoc(n, n, d);
    Commute(n * d, n);
    if n > 0 {
      MulMonotone(n, 1, n);
    } else if n < 0 {
      MulMonotone(0 - n, 1, 0 - n);
      assert (0 - n) * (0 - n) == n * n;
    }
  }

  function FloorSum(s: seq<int>, t: seq<int>): int {
    if t == [] then 0 else FloorDiv(Numerator(s, t[0]), Denominator(s, t[0])) + FloorSum(s, t[1..])
  }

  lemma {:induction false} WitnessSum(s: seq<int>, t: seq<int>, shares: seq<int>)
    requires |t| == |shares|
    requires forall k :: 0 <= k < |t| ==> shares[k] == 1 + Numerator(s, t[k]) * Denominator(s, t[k])
    ensures TruncatedSum(s, t, shares) == Squares(s, t) + FloorSum(s, t)
    decreases |t|
  {
    hide Numerator, Denominator, TruncatedDiv, FloorDiv;
    if t != [] {
      WitnessSum(s, t[1..], shares[1..]);
      WitnessTerm(Numerator(s, t[0]), Denominator(s, t[0]));
    }
  }

  /** Rounding down a quotient loses nothing just when it is an integer. */
  lemma FloorOf(n: int, d: int, w: real)
    requires d != 0 && n as real == w * d as real
    ensures FloorDiv(n, d) as real <= w
    ensures FloorDiv(n, d) as real == w <==> n % d == 0
  {
    if d > 0 {
      FloorOfPositive(n, d, w);
    } else {
      assert (-n) as real == w * (-d) as real;
      FloorOfPositive(-n, -d, w);
      Divided(n, d);
    }
  }

  lemma FloorOfPositive(n: int, d: int, w: real)
    requires d > 0 && n as real == w * d as real
    ensures (n / d) as real <= w
    ensures (n / d) as real == w <==> n % d == 0
  {
    var q, r := n / d, n % d;
    assert n == d * q + r;
    RealProduct(d, q);
    var rest := w - q as real;
    assert rest * d as real == r as real;
    assert rest < 0.0 ==> rest * d as real < 0.0;
  }

  lemma Divided(n: int, d: int)
    requires d < 0
    ensures n % d == 0 <==> (-n) % (-d) == 0
  {
    var m, q, r := 0 - d, n / d, n % d;
    assert n == d * q + r;
    if r == 0 {
      DivUnique(-n, q, 0, m);
    } else {
      DivUnique(-n, q - 1, m - r, m);
    }
  }

  lemma {:induction false} FloorSumBelow(s: seq<int>, t: seq<int>)
    ensures FloorSum(s, t) as real <= Sum(s, t, [1])
    ensures FloorSum(s, t) as real == Sum(s, t, [1]) ==>
              forall k :: 0 <= k < |t| ==> Numerator(s, t[k]) % Denominator(s, t[k]) == 0
    decreases |t|
  {
    hide Numerator, Denominator, Weight, Eval, FloorDiv;
    if t != [] {
      FloorSumBelow(s, t[1..]);
      EvalOne(t[0]);
      WeightIsQuotient(s, t[0]);
      FloorOf(Numerator(s, t[0]), Denominator(s, t[0]), Weight(s, t[0]));
      assert forall k :: 0 < k < |t| ==> t[k] == t[1..][k - 1];
    }
  }

  /** One polynomial that goes wrong whenever a weight is not an integer. */
  lemma WitnessLoses(s: seq<int>)
    requires s != [] && Distinct(s)
    ensures var g := Plus([1], Mix(s, s));
            |g| <= |s| && (TruncatedSum(s, s, Values(g, s)) == Eval(g, 0) ==> IntegralWeights(s))
  {
    hide Eval, Plus, Mix, Numerator, Denominator, TruncatedSum, FloorSum, Squares, Sum;
    var g := Plus([1], Mix(s, s));
    PlusEval([1], Mix(s, s), 0);
    EvalOne(0);
    MixAtZero(s, s);
    forall k | 0 <= k < |s|
      ensures Values(g, s)[k] == 1 + Numerator(s, s[k]) * Denominator(s, s[k])
    {
      PlusEval([1], Mix(s, s), s[k]);
      EvalOne(s[k]);
      MixAtMember(s, s, s[k]);
    }
    WitnessSum(s, s, Values(g, s));
    FloorSumBelow(s, s);
    WeightsAddToOne(s);
  }

  /**
    Interpolation that truncates each term is exact for every polynomial of low enough degree if and
    only if all the weights of the members are integers.
   */
  lemma ExactIffIntegral(s: seq<int>)
    requires s != [] && Distinct(s)
    ensures Exact(s) <==> IntegralWeights(s)
  {
    hide Eval, TruncatedSum, Sum, Numerator, Denominator;
    WitnessLoses(s);
    if IntegralWeights(s) {
      forall g | |g| <= |s|
        ensures TruncatedSum(s, s, Values(g, s)) == Eval(g, 0)
      {
        IntegralSum(s, s, g);
        Interpolates(s, g);
      }
    }
  }

  /** Members 1 and 3 have weights that are not: 2 - x at 1 and 3 comes out as 1. */
  lemma TruncationLoses()
    ensures Values([2, -1], [1, 3]) == [1, -1] && Eval([2, -1], 0) == 2
    ensures TruncatedSum([1, 3], [1, 3], [1, -1]) == 1
  {
    assert [2, -1][1..] == [-1] && [-1][1..] == [];
    assert Eval([-1], 1) == -1 && Eval([-1], 3) == -1 && Eval([-1], 0) == -1;
    assert [1, 3][1..] == [3] && [3][1..] == [] && [1, -1][1..] == [-1];
    assert Numerator([3], 1) == -3 && Denominator([3], 1) == -2;
    assert Numerator([3], 3) == 1 && Denominator([3], 3) == 1;
    assert TruncatedDiv(-3, -2) == 1;
    assert TruncatedDiv(1, 2) == 0;
    assert TruncatedSum([1, 3], [3], [-1]) == 0;
  }

  /** A member that is given twice: both divisions fail, and the undivided terms are added up. */
  lemma RepeatedMember(i: int, a: int, b: int)
    ensures TermSum([i, i], [a, b], 0) == a * -i + b * -i
  {
    var s := [i, i];
    assert NumeratorBut(s, 0, 1) == -i * NumeratorBut(s, 0, 2) == -i;
    assert DenominatorBut(s, 0, 1) == (i - i) * DenominatorBut(s, 0, 2) == 0;
    assert NumeratorBut(s, 1, 1) == 1 && DenominatorBut(s, 1, 1) == 1;
    assert NumeratorBut(s, 0, 0) == -i && DenominatorBut(s, 0, 0) == 0;
    assert NumeratorBut(s, 1, 0) == -i && DenominatorBut(s, 1, 0) == 0;
    assert TermSum(s, [a, b], 1) == b * -i + TermSum(s, [a, b], 2);
  }

  // ----- the members 1 to k -----

  function FirstMembers(k: nat): (s: seq<int>)
    ensures |s| == k && forall i :: 0 <= i < k ==> s[i] == i + 1
    ensures Distinct(s)
  {
    if k == 0 then [] else FirstMembers(k - 1) + [k]
  }

  lemma {:induction false} ProductsSnoc(s: seq<int>, x: int, i: int)
    ensures Numerator(s + [x], i) == Numerator(s, i) * Minus(i, x)
    ensures Denominator(s + [x], i) == Denominator(s, i) * Gap(i, x)
    decreases |s|
  {
    if s == [] {
      assert s + [x] == [x] && [x][1..] == [];
    } else {
      assert (s + [x])[1..] == s[1..] + [x];
      ProductsSnoc(s[1..], x, i);
      MulAssoc(Minus(i, s[0]), Numerator(s[1..], i), Minus(i, x));
      MulAssoc(Gap(i, s[0]), Denominator(s[1..], i), Gap(i, x));
    }
  }

  lemma FirstProducts(k: nat, i: int)
    requires k > 0
    ensures Numerator(FirstMembers(k), i) == Numerator(FirstMembers(k - 1), i) * Minus(i, k)
    ensures Denominator(FirstMembers(k), i) == Denominator(FirstMembers(k - 1), i) * Gap(i, k)
  {
    hide Numerator, Denominator;
    ProductsSnoc(FirstMembers(k - 1), k, i);
  }

  lemma {:induction false} DenominatorOfFirst(k: nat, i: int)
    ensures Denominator(FirstMembers(k), i) == AllGaps(i, k)
  {
    if k > 0 {
      hide Denominator, Gap, FirstMembers;
      DenominatorOfFirst(k - 1, i);
      FirstProducts(k, i);
      assert AllGaps(i, k) == Gap(i, k) * AllGaps(i, k - 1);
      Commute(Gap(i, k), AllGaps(i, k - 1));
    }
  }

  lemma {:induction false} NumeratorBelow(k: nat, i: int)
    requires k < i
    ensures Numerator(FirstMembers(k), i) == Sign(k) * Factorial(k)
  {
    if k > 0 {
      hide Numerator, Sign;
      NumeratorBelow(k - 1, i);
      FirstProducts(k, i);
      FlipSign(k - 1, k, Factorial(k - 1));
    }
  }

  lemma FlipSign(j: nat, k: int, f: int)
    ensures (Sign(j) * f) * -k == Sign(j + 1) * (k * f)
  {
    if j % 2 == 0 {
      assert f * -k == -(k * f);
    } else {
      assert (-f) * -k == k * f;
    }
  }

  lemma {:induction false} NumeratorOfFirst(k: nat, i: int)
    requires 1 <= i <= k
    ensures i * Numerator(FirstMembers(k), i) == Sign(k - 1) * Factorial(k)
  {
    hide Numerator, Sign;
    FirstProducts(k, i);
    if k == i {
      NumeratorBelow(k - 1, i);
      Swap(i, Sign(k - 1), Factorial(k - 1));
    } else {
      NumeratorOfFirst(k - 1, i);
      MulAssoc(i, Numerator(FirstMembers(k - 1), i), -(k as int));
      FlipSign(k - 2, k, Factorial(k - 1));
    }
  }

  /** For the members 1 to k the weight of `i` is a binomial coefficient up to sign. */
  function FirstWeight(k: nat, i: nat): int
    requires 1 <= i <= k
  {
    Sign(k - 1) * (Sign(k - i) * Choose(i, k - i))
  }

  lemma FirstWeightExact(k: nat, i: nat)
    requires 1 <= i <= k
    ensures Numerator(FirstMembers(k), i) == Denominator(FirstMembers(k), i) * FirstWeight(k, i)
  {
    hide Numerator, Denominator, AllGaps, Choose, Sign;
    DenominatorOfFirst(k, i);
    NumeratorOfFirst(k, i);
    GapsAreFactorials(i, k);
    FactorialSplit(i, k - i);
    assert Factorial(i) == i * Factorial(i - 1);
    var f := Factorial(i - 1) * Factorial(k - i);
    MulAssoc(i, Factorial(i - 1), Factorial(k - i));
    SignIsUnit(k - i);
    WeightAlgebra(i, Sign(k - 1), Sign(k - i), Choose(i, k - i), f, Numerator(FirstMembers(k), i));
  }

  lemma SignIsUnit(k: nat)
    ensures Sign(k) * Sign(k) == 1
  {
  }

  lemma WeightAlgebra(i: int, a: int, b: int, c: int, f: int, n: int)
    requires i > 0 && b * b == 1 && i * n == a * (c * (i * f))
    ensures n == (b * f) * (a * (b * c))
  {
    assert a * (c * (i * f)) == i * (a * (c * f)) by { Swap(c, i, f); Swap(a, i, c * f); }
    CancelLeft(i, n, a * (c * f));
    calc {
      (b * f) * (a * (b * c));
      { Swap(b * f, a, b * c); }
      a * ((b * f) * (b * c));
      { Shuffle(b, f, b, c); }
      a * ((b * b) * (f * c));
      a * (c * f);
    }
  }

  /** The members 1 to k have integer weights, so their shares interpolate exactly, for every degree below k. */
  lemma InterpolatesFirst(k: nat, g: seq<int>)
    requires |g| <= k
    ensures TruncatedSum(FirstMembers(k), FirstMembers(k), Values(g, FirstMembers(k))) == Eval(g, 0)
  {
    var s := FirstMembers(k);
    if k > 0 {
      hide Eval, TruncatedSum, Numerator, Denominator, FirstWeight;
      forall j | 0 <= j < k
        ensures Numerator(s, s[j]) % Denominator(s, s[j]) == 0
      {
        FirstWeightExact(k, j + 1);
        Multiple(Denominator(s, j + 1), FirstWeight(k, j + 1));
      }
      ExactIffIntegral(s);
    }
  }

  lemma Multiple(d: int, w: int)
    requires d != 0
    ensures (d * w) % d == 0
  {
    if d > 0 {
      DivUnique(d * w, w, 0, d);
    } else {
      DivUnique(0 - d * w, w, 0, 0 - d);
      Divided(d * w, d);
    }
  }
}
