/** Interpolation at zero: weighted values of a polynomial at enough points give its value at zero. */
module Interpolation {
  import opened Lagrange

  // ----- polynomials with integer coefficients -----

  /** The value at `x`, lowest coefficient first. */
  function Eval(g: seq<int>, x: int): int {
    if g == [] then 0 else g[0] + x * Eval(g[1..], x)
  }

  /** Division by `x - a`. */
  function Quotient(g: seq<int>, a: int): (q: seq<int>)
    ensures |q| == if g == [] then 0 else |g| - 1
  {
    if |g| <= 1 then [] else [Eval(g[1..], a)] + Quotient(g[1..], a)
  }

  lemma {:induction false} Division(g: seq<int>, a: int, x: int)
    ensures Eval(g, x) == Eval(g, a) + (x - a) * Eval(Quotient(g, a), x)
    decreases |g|
  {
    if |g| == 1 {
      assert g[1..] == [];
    } else if |g| > 1 {
      Division(g[1..], a, x);
      var h, q := Eval(g[1..], a), Eval(Quotient(g[1..], a), x);
      assert Quotient(g, a)[1..] == Quotient(g[1..], a);
      Recombine(x, a, h, q);
    }
  }

  lemma Recombine(x: int, a: int, h: int, q: int)
    ensures x * (h + (x - a) * q) == a * h + (x - a) * (h + x * q)
  {
    var d := x - a;
    assert x * h == a * h + d * h;
    assert x * (d * q) == d * (x * q);
    assert d * (h + x * q) == d * h + d * (x * q);
  }

  // ----- rational weights -----

  function Ratio(i: int, j: int): real {
    if j == i then 1.0 else (-j) as real / (i - j) as real
  }

  /** The Lagrange coefficient at zero of point `i` among the points `s`. */
  function Weight(s: seq<int>, i: int): real {
    if s == [] then 1.0 else Ratio(i, s[0]) * Weight(s[1..], i)
  }

  /** The weighted sum over `t` of the values of the polynomial `g`, with the weights of `s`. */
  function Sum(s: seq<int>, t: seq<int>, g: seq<int>): real {
    if t == [] then 0.0 else Weight(s, t[0]) * Eval(g, t[0]) as real + Sum(s, t[1..], g)
  }

  /** The same sum with every value multiplied by the distance from `a`. */
  function Shifted(s: seq<int>, t: seq<int>, g: seq<int>, a: int): real {
    if t == [] then 0.0
    else Weight(s, t[0]) * ((t[0] - a) as real * Eval(g, t[0]) as real) + Shifted(s, t[1..], g, a)
  }

  lemma {:induction false} SumDivides(s: seq<int>, t: seq<int>, g: seq<int>, a: int)
    ensures Sum(s, t, g) == Eval(g, a) as real * Sum(s, t, [1]) + Shifted(s, t, Quotient(g, a), a)
    decreases |t|
  {
    hide Weight, Eval, Quotient;
    if t != [] {
      SumDivides(s, t[1..], g, a);
      Division(g, a, t[0]);
      EvalOne(t[0]);
      var c, d, q := Eval(g, a), t[0] - a, Eval(Quotient(g, a), t[0]);
      RealProduct(d, q);
      Expand(Weight(s, t[0]), c as real, d as real, q as real, Eval(g, t[0]) as real,
             Sum(s, t[1..], g), Sum(s, t[1..], [1]), Shifted(s, t[1..], Quotient(g, a), a));
    }
  }

  lemma RealProduct(x: int, y: int)
    ensures (x * y) as real == x as real * y as real
  {
  }

  lemma Expand(w: real, c: real, d: real, q: real, v: real, sum: real, ones: real, shifted: real)
    requires v == c + d * q && sum == c * ones + shifted
    ensures w * v + sum == c * (w * 1.0 + ones) + (w * (d * q) + shifted)
  {
    assert w * (c + d * q) == w * c + w * (d * q);
    assert c * (w * 1.0 + ones) == c * w + c * ones;
  }

  lemma EvalOne(x: int)
    ensures Eval([1], x) == 1
  {
    assert [1][1..] == [];
  }

  /** The factor of the first point cancels against the distance to it. */
  lemma DropFirst(s: seq<int>, i: int)
    requires s != [] && i != s[0]
    ensures Weight(s, i) * (i - s[0]) as real == (-s[0]) as real * Weight(s[1..], i)
  {
    Cancel((-s[0]) as real, (i - s[0]) as real, Weight(s[1..], i));
  }

  lemma Cancel(n: real, d: real, w: real)
    requires d != 0.0
    ensures n / d * w * d == n * w
  {
    assert n / d * d == n;
    assert n / d * w * d == (n / d * d) * w;
  }

  lemma {:induction false} ShiftedDrops(s: seq<int>, t: seq<int>, g: seq<int>)
    requires s != [] && forall k :: 0 <= k < |t| ==> t[k] != s[0]
    ensures Shifted(s, t, g, s[0]) == (-s[0]) as real * Sum(s[1..], t, g)
    decreases |t|
  {
    hide Weight, Eval;
    if t != [] {
      ShiftedDrops(s, t[1..], g);
      DropFirst(s, t[0]);
      Regroup(Weight(s, t[0]), (t[0] - s[0]) as real, Eval(g, t[0]) as real, (-s[0]) as real,
              Weight(s[1..], t[0]), Sum(s[1..], t[1..], g));
    }
  }

  lemma Regroup(w: real, d: real, v: real, m: real, w': real, u: real)
    requires w * d == m * w'
    ensures w * (d * v) + m * u == m * (w' * v + u)
  {
    assert w * (d * v) == (w * d) * v;
    assert (m * w') * v == m * (w' * v);
  }

  /** At the first point the distance is zero, so only the other points remain. */
  lemma ShiftedWhole(s: seq<int>, g: seq<int>)
    requires s != [] && Distinct(s)
    ensures Shifted(s, s, g, s[0]) == (-s[0]) as real * Sum(s[1..], s[1..], g)
  {
    forall k | 0 <= k < |s[1..]|
      ensures s[1..][k] != s[0]
    {
      assert s[1..][k] == s[k + 1];
    }
    ShiftedDrops(s, s[1..], g);
    assert Weight(s, s[0]) * (0.0 * Eval(g, s[0]) as real) == 0.0;
  }

  // ----- the weights add up to one -----

  function Swapped(s: seq<int>): seq<int>
    requires |s| >= 2
  {
    [s[1], s[0]] + s[2..]
  }

  lemma WeightSwapped(s: seq<int>, i: int)
    requires |s| >= 2
    ensures Weight(Swapped(s), i) == Weight(s, i)
  {
    var r := s[2..];
    assert s[1..][1..] == r;
    assert Swapped(s)[1..] == [s[0]] + r && Swapped(s)[1..][1..] == r;
    var a, b, w := Ratio(i, s[0]), Ratio(i, s[1]), Weight(r, i);
    assert Weight(s[1..], i) == b * w && Weight(Swapped(s)[1..], i) == a * w;
    assert a * (b * w) == b * (a * w);
  }

  lemma {:induction false} ShiftedWeights(s: seq<int>, s': seq<int>, t: seq<int>, g: seq<int>, a: int)
    requires forall i :: Weight(s, i) == Weight(s', i)
    ensures Shifted(s, t, g, a) == Shifted(s', t, g, a)
    decreases |t|
  {
    if t != [] {
      ShiftedWeights(s, s', t[1..], g, a);
    }
  }

  lemma ShiftedSwapped(s: seq<int>, g: seq<int>, a: int)
    requires |s| >= 2
    ensures Shifted(s, s, g, a) == Shifted(Swapped(s), Swapped(s), g, a)
  {
    hide Weight, Eval;
    var r, s' := s[2..], Swapped(s);
    forall i ensures Weight(s, i) == Weight(s', i) {
      WeightSwapped(s, i);
    }
    ShiftedWeights(s, s', s', g, a);
    assert s[1..][1..] == r && s'[1..] == [s[0]] + r && s'[1..][1..] == r;
    assert Shifted(s, s[1..], g, a)
        == Weight(s, s[1]) * ((s[1] - a) as real * Eval(g, s[1]) as real) + Shifted(s, r, g, a);
    assert Shifted(s, s'[1..], g, a)
        == Weight(s, s[0]) * ((s[0] - a) as real * Eval(g, s[0]) as real) + Shifted(s, r, g, a);
  }

  lemma {:induction false} SumDifference(s: seq<int>, t: seq<int>, a: int, b: int)
    ensures (b - a) as real * Sum(s, t, [1]) == Shifted(s, t, [1], a) - Shifted(s, t, [1], b)
    decreases |t|
  {
    hide Weight, Eval;
    if t != [] {
      SumDifference(s, t[1..], a, b);
      EvalOne(t[0]);
      assert (t[0] - a) as real - (t[0] - b) as real == (b - a) as real;
      Difference(Weight(s, t[0]), (t[0] - a) as real, (t[0] - b) as real);
      Distribute((b - a) as real, Weight(s, t[0]), Sum(s, t[1..], [1]));
    }
  }

  lemma Difference(w: real, x: real, y: real)
    ensures (x - y) * w == w * (x * 1.0) - w * (y * 1.0)
  {
  }

  lemma Distribute(c: real, w: real, u: real)
    ensures c * (w * 1.0 + u) == c * w + c * u
  {
  }

  lemma {:induction false} WeightsAddToOne(s: seq<int>)
    requires s != [] && Distinct(s)
    ensures Sum(s, s, [1]) == 1.0
    decreases |s|
  {
    var a := s[0];
    if |s| == 1 {
      EvalOne(a);
      assert s[1..] == [];
      assert Weight(s, a) == Ratio(a, a) * Weight(s[1..], a) == 1.0;
    } else {
      WeightsAddToOne(s[1..]);
      WeightsAddToOne(Swapped(s)[1..]);
      TwoDrops(s);
    }
  }

  /** The distances to the first two points differ by a constant, which determines the sum. */
  lemma TwoDrops(s: seq<int>)
    requires |s| >= 2 && Distinct(s)
    requires Sum(s[1..], s[1..], [1]) == 1.0 && Sum(Swapped(s)[1..], Swapped(s)[1..], [1]) == 1.0
    ensures Sum(s, s, [1]) == 1.0
  {
    hide Sum, Shifted, Weight, Eval;
    var a, b := s[0], s[1];
    FirstDrops(s);
    FirstDrops(Swapped(s));
    ShiftedSwapped(s, [1], b);
    SumDifference(s, s, a, b);
    CancelDistance(a, b, Sum(s, s, [1]), Shifted(s, s, [1], a), Shifted(s, s, [1], b));
  }

  lemma FirstDrops(s: seq<int>)
    requires s != [] && Distinct(s) && Sum(s[1..], s[1..], [1]) == 1.0
    ensures Shifted(s, s, [1], s[0]) == (-s[0]) as real
  {
    hide Sum, Shifted;
    ShiftedWhole(s, [1]);
  }

  lemma CancelDistance(a: int, b: int, total: real, x: real, y: real)
    requires a != b && x == (-a) as real && y == (-b) as real && (b - a) as real * total == x - y
    ensures total == 1.0
  {
    var d := (b - a) as real;
    assert d != 0.0 && d == x - y;
    assert d * total / d == total;
  }

  /** Points enough for the degree: the weighted sum is the value at zero. */
  lemma {:induction false} Interpolates(s: seq<int>, g: seq<int>)
    requires Distinct(s) && |g| <= |s|
    ensures Sum(s, s, g) == Eval(g, 0) as real
    decreases |s|
  {
    if s != [] && g != [] {
      var a, q := s[0], Quotient(g, s[0]);
      SumDivides(s, s, g, a);
      WeightsAddToOne(s);
      ShiftedWhole(s, q);
      Interpolates(s[1..], q);
      Division(g, a, 0);
      RealProduct(0 - a, Eval(q, 0));
    } else if s != [] {
      SumOfNothing(s, s);
    }
  }

  lemma {:induction false} SumOfNothing(s: seq<int>, t: seq<int>)
    ensures Sum(s, t, []) == 0.0
    decreases |t|
  {
    if t != [] {
      SumOfNothing(s, t[1..]);
    }
  }

  // ----- integer weights -----

  lemma {:induction false} WeightIsQuotient(s: seq<int>, i: int)
    ensures Numerator(s, i) as real == Weight(s, i) * Denominator(s, i) as real
    decreases |s|
  {
    hide Ratio, Minus, Gap;
    if s != [] {
      WeightIsQuotient(s[1..], i);
      var n, d := Minus(i, s[0]), Gap(i, s[0]);
      RealProduct(n, Numerator(s[1..], i));
      RealProduct(d, Denominator(s[1..], i));
      RatioOf(i, s[0]);
      Products(Ratio(i, s[0]), d as real, n as real, Weight(s[1..], i), Denominator(s[1..], i) as real);
    }
  }

  lemma RatioOf(i: int, j: int)
    ensures Ratio(i, j) * Gap(i, j) as real == Minus(i, j) as real
  {
  }

  lemma Products(r: real, d: real, n: real, w: real, e: real)
    requires r * d == n
    ensures n * (w * e) == (r * w) * (d * e)
  {
    assert (r * d) * (w * e) == (r * w) * (d * e);
  }

  lemma MuIsWeight(s: seq<int>, i: int)
    requires IsSubset(s) && |s| >= 2 && i in s
    ensures Mu(s, i).Some? && Mu(s, i).value as real == DELTA as real * Weight(s, i)
  {
    hide Weight, Numerator, Denominator, Mu;
    MuExists(s, i);
    WeightIsQuotient(s, i);
    var mu, d, n := Mu(s, i).value, Denominator(s, i), Numerator(s, i);
    RealProduct(mu, d);
    RealProduct(DELTA, n);
    Same(mu as real, DELTA as real, d as real, Weight(s, i), n as real);
  }

  lemma Same(mu: real, delta: real, d: real, w: real, n: real)
    requires d != 0.0 && mu * d == delta * n && n == w * d
    ensures mu == delta * w
  {
    assert delta * (w * d) == (delta * w) * d;
    assert mu * d / d == mu && (delta * w) * d / d == delta * w;
  }

  /** The sum of integer weights times shares, over the members `t`. */
  function ShareSum(s: seq<int>, t: seq<int>, g: seq<int>): int {
    if t == [] then 0
    else (if Mu(s, t[0]).Some? then Mu(s, t[0]).value * Eval(g, t[0]) else 0) + ShareSum(s, t[1..], g)
  }

  lemma {:induction false} ShareSumIsSum(s: seq<int>, t: seq<int>, g: seq<int>)
    requires IsSubset(s) && |s| >= 2 && forall k :: 0 <= k < |t| ==> t[k] in s
    ensures ShareSum(s, t, g) as real == DELTA as real * Sum(s, t, g)
    decreases |t|
  {
    hide Mu, Weight;
    if t != [] {
      ShareSumIsSum(s, t[1..], g);
      MuIsWeight(s, t[0]);
      var mu, v := Mu(s, t[0]).value, Eval(g, t[0]);
      RealProduct(mu, v);
      Scale(DELTA as real, Weight(s, t[0]), v as real, Sum(s, t[1..], g));
    }
  }

  lemma Scale(d: real, w: real, v: real, u: real)
    ensures (d * w) * v + d * u == d * (w * v + u)
  {
  }

  /** Any subset of enough members: their weighted shares add up to 16! times the shared secret. */
  lemma SharesInterpolate(s: seq<int>, g: seq<int>)
    requires IsSubset(s) && |s| >= 2 && |g| <= |s|
    ensures ShareSum(s, s, g) == DELTA * Eval(g, 0)
  {
    ShareSumIsSum(s, s, g);
    Interpolates(s, g);
    RealProduct(DELTA, Eval(g, 0));
  }
}
