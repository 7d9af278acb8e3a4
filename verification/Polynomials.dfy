/** Sums and products of polynomials with integer coefficients. */
module Polynomials {
  import opened ModArith
  import opened Interpolation

  function Plus(f: seq<int>, g: seq<int>): (r: seq<int>)
    ensures |r| == if |f| < |g| then |g| else |f|
  {
    if f == [] then g else if g == [] then f else [f[0] + g[0]] + Plus(f[1..], g[1..])
  }

  function Scaled(k: int, f: seq<int>): (r: seq<int>)
    ensures |r| == |f|
  {
    if f == [] then [] else [k * f[0]] + Scaled(k, f[1..])
  }

  function Times(f: seq<int>, g: seq<int>): (r: seq<int>)
    ensures f != [] && g != [] ==> |r| <= |f| + |g| - 1
  {
    if f == [] || g == [] then []
    else if |f| == 1 then Scaled(f[0], g)
    else Plus(Scaled(f[0], g), [0] + Times(f[1..], g))
  }

  lemma {:induction false} PlusEval(f: seq<int>, g: seq<int>, x: int)
    ensures Eval(Plus(f, g), x) == Eval(f, x) + Eval(g, x)
    decreases |f|
  {
    if f != [] && g != [] {
      PlusEval(f[1..], g[1..], x);
      assert Plus(f, g)[1..] == Plus(f[1..], g[1..]);
      var a, b := Eval(f[1..], x), Eval(g[1..], x);
      assert x * (a + b) == x * a + x * b;
    }
  }

  lemma {:induction false} ScaledEval(k: int, f: seq<int>, x: int)
    ensures Eval(Scaled(k, f), x) == k * Eval(f, x)
    decreases |f|
  {
    if f != [] {
      ScaledEval(k, f[1..], x);
      assert Scaled(k, f)[1..] == Scaled(k, f[1..]);
      var a := Eval(f[1..], x);
      assert k * (f[0] + x * a) == k * f[0] + x * (k * a) by { MulAssoc(k, x, a); MulAssoc(x, k, a); }
    }
  }

  lemma {:induction false} TimesEval(f: seq<int>, g: seq<int>, x: int)
    ensures Eval(Times(f, g), x) == Eval(f, x) * Eval(g, x)
    decreases |f|
  {
    if f != [] && g != [] {
      ScaledEval(f[0], g, x);
      var a, b := Eval(f[1..], x), Eval(g, x);
      if |f| == 1 {
        assert f[1..] == [] && x * a == 0;
      } else {
        TimesEval(f[1..], g, x);
        var shifted := [0] + Times(f[1..], g);
        assert shifted[1..] == Times(f[1..], g);
        PlusEval(Scaled(f[0], g), shifted, x);
        assert (f[0] + x * a) * b == f[0] * b + x * (a * b) by { MulAssoc(x, a, b); }
      }
    }
  }
}
