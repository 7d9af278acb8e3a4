/** Threshold decryption: partial decryptions, their combination, and the final plaintext. */
module Threshold {
  import opened Numerals
  import opened ModArith
  import opened SignedPower
  import opened Lagrange
  import opened Interpolation
  import opened Paillier

  // ----- the operations -----

  /** A member's partial decryption: c^(2 Delta share) modulo N^2. */
  function PartialDecrypt(n: int, c: int, share: int): Option<nat>
    requires n > 1
  {
    SquarePositive(n);
    ModExp(c, 2 * (share * DELTA), n * n)
  }

  /** The product of the first `k` partial decryptions, each to the power of twice its weight. */
  function Combined(n: int, subset: seq<int>, partials: seq<int>, k: nat): Option<nat>
    requires n > 1 && |subset| == |partials| && k <= |subset|
  {
    SquarePositive(n);
    if k == 0 then Some(1)
    else
      var c :- Combined(n, subset, partials, k - 1);
      var mu :- Mu(subset, subset[k - 1]);
      var term :- ModExp(partials[k - 1], 2 * mu, n * n);
      Some((c * term) % (n * n))
  }

  method Combine(n: int, subset: seq<int>, partials: seq<int>, threshold: nat) returns (r: Option<nat>)
    requires n > 1
    ensures |subset| != |partials| || threshold == 0 || |subset| < threshold ==> r == None
    ensures |subset| == |partials| && 0 < threshold <= |subset| ==> r == Combined(n, subset, partials, |subset|)
  {
    if |subset| != |partials| || threshold == 0 || |subset| < threshold {
      return None;
    }
    SquarePositive(n);
    var c: nat := 1;
    var k := 0;
    while k < |subset|
      invariant 0 <= k <= |subset|
      invariant Combined(n, subset, partials, k) == Some(c)
    {
      var mu := LagrangeMu(subset, subset[k]);
      if mu.None? {
        Stuck(n, subset, partials, k + 1, |subset|);
        return None;
      }
      var term := ModExp(partials[k], 2 * mu.value, n * n);
      if term.None? {
        Stuck(n, subset, partials, k + 1, |subset|);
        return None;
      }
      c := (c * term.value) % (n * n);
      k := k + 1;
    }
    return Some(c);
  }

  lemma {:induction false} Stuck(n: int, subset: seq<int>, partials: seq<int>, k: nat, k': nat)
    requires n > 1 && |subset| == |partials| && k <= k' <= |subset|
    requires Combined(n, subset, partials, k) == None
    ensures Combined(n, subset, partials, k') == None
    decreases k' - k
  {
    if k < k' {
      Stuck(n, subset, partials, k + 1, k');
    }
  }

  /** The plaintext from the combination: L(C) / (-4 Delta^2 theta) modulo N, where L(x) = (x - 1) / N. */
  function Finalize(n: int, c: nat, theta: nat): Option<nat>
    requires n > 1
  {
    var l := if c == 0 then 0 else (c - 1) / n;
    var inv :- ModInverse(SCALE * theta, n);
    Some(ModMul(l, -(inv as int) % n, n))
  }

  /**
    What the last step computes from any combination: the number below N that, times -4 Delta^2 theta, is L(c)
    modulo N. It exists exactly if the factor has an inverse.
   */
  lemma FinalizeSolves(n: int, c: nat, theta: nat, l: nat)
    requires n > 1 && (if c == 0 then l == 0 else n * l < c <= n * l + n)
    ensures Finalize(n, c, theta).Some? <==> exists x :: Inverse(SCALE * theta, x, n)
    ensures Finalize(n, c, theta).Some? ==>
              var m := Finalize(n, c, theta).value; m < n && Cong(m * -(SCALE * theta), l, n)
  {
    hide Cong;
    if x :| Inverse(SCALE * theta, x, n) {
      InverseFound(SCALE * theta, x, n);
    }
    if c > 0 {
      DivUnique(c - 1, l, c - 1 - n * l, n);
    }
    if Finalize(n, c, theta).Some? {
      Solves(n, l, SCALE * theta, ModInverse(SCALE * theta, n).value);
    }
  }

  lemma Solves(n: int, l: int, a: int, inv: int)
    requires n > 1 && Inverse(a, inv, n)
    ensures Cong(ModMul(l, -inv % n, n) * -a, l, n)
  {
    hide Cong;
    var m, x := ModMul(l, -inv % n, n), l * (-inv % n);
    CongMod(x, n);
    CongScale(m, x, -a, n);
    CongMod(-inv, n);
    CongScale(-inv % n, -inv, l * -a, n);
    assert (-inv % n) * (l * -a) == x * -a by { Rotate(-inv % n, l, -a); }
    CongTrans(m * -a, x * -a, -inv * (l * -a), n);
    CongScale(a * inv, 1, l, n);
    assert -inv * (l * -a) == (a * inv) * l by { Signs(inv, l, a); }
    assert 1 * l == l;
    CongTrans(m * -a, (a * inv) * l, l, n);
  }

  lemma Rotate(x: int, l: int, y: int)
    ensures x * (l * y) == (l * x) * y
  {
    MulAssoc(x, l, y);
    Commute(x, l);
  }

  lemma Signs(inv: int, l: int, a: int)
    ensures -inv * (l * -a) == (a * inv) * l
  {
    assert l * -a == -(l * a) && -inv * -(l * a) == inv * (l * a);
    MulAssoc(inv, l, a);
    MulAssoc(a, inv, l);
  }

  /** 4 Delta^2 */
  const SCALE := 4 * (DELTA * DELTA)

  // ----- combining -----

  /** Member `i` holds the value at `i` of a polynomial whose value at zero is the secret. */
  predicate Honest(n: int, c: int, g: seq<int>, subset: seq<int>, partials: seq<int>)
    requires n > 1
  {
    |partials| == |subset| &&
    forall k :: 0 <= k < |subset| ==> PartialDecrypt(n, c, Eval(g, subset[k])) == Some(partials[k])
  }

  /** Enough members for the degree, at least two, and all different. */
  predicate Qualified(g: seq<int>, subset: seq<int>) {
    IsSubset(subset) && |subset| >= 2 && |g| <= |subset|
  }

  /** One partial decryption, weighted: the exponents multiply. */
  lemma TermIsPower(n: int, c: int, d: int, share: int, p: int, mu: int)
    requires n > 1 && n * n > 0 && Inverse(c, d, n * n)
    requires PartialDecrypt(n, c, share) == Some(p)
    ensures ModExp(p, 2 * mu, n * n) == Some(SignedPow(c, d, 4 * DELTA * (mu * share)) % (n * n))
  {
    hide Cong, SignedPow;
    var e, m := 2 * (share * DELTA), n * n;
    ModExpIsPower(c, d, e, m);
    var u, v := SignedPow(c, d, e), SignedPow(c, d, -e);
    CongMod(u, m);
    SignedInverse(c, d, e, m);
    InverseCong(u, p, v, m);
    ModExpIsPower(p, v, 2 * mu, m);
    CongSame(v, v, m);
    SignedCong(p, v, u, v, 2 * mu, m);
    SignedMul(c, d, e, 2 * mu, m);
    assert e * (2 * mu) == 4 * DELTA * (mu * share);
    var a, b := SignedPow(p, v, 2 * mu), SignedPow(c, d, e * (2 * mu));
    CongTrans(a, SignedPow(u, v, 2 * mu), b, m);
    SameRemainder(a, b, m);
  }

  lemma InverseCong(u: int, p: int, v: int, m: int)
    requires m > 0 && Cong(p, u, m) && Inverse(u, v, m)
    ensures Inverse(p, v, m)
  {
    CongScale(p, u, v, m);
  }

  lemma SameRemainder(a: int, b: int, m: int)
    requires m > 0 && Cong(a, b, m)
    ensures a % m == b % m
  {
  }

  /** The weighted shares of the first `k` members. */
  function ShareSumTo(s: seq<int>, g: seq<int>, k: nat): int
    requires k <= |s|
  {
    if k == 0 then 0
    else ShareSumTo(s, g, k - 1) + if Mu(s, s[k - 1]).Some? then Mu(s, s[k - 1]).value * Eval(g, s[k - 1]) else 0
  }

  lemma {:induction false} ShareSumSplit(s: seq<int>, g: seq<int>, k: nat)
    requires k <= |s|
    ensures ShareSum(s, s, g) == ShareSumTo(s, g, k) + ShareSum(s, s[k..], g)
  {
    hide Mu, Eval;
    if k == 0 {
      assert s[0..] == s;
    } else {
      ShareSumSplit(s, g, k - 1);
      assert s[k - 1..][1..] == s[k..];
    }
  }

  lemma {:induction false} CombinedIsPower(n: int, c: int, d: int, g: seq<int>,
                                           subset: seq<int>, partials: seq<int>, k: nat)
    requires n > 1 && n * n > 0 && Inverse(c, d, n * n)
    requires Qualified(g, subset) && Honest(n, c, g, subset, partials) && k <= |subset|
    ensures Combined(n, subset, partials, k)
         == Some(SignedPow(c, d, 4 * DELTA * ShareSumTo(subset, g, k)) % (n * n))
  {
    hide SignedPow, Mu, Eval, Cong, ModExp, IsSubset;
    var m := n * n;
    if k == 0 {
      PowZero(c, d, n);
    } else {
      CombinedIsPower(n, c, d, g, subset, partials, k - 1);
      var i := subset[k - 1];
      MuExists(subset, i);
      var mu, share, t := Mu(subset, i).value, Eval(g, i), ShareSumTo(subset, g, k - 1);
      TermIsPower(n, c, d, share, partials[k - 1], mu);
      var e, f := 4 * DELTA * t, 4 * DELTA * (mu * share);
      PowersMultiply(c, d, e, f, m);
      assert e + f == 4 * DELTA * (t + mu * share);
    }
  }

  lemma PowZero(c: int, d: int, n: int)
    requires n > 1
    ensures n * n > 0 && SignedPow(c, d, 4 * DELTA * 0) % (n * n) == 1
  {
    SquarePositive(n);
    DivUnique(1, 0, 1, n * n);
  }

  lemma PowersMultiply(c: int, d: int, e: int, f: int, m: int)
    requires m > 0 && Inverse(c, d, m)
    ensures ((SignedPow(c, d, e) % m) * (SignedPow(c, d, f) % m)) % m == SignedPow(c, d, e + f) % m
  {
    hide SignedPow;
    var x, y := SignedPow(c, d, e), SignedPow(c, d, f);
    SignedAdd(c, d, e, f, m);
    MulMod(x, y % m, m);
    MulMod(x, y, m);
  }

  /**
    Any qualified subset of the committee, with honest partial decryptions, combines to the same
    value: the ciphertext to the power of 4 Delta^2 times the secret.
   */
  lemma CombineAnySubset(n: int, c: int, d: int, g: seq<int>, subset: seq<int>, partials: seq<int>)
    requires n > 1 && n * n > 0 && Inverse(c, d, n * n)
    requires Qualified(g, subset) && Honest(n, c, g, subset, partials)
    ensures Combined(n, subset, partials, |subset|) == Some(SignedPow(c, d, SCALE * Eval(g, 0)) % (n * n))
  {
    hide SignedPow, Combined, Eval;
    CombinedIsPower(n, c, d, g, subset, partials, |subset|);
    ShareSumSplit(subset, g, |subset|);
    assert subset[|subset|..] == [];
    SharesInterpolate(subset, g);
    assert 4 * DELTA * (DELTA * Eval(g, 0)) == SCALE * Eval(g, 0);
  }

  // ----- the plaintext -----

  /**
    What key generation promises: the secret is minus theta modulo N, and it annihilates every
    N-th power modulo N^2.
   */
  ghost predicate KeyWorks(n: int, g: seq<int>, theta: nat) {
    && n > 1 && n * n > 0
    && Cong(Eval(g, 0), -(theta as int), n)
    && forall r: int, x: int :: Inverse(r, x, n) ==> Cong(SignedPow(Pow(r, n), Pow(x, n), Eval(g, 0)), 1, n * n)
  }

  /** The secret removes the randomness and leaves a multiple of the plaintext. */
  lemma CombinedPlaintext(n: int, m: int, r: int, x: int, s: int)
    requires n > 1 && n * n > 0 && Inverse(r, x, n)
    requires Cong(SignedPow(Pow(r, n), Pow(x, n), s), 1, n * n)
    ensures Cong(SignedPow(Cipher(n, m, r), CipherInverse(n, m, x), SCALE * s), 1 + (m * (SCALE * s)) * n, n * n)
  {
    hide Cong, SignedPow, Cipher, CipherInverse;
    var square, e := n * n, SCALE * s;
    CipherPower(n, m, r, x, e);
    var a, a' := Pow(r, n), Pow(x, n);
    UnitPower(n, r, x);
    SignedMul(a, a', s, SCALE, square);
    assert s * SCALE == e;
    PowerOfOne(SignedPow(a, a', s), SignedPow(a, a', -s), SCALE, square);
    CongTrans(SignedPow(a, a', e), SignedPow(SignedPow(a, a', s), SignedPow(a, a', -s), SCALE), 1, square);
    var b := 1 + (m * e) * n;
    CongScale(SignedPow(a, a', e), 1, b, square);
    assert b * 1 == b;
    CongTrans(SignedPow(Cipher(n, m, r), CipherInverse(n, m, x), e), b * SignedPow(a, a', e), b, square);
  }

  lemma PowerOfOne(u: int, v: int, e: nat, m: int)
    requires m > 0 && Cong(u, 1, m)
    ensures Cong(SignedPow(u, v, e), 1, m)
  {
    PowCong(u, 1, e, m);
    PowOne(e);
  }

  /** L(C) of such a combination is the plaintext times its factor, modulo N. */
  lemma LOf(n: int, t: int)
    requires n > 1 && n * n > 0
    ensures var c := (1 + t * n) % (n * n); c == 1 + (t % n) * n && c > 0 && (c - 1) / n == t % n
  {
    var u := t % n;
    CongMod(t, n);
    LinearCong(n, t, u);
    MulMonotone(n, u, n - 1);
    assert u * n == n * u && n * (n - 1) == n * n - n;
    SquarePositive(n);
    DivUnique(1 + u * n, 0, 1 + u * n, n * n);
    DivUnique(u * n, u, 0, n);
  }

  /** Dividing by the factor gives the plaintext back. */
  lemma Undoes(n: int, m: int, s: int, theta: int, inv: int)
    requires n > 1 && 0 <= m < n && Cong(s, -theta, n) && Inverse(SCALE * theta, inv, n)
    ensures ModMul((m * (SCALE * s)) % n, -inv % n, n) == m
  {
    hide Cong;
    var t, i := m * (SCALE * s), -inv % n;
    CongMod(t, n);
    CongMod(-inv, n);
    CongMul(t % n, t, i, -inv, n);
    var w := m * SCALE * -inv;
    CongScale(s, -theta, w, n);
    Factors(m, SCALE, s, theta, inv);
    CongScale((SCALE * theta) * inv, 1, m, n);
    CongTrans((t % n) * i, s * w, m * ((SCALE * theta) * inv), n);
    CongTrans((t % n) * i, m * ((SCALE * theta) * inv), m, n);
    Reduced((t % n) * i, m, n);
  }

  lemma Factors(m: int, k: int, s: int, theta: int, inv: int)
    ensures (m * (k * s)) * -inv == s * (m * k * -inv)
    ensures -theta * (m * k * -inv) == m * ((k * theta) * inv)
  {
  }

  lemma Reduced(a: int, m: int, n: int)
    requires 0 <= m < n && Cong(a, m, n)
    ensures a % n == m
  {
    DivUnique(m, 0, m, n);
  }

  /**
    Threshold decryption: whichever qualified subset of the committee answers, the ciphertext of `m`
    decrypts to `m`, unless theta has no inverse, and then the code says so.
   */
  lemma Decrypts(n: int, g: seq<int>, theta: nat, m: int, r: int, x: int, c: int, subset: seq<int>, partials: seq<int>)
    requires KeyWorks(n, g, theta) && 0 <= m < n && Inverse(r, x, n)
    requires c == Cipher(n, m, r) % (n * n)
    requires Qualified(g, subset) && Honest(n, c, g, subset, partials)
    ensures var combined := Combined(n, subset, partials, |subset|);
            && combined.Some?
            && Finalize(n, combined.value, theta) == if ModInverse(SCALE * theta, n).Some? then Some(m) else None
  {
    hide Cong, SignedPow, Cipher, CipherInverse, Combined, Eval, Honest, Qualified, ModInverse;
    var square, s, d := n * n, Eval(g, 0), CipherInverse(n, m, x);
    CipherIsUnit(n, m, r, x);
    CongMod(Cipher(n, m, r), square);
    InverseCong(Cipher(n, m, r), c, d, square);
    CombineAnySubset(n, c, d, g, subset, partials);
    CongSame(d, d, square);
    SignedCong(c, d, Cipher(n, m, r), d, SCALE * s, square);
    CombinedPlaintext(n, m, r, x, s);
    var t := m * (SCALE * s);
    CongTrans(SignedPow(c, d, SCALE * s), SignedPow(Cipher(n, m, r), d, SCALE * s), 1 + t * n, square);
    SameRemainder(SignedPow(c, d, SCALE * s), 1 + t * n, square);
    LOf(n, t);
    if ModInverse(SCALE * theta, n).Some? {
      Undoes(n, m, s, theta, ModInverse(SCALE * theta, n).value);
    }
  }
}
