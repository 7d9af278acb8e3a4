/** The algebra of dealer-free key generation: how the shares of the decryption key come about. */
module KeyGeneration {
  import opened ModArith
  import opened SignedPower
  import opened Lagrange
  import opened Interpolation
  import opened Paillier
  import opened Threshold
  import opened Primes
  import opened Polynomials
  import opened Truncation

  // ----- from the dealt polynomials to a working key -----

  /**
    The polynomials that the members have dealt in shares: the primes are `p(0)` and `q(0)`, `beta`
    and `blind` hide the key, and `mask` and `zero` have the value 0 at 0. Degree below `t`, but below
    `2t - 1` for the last two.
   */
  datatype Dealt =
    Dealt(p: seq<int>, q: seq<int>, mask: seq<int>, beta: seq<int>, blind: seq<int>, zero: seq<int>)

  ghost predicate ValidDealt(d: Dealt, t: nat) {
    && 1 <= t && |d.p| <= t && |d.q| <= t && |d.beta| <= t && |d.blind| <= t
    && |d.mask| <= 2 * t - 1 && |d.zero| <= 2 * t - 1
    && IsPrime(Eval(d.p, 0)) && IsPrime(Eval(d.q, 0)) && Eval(d.p, 0) != Eval(d.q, 0)
    && Eval(d.mask, 0) == 0 && Eval(d.zero, 0) == 0
  }

  function Modulus(d: Dealt): int { Eval(d.p, 0) * Eval(d.q, 0) }

  /** Member `i`'s share of the modulus. */
  function ModulusShare(d: Dealt, i: int): int { Eval(d.p, i) * Eval(d.q, i) + Eval(d.mask, i) }

  /** The first members send their shares of the modulus without the sign, and none is negative. */
  predicate ModuliSent(d: Dealt, shares: seq<int>) {
    forall k :: 0 <= k < |shares| ==> shares[k] == Abs(ModulusShare(d, k + 1)) == ModulusShare(d, k + 1)
  }

  /** What the driver makes of the shares of the first members. */
  function Reconstructed(shares: seq<int>): int {
    TruncatedSum(FirstMembers(|shares|), FirstMembers(|shares|), shares)
  }

  /** Reconstruction from the first members gives the value at zero, for every polynomial of low enough degree. */
  lemma ReconstructsZero(g: seq<int>, shares: seq<int>)
    requires |g| <= |shares| && forall k :: 0 <= k < |shares| ==> shares[k] == Eval(g, k + 1)
    ensures Reconstructed(shares) == Eval(g, 0)
  {
    hide Eval, TruncatedSum;
    assert shares == Values(g, FirstMembers(|shares|));
    InterpolatesFirst(|shares|, g);
  }

  /**
    The modulus: the first 2t - 1 shares reconstruct to the product of the primes. They are sent without
    their sign, so none may be negative.
   */
  lemma ModulusReconstructed(d: Dealt, t: nat, shares: seq<int>)
    requires ValidDealt(d, t) && |shares| == 2 * t - 1
    requires ModuliSent(d, shares)
    ensures Reconstructed(shares) == Modulus(d)
  {
    hide IsPrime, Eval, Times, Plus, Reconstructed;
    var g := Plus(Times(d.p, d.q), d.mask);
    ModulusLength(d, t);
    forall k | 0 <= k < |shares|
      ensures shares[k] == Eval(g, k + 1)
    {
      ModulusIsShare(d, k + 1);
    }
    ReconstructsZero(g, shares);
    ModulusIsShare(d, 0);
  }

  lemma ModulusIsShare(d: Dealt, i: int)
    ensures Eval(Plus(Times(d.p, d.q), d.mask), i) == ModulusShare(d, i)
  {
    TimesEval(d.p, d.q, i);
    PlusEval(Times(d.p, d.q), d.mask, i);
  }

  lemma ModulusLength(d: Dealt, t: nat)
    requires ValidDealt(d, t)
    ensures |Plus(Times(d.p, d.q), d.mask)| <= 2 * t - 1
  {
    hide IsPrime, Eval;
  }

  /** Member `i`'s share of (p-1)(q-1). */
  function PhiShare(d: Dealt, i: int): int { Modulus(d) + 1 - Eval(d.p, i) - Eval(d.q, i) }

  /** What member `i` broadcasts: Delta phi(i) beta(i) + N blind(i) + zero(i). */
  function ThetaShare(d: Dealt, i: int): int {
    PhiShare(d, i) * Eval(d.beta, i) * DELTA + Modulus(d) * Eval(d.blind, i) + Eval(d.zero, i)
  }

  /** Member `i`'s share of the decryption key, when `theta` has been reconstructed. */
  function SecretShare(d: Dealt, theta: int, i: int): int { Modulus(d) * Eval(d.blind, i) - theta }

  function PhiPolynomial(d: Dealt): seq<int> {
    Plus([Modulus(d) + 1], Plus(Scaled(-1, d.p), Scaled(-1, d.q)))
  }

  function ThetaPolynomial(d: Dealt): seq<int> {
    Plus(Plus(Scaled(DELTA, Times(PhiPolynomial(d), d.beta)), Scaled(Modulus(d), d.blind)), d.zero)
  }

  function SecretPolynomial(d: Dealt, theta: int): seq<int> { Plus(Scaled(Modulus(d), d.blind), [-theta]) }

  lemma ConstantEval(c: int, x: int)
    ensures Eval([c], x) == c
  {
    assert [c][1..] == [];
  }

  lemma PhiIsShare(d: Dealt, i: int)
    ensures Eval(PhiPolynomial(d), i) == PhiShare(d, i)
  {
    ScaledEval(-1, d.p, i);
    ScaledEval(-1, d.q, i);
    PlusEval(Scaled(-1, d.p), Scaled(-1, d.q), i);
    ConstantEval(Modulus(d) + 1, i);
    PlusEval([Modulus(d) + 1], Plus(Scaled(-1, d.p), Scaled(-1, d.q)), i);
  }

  lemma ThetaIsShare(d: Dealt, i: int)
    ensures Eval(ThetaPolynomial(d), i) == ThetaShare(d, i)
  {
    hide Eval, Plus, Scaled, Times, PhiPolynomial, PhiShare, Modulus;
    var product := Times(PhiPolynomial(d), d.beta);
    PhiIsShare(d, i);
    TimesEval(PhiPolynomial(d), d.beta, i);
    ScaledEval(DELTA, product, i);
    ScaledEval(Modulus(d), d.blind, i);
    PlusEval(Scaled(DELTA, product), Scaled(Modulus(d), d.blind), i);
    PlusEval(Plus(Scaled(DELTA, product), Scaled(Modulus(d), d.blind)), d.zero, i);
  }

  lemma SecretIsShare(d: Dealt, theta: int, i: int)
    ensures Eval(SecretPolynomial(d, theta), i) == SecretShare(d, theta, i)
  {
    hide Eval, Plus, Scaled, Modulus;
    ScaledEval(Modulus(d), d.blind, i);
    ConstantEval(-theta, i);
    PlusEval(Scaled(Modulus(d), d.blind), [-theta], i);
  }

  lemma ThetaLength(d: Dealt, t: nat)
    requires ValidDealt(d, t)
    ensures |ThetaPolynomial(d)| <= 2 * t - 1
  {
    hide IsPrime, Eval;
  }

  /** Reconstruction from the first 2t - 1 members gives Delta (p-1)(q-1) beta(0) + N blind(0). */
  lemma ThetaReconstructed(d: Dealt, t: nat, shares: seq<int>)
    requires ValidDealt(d, t)
    requires |shares| == 2 * t - 1 && forall k :: 0 <= k < |shares| ==> shares[k] == ThetaShare(d, k + 1)
    ensures Reconstructed(shares) == ThetaShare(d, 0)
    ensures ThetaShare(d, 0) == (Eval(d.p, 0) - 1) * (Eval(d.q, 0) - 1) * Eval(d.beta, 0) * DELTA
                                + Modulus(d) * Eval(d.blind, 0)
  {
    hide IsPrime, Eval, Reconstructed, ThetaPolynomial;
    var g := ThetaPolynomial(d);
    forall k | 0 <= k < |shares|
      ensures shares[k] == Eval(g, k + 1)
    {
      ThetaIsShare(d, k + 1);
    }
    ThetaLength(d, t);
    ReconstructsZero(g, shares);
    ThetaIsShare(d, 0);
    var p, q := Eval(d.p, 0), Eval(d.q, 0);
    assert p * q + 1 - p - q == (p - 1) * (q - 1);
  }

  /**
    The key works: the secret shares are the values of a polynomial of degree below `t`, whose value at
    zero is minus theta modulo N and annihilates every N-th power modulo N^2.
   */
  lemma KeyGenerated(d: Dealt, t: nat)
    requires ValidDealt(d, t)
    ensures var n, theta := Modulus(d), ThetaShare(d, 0);
            && n > 1 && KeyWorks(n, SecretPolynomial(d, theta), theta % n)
            && |SecretPolynomial(d, theta)| <= t
            && forall i :: Eval(SecretPolynomial(d, theta), i) == SecretShare(d, theta, i)
  {
    hide IsPrime, Eval, Cong, SignedPow, ThetaPolynomial;
    var n, theta := Modulus(d), ThetaShare(d, 0);
    var p, q := Eval(d.p, 0), Eval(d.q, 0);
    var g := SecretPolynomial(d, theta);
    PrimeProduct(p, q);
    SquarePositive(n);
    assert p * q + 1 - p - q == (p - 1) * (q - 1);
    var k := -(Eval(d.beta, 0) * DELTA);
    forall i
      ensures Eval(g, i) == SecretShare(d, theta, i)
    {
      SecretIsShare(d, theta, i);
    }
    var phi := (p - 1) * (q - 1);
    assert Eval(g, 0) == phi * k by { MulAssoc(phi, Eval(d.beta, 0), DELTA); }
    MinusTheta(Eval(g, 0), theta, Eval(d.blind, 0), n);
    forall r: int, x: int | Inverse(r, x, n)
      ensures Cong(SignedPow(Pow(r, n), Pow(x, n), Eval(g, 0)), 1, n * n)
    {
      AnnihilatesSigned(p, q, r, x, k);
    }
  }

  lemma PrimeProduct(p: int, q: int)
    requires IsPrime(p) && IsPrime(q)
    ensures p * q > 1
  {
    MulMonotone(p, 2, q);
  }

  lemma MinusTheta(s: int, theta: int, b: int, n: int)
    requires n > 0 && s == n * b - theta
    ensures Cong(s, -(theta % n), n)
  {
    assert theta == n * (theta / n) + theta % n;
    assert s == -(theta % n) + (b - theta / n) * n;
    CongIntro(s, -(theta % n), b - theta / n, n);
  }

  // ----- the final division never fails for such a key -----

  lemma UnitModProduct(p: int, q: int, a: int)
    requires IsPrime(p) && IsPrime(q) && p != q && !Divides(p, a) && !Divides(q, a)
    ensures p * q > 1 && (p - 1) * (q - 1) >= 1 && Inverse(a, Pow(a, (p - 1) * (q - 1) - 1), p * q)
  {
    hide Cong, Pow, Divides;
    PrimeProduct(p, q);
    PhiPositive(p, q);
    var phi := (p - 1) * (q - 1);
    OneModPrime(p, a, q - 1);
    OneModPrime(q, a, p - 1);
    assert (q - 1) * (p - 1) == phi;
    OneModProduct(p, q, Pow(a, phi));
    PowStep(a, phi);
  }

  lemma PowStep(a: int, e: nat)
    requires e > 0
    ensures Pow(a, e) == a * Pow(a, e - 1)
  {
  }

  lemma PhiPositive(p: int, q: int)
    requires IsPrime(p) && IsPrime(q)
    ensures (p - 1) * (q - 1) >= 1
  {
    MulMonotone(p - 1, 1, q - 1);
  }

  lemma OneModPrime(p: int, a: int, e: nat)
    requires IsPrime(p) && !Divides(p, a)
    ensures (p - 1) * e >= 0 && Cong(Pow(a, (p - 1) * e), 1, p)
  {
    Fermat(p, a);
    PowMul(a, p - 1, e);
    PowCong(Pow(a, p - 1), 1, e, p);
    PowOne(e);
  }

  lemma OneModProduct(p: int, q: int, w: int)
    requires IsPrime(p) && IsPrime(q) && p != q && Cong(w, 1, p) && Cong(w, 1, q)
    ensures p * q > 0 && Cong(w, 1, p * q)
  {
    PrimeProduct(p, q);
    var k := CongElim(w, 1, p);
    var l := CongElim(w, 1, q);
    DividesIntro(q, p * k, l);
    DistinctPrimes(p, q);
    Euclid(q, p, k);
    var c := DividesElim(q, k);
    assert k * p == c * (p * q) by { Swap(p, q, c); MulAssoc(c, p, q); }
    CongIntro(w, 1, c, p * q);
  }

  lemma ScaleNotDivided(p: int)
    requires IsPrime(p) && p > MAX_COMMITTEE
    ensures !Divides(p, SCALE)
  {
    hide IsPrime;
    DeltaIsFactorial();
    FactorialNotDivided(p, MAX_COMMITTEE);
    SmallNotDivided(p, 4);
    if Divides(p, SCALE) {
      Euclid(p, 4, DELTA * DELTA);
      Euclid(p, DELTA, DELTA);
    }
  }

  /** Primes above 16 and an invertible theta, as key generation makes sure: the final division succeeds. */
  lemma FinalDivisionExists(p: int, q: int, theta: nat, x: int)
    requires IsPrime(p) && IsPrime(q) && p != q && p > MAX_COMMITTEE && q > MAX_COMMITTEE
    requires p * q > 0 && Inverse(theta, x, p * q)
    ensures ModInverse(SCALE * theta, p * q).Some?
  {
    hide Cong, IsPrime, Pow, ModInverse;
    ScaleNotDivided(p);
    ScaleNotDivided(q);
    UnitModProduct(p, q, SCALE);
    var n := p * q;
    var y := Pow(SCALE, (p - 1) * (q - 1) - 1);
    CongMul(SCALE * y, 1, theta * x, 1, n);
    Shuffle(SCALE, theta, y, x);
    InverseFound(SCALE * theta, y * x, n);
  }
}
