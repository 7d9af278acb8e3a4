/** What the masks of key generation are for: what the members send reveals the modulus and theta, and no more. */
module KeyHiding {
  import opened Interpolation
  import opened Polynomials
  import opened Truncation
  import opened Primes
  import opened KeyGeneration

  /** Every member computes from the shares that were dealt to it, and from what is public. */
  lemma ComputedLocally(d: Dealt, e: Dealt, theta: int, i: int)
    requires Modulus(d) == Modulus(e)
    requires Eval(d.p, i) == Eval(e.p, i) && Eval(d.q, i) == Eval(e.q, i) && Eval(d.mask, i) == Eval(e.mask, i)
    requires Eval(d.beta, i) == Eval(e.beta, i) && Eval(d.blind, i) == Eval(e.blind, i)
    requires Eval(d.zero, i) == Eval(e.zero, i)
    ensures ModulusShare(d, i) == ModulusShare(e, i) && PhiShare(d, i) == PhiShare(e, i)
    ensures ThetaShare(d, i) == ThetaShare(e, i) && SecretShare(d, theta, i) == SecretShare(e, theta, i)
  {
  }

  // ----- what a change of a mask changes -----

  lemma MaskShifts(d: Dealt, z: seq<int>, i: int)
    ensures ModulusShare(d.(mask := Plus(d.mask, z)), i) == ModulusShare(d, i) + Eval(z, i)
  {
    hide Eval, Plus;
    PlusEval(d.mask, z, i);
  }

  lemma ZeroShifts(d: Dealt, z: seq<int>, i: int)
    ensures ThetaShare(d.(zero := Plus(d.zero, z)), i) == ThetaShare(d, i) + Eval(z, i)
  {
    hide Eval, Plus, PhiShare, Modulus;
    PlusEval(d.zero, z, i);
    SamePublic(d, Plus(d.zero, z), d.blind, i);
  }

  lemma BlindShifts(d: Dealt, z: seq<int>, theta: int, i: int)
    ensures SecretShare(d.(blind := Plus(d.blind, z)), theta, i) == SecretShare(d, theta, i) + Modulus(d) * Eval(z, i)
  {
    hide Eval, Plus, Modulus;
    PlusEval(d.blind, z, i);
    SamePublic(d, d.zero, Plus(d.blind, z), i);
    var e := d.(blind := Plus(d.blind, z));
    Distributes(Modulus(e), Eval(e.blind, i), Modulus(d), Eval(d.blind, i), Eval(z, i));
  }

  lemma Distributes(m: int, a: int, n: int, b: int, c: int)
    requires m == n && a == b + c
    ensures m * a == n * b + n * c
  {
  }

  lemma SamePublic(d: Dealt, zero: seq<int>, blind: seq<int>, i: int)
    ensures Modulus(d.(zero := zero)) == Modulus(d) && PhiShare(d.(zero := zero), i) == PhiShare(d, i)
    ensures Modulus(d.(blind := blind)) == Modulus(d)
  {
    hide Eval;
  }

  /** The polynomial that takes the values of `f` to those of `g`. */
  function Difference(g: seq<int>, f: seq<int>): (r: seq<int>)
    ensures |r| == if |g| < |f| then |f| else |g|
  {
    Plus(g, Scaled(-1, f))
  }

  lemma DifferenceEval(g: seq<int>, f: seq<int>, x: int)
    ensures Eval(Difference(g, f), x) == Eval(g, x) - Eval(f, x)
  {
    ScaledEval(-1, f, x);
    PlusEval(g, Scaled(-1, f), x);
  }

  // ----- what is sent -----

  /**
    Two deals with the same modulus and the same theta: with another mask, the first sends exactly what the
    second sends. So what is sent about theta says nothing but theta.
   */
  lemma BroadcastsHide(d: Dealt, e: Dealt, t: nat) returns (zero: seq<int>)
    requires ValidDealt(d, t) && ValidDealt(e, t)
    requires Modulus(d) == Modulus(e) && ThetaShare(d, 0) == ThetaShare(e, 0)
    ensures ValidDealt(d.(zero := zero), t)
    ensures forall i :: ThetaShare(d.(zero := zero), i) == ThetaShare(e, i)
  {
    hide IsPrime, Eval, Plus, ThetaPolynomial, ThetaShare, Difference;
    var z := Difference(ThetaPolynomial(e), ThetaPolynomial(d));
    ThetaLength(d, t);
    ThetaLength(e, t);
    zero := Plus(d.zero, z);
    forall i
      ensures Eval(z, i) == ThetaShare(e, i) - ThetaShare(d, i)
      ensures ThetaShare(d.(zero := zero), i) == ThetaShare(e, i)
    {
      ThetaIsShare(d, i);
      ThetaIsShare(e, i);
      DifferenceEval(ThetaPolynomial(e), ThetaPolynomial(d), i);
      ZeroShifts(d, z, i);
    }
    PlusEval(d.zero, z, 0);
  }

  /** The same for the shares of the modulus: they say nothing but the modulus. */
  lemma ModulusSharesHide(d: Dealt, e: Dealt, t: nat) returns (mask: seq<int>)
    requires ValidDealt(d, t) && ValidDealt(e, t) && Modulus(d) == Modulus(e)
    ensures ValidDealt(d.(mask := mask), t)
    ensures forall i :: ModulusShare(d.(mask := mask), i) == ModulusShare(e, i)
  {
    hide IsPrime, Eval, Plus, Times, Difference, ModulusShare;
    var f, g := Plus(Times(d.p, d.q), d.mask), Plus(Times(e.p, e.q), e.mask);
    var z := Difference(g, f);
    ModulusLength(d, t);
    ModulusLength(e, t);
    mask := Plus(d.mask, z);
    forall i
      ensures Eval(z, i) == ModulusShare(e, i) - ModulusShare(d, i)
      ensures ModulusShare(d.(mask := mask), i) == ModulusShare(e, i)
    {
      ModulusIsShare(d, i);
      ModulusIsShare(e, i);
      DifferenceEval(g, f, i);
      MaskShifts(d, z, i);
    }
    SharesAtZero(d, t);
    SharesAtZero(e, t);
    PlusEval(d.mask, z, 0);
  }

  lemma SharesAtZero(d: Dealt, t: nat)
    requires ValidDealt(d, t)
    ensures ModulusShare(d, 0) == Modulus(d)
  {
    hide IsPrime, Eval;
  }

  // ----- fewer members than the threshold -----

  lemma {:induction false} DistancesNonZero(s: seq<int>, i: int, x: int)
    requires x !in s
    ensures Distances(s, i, x) != 0
    decreases |s|
  {
    if s != [] {
      DistancesNonZero(s[1..], i, x);
    }
  }

  /** Fewer than `t` key shares do not determine the key: another deal gives the same shares and another key. */
  lemma FewSharesHide(d: Dealt, t: nat, members: seq<int>, theta: int) returns (blind: seq<int>)
    requires ValidDealt(d, t) && |members| < t && 0 !in members
    ensures ValidDealt(d.(blind := blind), t)
    ensures forall k :: 0 <= k < |members| ==>
              SecretShare(d.(blind := blind), theta, members[k]) == SecretShare(d, theta, members[k])
    ensures SecretShare(d.(blind := blind), theta, 0) != SecretShare(d, theta, 0)
  {
    hide IsPrime, Eval, Plus, Basis, Distances, SecretShare, Modulus;
    var z := Basis(members, 0);
    blind := Plus(d.blind, z);
    forall k | 0 <= k < |members|
      ensures SecretShare(d.(blind := blind), theta, members[k]) == SecretShare(d, theta, members[k])
    {
      BasisEval(members, 0, members[k]);
      DistancesVanish(members, 0, members[k]);
      BlindShifts(d, z, theta, members[k]);
    }
    BasisEval(members, 0, 0);
    DistancesNonZero(members, 0, 0);
    BlindShifts(d, z, theta, 0);
    ModulusPositive(d, t);
    NonZeroMultiple(Modulus(d), Eval(z, 0));
  }

  lemma ModulusPositive(d: Dealt, t: nat)
    requires ValidDealt(d, t)
    ensures Modulus(d) > 1
  {
    PrimeProduct(Eval(d.p, 0), Eval(d.q, 0));
  }

  lemma NonZeroMultiple(a: int, b: int)
    requires a > 1 && b != 0
    ensures a * b != 0
  {
  }
}
