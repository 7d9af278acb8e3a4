/** From key generation to the result: the whole private vote. */
module Election {
  import opened ModArith
  import opened SignedPower
  import opened Lagrange
  import opened Interpolation
  import opened Threshold
  import opened Primes
  import opened KeyGeneration
  import opened Tally

  /** What the members send: their shares of the modulus, without sign, and then of theta. */
  predicate Sent(d: Dealt, t: nat, moduli: seq<int>, thetas: seq<int>) {
    && t >= 1 && |moduli| == |thetas| == 2 * t - 1
    && ModuliSent(d, moduli)
    && (forall k :: 0 <= k < |thetas| ==> thetas[k] == ThetaShare(d, k + 1))
  }

  /**
    Members who deal their polynomials and answer honestly with their shares of the key that the driver
    reconstructs, votes of any number and weight, any three qualified subsets that answer: a certificate is
    accepted exactly if it claims the open totals and their weight is within the limit, and then it verifies to the
    count that the votes would give in the open.
   */
  lemma ElectionIsExact(d: Dealt, t: nat, moduli: seq<int>, thetas: seq<int>, x: int, votes: seq<Vote>,
                        w: Channel, s: Channel, b: Channel, claim: Claim, supply: nat, percent: nat)
    requires ValidDealt(d, t) && Eval(d.p, 0) > MAX_COMMITTEE && Eval(d.q, 0) > MAX_COMMITTEE
    requires Sent(d, t, moduli, thetas)
    requires var n, theta := Reconstructed(moduli), Reconstructed(thetas);
             && n > 2 * W_MAX && Inverse(theta % n, x, n)
             && var g := SecretPolynomial(d, theta);
                HonestChannel(n, g, w) && HonestChannel(n, g, s) && HonestChannel(n, g, b)
    requires Seals(Reconstructed(moduli), votes, w.sealed, s.sealed, b.sealed)
    requires TotalWeight(votes) < U128 && TotalWeight(votes) < Reconstructed(moduli)
    requires Balance(votes) < U128 && Balance(votes) < Reconstructed(moduli)
    ensures |w.subset| == |w.partials| && |s.subset| == |s.partials| && |b.subset| == |b.partials|
    ensures var n := Reconstructed(moduli);
            var theta := Reconstructed(thetas) % n;
            var dw, ds, db := Decrypted(n, theta, w), Decrypted(n, theta, s), Decrypted(n, theta, b);
            && dw.Some? && ds.Some? && db.Some? && ds.value < n
            && Counted(Verify(n, claim, dw.value, ds.value, db.value, supply, percent), claim, votes, supply, percent)
  {
    hide IsPrime, KeyWorks, HonestChannel, Decrypted, Seals, Counted, Verify, ModInverse, Eval, Cong;
    hide SecretPolynomial, ThetaShare, ModulusShare, YesWeight, NoWeight, Balance, Reconstructed;
    hide Modulus;
    SentReconstructed(d, t, moduli, thetas);
    var n, theta := Modulus(d), ThetaShare(d, 0);
    KeyGenerated(d, t);
    DivisionExists(d, t, theta, x);
    VotesAreCounted(n, SecretPolynomial(d, theta), theta % n, votes, w, s, b, claim, supply, percent);
  }

  lemma SentReconstructed(d: Dealt, t: nat, moduli: seq<int>, thetas: seq<int>)
    requires ValidDealt(d, t) && Sent(d, t, moduli, thetas)
    ensures Reconstructed(moduli) == Modulus(d) && Reconstructed(thetas) == ThetaShare(d, 0)
  {
    hide IsPrime, Eval, ThetaShare, ModulusShare, Reconstructed;
    ModulusReconstructed(d, t, moduli);
    ThetaReconstructed(d, t, thetas);
  }

  lemma DivisionExists(d: Dealt, t: nat, theta: int, x: int)
    requires ValidDealt(d, t) && Eval(d.p, 0) > MAX_COMMITTEE && Eval(d.q, 0) > MAX_COMMITTEE
    requires Modulus(d) > 1 && Inverse(theta % Modulus(d), x, Modulus(d))
    ensures ModInverse(SCALE * (theta % Modulus(d)), Modulus(d)).Some?
  {
    hide IsPrime, Eval, Cong, ModInverse;
    FinalDivisionExists(Eval(d.p, 0), Eval(d.q, 0), theta % Modulus(d), x);
  }
}
