/** Encrypted votes, their aggregate, and what the decrypted totals say about the vote. */
module Tally {
  import opened Numerals
  import opened ModArith
  import opened SignedPower
  import opened Paillier
  import opened Threshold

  // ----- aggregation -----

  /** A number below N^2, not zero, prime to N. */
  predicate ValidCiphertext(n: int, c: int)
    requires n > 1
  {
    0 < c < n * n && ModInverse(c, n).Some?
  }

  /** Homomorphic addition. */
  function Add(n: int, c: int, c': int): Option<nat>
    requires n > 1
  {
    SquarePositive(n);
    if ValidCiphertext(n, c) && ValidCiphertext(n, c') then Some(ModMul(c, c', n * n)) else None
  }

  /** What can be added: numbers from 1 to below N^2 that have an inverse modulo N. */
  lemma AddIff(n: int, c: int, c': int)
    requires n > 1
    ensures Add(n, c, c').Some?
       <==> (0 < c < n * n && exists x :: Inverse(c, x, n)) && (0 < c' < n * n && exists x :: Inverse(c', x, n))
  {
    if x :| Inverse(c, x, n) {
      InverseFound(c, x, n);
    }
    if x :| Inverse(c', x, n) {
      InverseFound(c', x, n);
    }
  }

  /** The aggregate of one channel: the first ciphertext, and every later one added to it. */
  function Aggregate(n: int, cs: seq<nat>): Option<nat>
    requires n > 1 && cs != []
  {
    if |cs| == 1 then Some(cs[0])
    else
      var c :- Aggregate(n, cs[..|cs| - 1]);
      Add(n, c, cs[|cs| - 1])
  }

  /** A plaintext with its randomness, and the inverse of the randomness modulo N. */
  datatype Sealed = Sealed(m: int, r: int, x: int)

  predicate ValidSealed(n: int, v: Sealed)
    requires n > 1
  {
    0 <= v.m < n && v.r > 0 && Inverse(v.r, v.x, n)
  }

  function Plaintexts(vs: seq<Sealed>): int {
    if vs == [] then 0 else Plaintexts(vs[..|vs| - 1]) + vs[|vs| - 1].m
  }

  function Randomness(vs: seq<Sealed>): int {
    if vs == [] then 1 else Randomness(vs[..|vs| - 1]) * vs[|vs| - 1].r
  }

  function RandomnessInverse(vs: seq<Sealed>): int {
    if vs == [] then 1 else RandomnessInverse(vs[..|vs| - 1]) * vs[|vs| - 1].x
  }

  /** The ciphertexts that the voters send. */
  predicate Encrypted(n: int, vs: seq<Sealed>, cs: seq<nat>)
    requires n > 1
  {
    |cs| == |vs| && forall k :: 0 <= k < |vs| ==> ValidSealed(n, vs[k]) && Encrypt(n, vs[k].m, vs[k].r) == Some(cs[k])
  }

  lemma {:induction false} RandomnessIsUnit(n: int, vs: seq<Sealed>)
    requires n > 1 && forall k :: 0 <= k < |vs| ==> ValidSealed(n, vs[k])
    ensures Inverse(Randomness(vs), RandomnessInverse(vs), n)
    decreases |vs|
  {
    if vs != [] {
      var last := vs[|vs| - 1];
      var a, b := Randomness(vs[..|vs| - 1]), RandomnessInverse(vs[..|vs| - 1]);
      RandomnessIsUnit(n, vs[..|vs| - 1]);
      CongMul(a * b, 1, last.r * last.x, 1, n);
      Shuffle(a, last.r, b, last.x);
    }
  }

  /** A ciphertext of a unit is valid, so adding it never fails. */
  lemma CipherIsValid(n: int, m: int, r: int, x: int)
    requires n > 1 && Inverse(r, x, n)
    ensures n * n > 0 && ValidCiphertext(n, Cipher(n, m, r) % (n * n))
  {
    hide Cong, Cipher, CipherInverse, ModInverse;
    CipherIsUnit(n, m, r, x);
    var c, d := Cipher(n, m, r) % (n * n), CipherInverse(n, m, x);
    CongMod(Cipher(n, m, r), n * n);
    InverseCong(Cipher(n, m, r), c, d, n * n);
    UnitBelow(n, c, d);
    InverseFound(c, d, n);
  }

  lemma UnitBelow(n: int, c: int, d: int)
    requires n > 1 && n * n > 0 && 0 <= c && Inverse(c, d, n * n)
    ensures Inverse(c, d, n) && c > 0
  {
    var k := CongElim(c * d, 1, n * n);
    assert k * (n * n) == (k * n) * n by { MulAssoc(k, n, n); }
    CongIntro(c * d, 1, k * n, n);
    if c == 0 {
      assert c * d == 0;
      SquarePositive(n);
      DivUnique(1, 0, 1, n * n);
      DivUnique(0, 0, 0, n * n);
    }
  }

  /** The aggregate of any votes is a ciphertext of the sum of the plaintexts. */
  lemma {:induction false} AggregateIsCipher(n: int, vs: seq<Sealed>, cs: seq<nat>)
    requires n > 1 && vs != [] && Encrypted(n, vs, cs)
    ensures n * n > 0 && Aggregate(n, cs) == Some(Cipher(n, Plaintexts(vs), Randomness(vs)) % (n * n))
    decreases |vs|
  {
    hide Cong, Cipher, Encrypt, ValidCiphertext, ModInverse;
    SquarePositive(n);
    var last := vs[|vs| - 1];
    assert ValidSealed(n, last);
    InverseFound(last.r, last.x, n);
    EncryptIsCipher(n, last.m, last.r);
    if |vs| == 1 {
      assert vs[..0] == [];
    } else {
      var before := vs[..|vs| - 1];
      AggregateIsCipher(n, before, cs[..|cs| - 1]);
      RandomnessIsUnit(n, before);
      var m, r := Plaintexts(before), Randomness(before);
      CipherIsValid(n, m, r, RandomnessInverse(before));
      CipherIsValid(n, last.m, last.r, last.x);
      CipherProduct(n, m, r, last.m, last.r);
      ProductReduced(Cipher(n, m, r), Cipher(n, last.m, last.r), Cipher(n, m + last.m, r * last.r), n * n);
    }
  }

  lemma ProductReduced(a: int, b: int, c: int, m: int)
    requires m > 0 && Cong(a * b, c, m)
    ensures ModMul(a % m, b % m, m) == c % m
  {
    MulMod(a, b % m, m);
    MulMod(a, b, m);
  }

  /** A channel decrypts to the sum of its plaintexts modulo N, whichever qualified members answer. */
  lemma ChannelDecrypts(n: int, g: seq<int>, theta: nat, vs: seq<Sealed>, cs: seq<nat>, c: nat,
                        subset: seq<int>, partials: seq<int>)
    requires KeyWorks(n, g, theta) && vs != [] && Encrypted(n, vs, cs) && Aggregate(n, cs) == Some(c)
    requires Qualified(g, subset) && Honest(n, c, g, subset, partials)
    ensures var combined := Combined(n, subset, partials, |subset|);
            && combined.Some?
            && Finalize(n, combined.value, theta)
               == if ModInverse(SCALE * theta, n).Some? then Some(Plaintexts(vs) % n) else None
  {
    hide Cong, Cipher, Combined, Finalize, KeyWorks, Honest, Qualified, ModInverse;
    assert n > 1 && n * n > 0 by { KeyModulus(n, g, theta); }
    AggregateIsCipher(n, vs, cs);
    RandomnessIsUnit(n, vs);
    var m, r := Plaintexts(vs), Randomness(vs);
    CongMod(m, n);
    CipherCong(n, m % n, m, r);
    SameRemainder(Cipher(n, m % n, r), Cipher(n, m, r), n * n);
    Decrypts(n, g, theta, m % n, r, RandomnessInverse(vs), c, subset, partials);
  }

  lemma KeyModulus(n: int, g: seq<int>, theta: nat)
    requires KeyWorks(n, g, theta)
    ensures n > 1 && n * n > 0
  {
  }

  // ----- the outcome of a vote -----

  const U128 := 0x1_0000_0000_0000_0000_0000_0000_0000_0000

  /** The largest total weight that is accepted: 240 million coins. */
  const W_MAX := 240000000 * 1000000000000

  datatype Outcome = Outcome(yes: nat, no: nat, threshold: nat, quorumMet: bool, majorityMet: bool, passed: bool)

  /** Sign and magnitude of a plaintext: the upper half stands for negative numbers. */
  function DecodeSigned(n: int, m: nat): (bool, nat)
    requires n > 1 && m < n
  {
    if m <= n / 2 then (false, m % U128) else (true, (n - m) % U128)
  }

  /** The number that a sign and a magnitude stand for. */
  function Signed(d: (bool, nat)): int { if d.0 then 0 - d.1 else d.1 }

  /** The decoding is the number nearest to zero that the plaintext stands for, if 128 bits can hold it. */
  lemma DecodeNearest(n: int, m: nat)
    requires n > 1 && m < n && (if 2 * m <= n then m < U128 else n - m < U128)
    ensures var v := Signed(DecodeSigned(n, m)); Cong(v, m, n) && -n < 2 * v <= n
  {
    hide Cong;
    if 2 * m <= n {
      DivUnique(m, 0, m, U128);
      CongSame(m, m, n);
    } else {
      DivUnique(n - m, 0, n - m, U128);
      CongIntro(m - n, m, -1, n);
    }
  }

  /** The participation that a quorum takes, in 128-bit arithmetic. */
  function QuorumThreshold(supply: nat, percent: nat): nat { ModMul(supply, percent, U128) / 100 }

  function Evaluate(yes: nat, no: nat, participation: nat, supply: nat, percent: nat): Option<Outcome> {
    if percent > 100 then None
    else
      var threshold := QuorumThreshold(supply, percent);
      var quorum, majority := participation >= threshold, yes > no;
      Some(Outcome(yes, no, threshold, quorum, majority, quorum && majority))
  }

  /** The totals that a certificate claims: weight, sign and size of the signed weight, and balance. */
  datatype Claim = Claim(total: nat, negative: bool, magnitude: nat, participation: nat)

  /** The totals in three plaintexts. The maker of a certificate claims these. */
  function Totals(n: int, w: nat, s: nat, b: nat): Claim
    requires n > 1 && s < n
  {
    Claim(w % U128, DecodeSigned(n, s).0, DecodeSigned(n, s).1, b % U128)
  }

  /** The checks and the result of a certificate whose three totals decrypted to `w`, `s` and `b`. */
  function Verify(n: int, claim: Claim, w: nat, s: nat, b: nat, supply: nat, percent: nat): Option<Outcome>
    requires n > 1 && s < n
  {
    var t := Totals(n, w, s, b);
    if t != claim || t.total > W_MAX || t.magnitude > t.total || (t.total + t.magnitude) % 2 != 0 then None
    else
      var yes := if claim.negative then (t.total - t.magnitude) / 2 else (t.total + t.magnitude) / 2;
      Evaluate(yes, t.total - yes, t.participation, supply, percent)
  }

  /** The threshold is the percentage of the supply, rounded down, exactly if the product fits in 128 bits. */
  lemma QuorumExactIff(supply: nat, percent: nat)
    ensures QuorumThreshold(supply, percent) == supply * percent / 100 <==> supply * percent < U128
  {
    var p := supply * percent;
    if p < U128 {
      DivUnique(p, 0, p, U128);
    } else {
      assert p % U128 + 100 <= p;
    }
  }

  /**
    The governance rule: the majority is of the weights, the quorum is of the balance, and both are needed.
    The threshold is the percentage of the supply, rounded down, of the product in 128 bits.
   */
  predicate Decides(o: Outcome, yes: nat, no: nat, participation: nat, supply: nat, percent: nat) {
    var product := supply * percent;
    && o.yes == yes && o.no == no
    && 100 * o.threshold <= product % U128 < 100 * o.threshold + 100
    && (o.quorumMet <==> participation >= o.threshold)
    && (product < U128 ==> (o.quorumMet <==> 100 * participation >= product - product % 100))
    && (o.majorityMet <==> yes > no)
    && (o.passed <==> o.quorumMet && o.majorityMet)
  }

  /** The evaluation follows the rule for every percentage up to 100, and refuses all others. */
  lemma EvaluateDecides(yes: nat, no: nat, participation: nat, supply: nat, percent: nat)
    ensures Evaluate(yes, no, participation, supply, percent).Some? <==> percent <= 100
    ensures percent <= 100 ==>
              Decides(Evaluate(yes, no, participation, supply, percent).value, yes, no, participation, supply, percent)
  {
    if percent <= 100 {
      RuleOf(supply * percent, participation);
    }
  }

  lemma RuleOf(product: nat, participation: nat)
    ensures var threshold := (product % U128) / 100;
            && 100 * threshold <= product % U128 < 100 * threshold + 100
            && (product < U128 ==> (participation >= threshold <==> 100 * participation >= product - product % 100))
  {
    if product < U128 {
      DivUnique(product, 0, product, U128);
    }
  }

  /** For half of all 128-bit numbers as supply, and ten percent, the threshold comes out as zero. */
  lemma QuorumOverflows()
    ensures QuorumThreshold(U128 / 2, 10) == 0 && U128 / 2 * 10 / 100 > 0
  {
  }

  /** Whatever was decrypted, an accepted result splits the total weight into yes and no by the signed total. */
  lemma VerifyConserves(n: int, claim: Claim, w: nat, s: nat, b: nat, supply: nat, percent: nat)
    requires n > 1 && s < n && Verify(n, claim, w, s, b, supply, percent).Some?
    ensures var o, signed := Verify(n, claim, w, s, b, supply, percent).value, DecodeSigned(n, s);
            && claim == Totals(n, w, s, b)
            && o.yes + o.no == claim.total == w % U128
            && o.yes - o.no == (if signed.0 then 0 - signed.1 else signed.1)
            && Decides(o, o.yes, o.no, claim.participation, supply, percent)
  {
    hide Evaluate, Decides;
    var t := Totals(n, w, s, b);
    var yes := if claim.negative then (t.total - t.magnitude) / 2 else (t.total + t.magnitude) / 2;
    EvaluateDecides(yes, t.total - yes, t.participation, supply, percent);
    DecidesOn(Verify(n, claim, w, s, b, supply, percent).value, yes, t.total - yes, t.participation, supply, percent);
  }

  lemma DecidesOn(o: Outcome, yes: nat, no: nat, participation: nat, supply: nat, percent: nat)
    requires Decides(o, yes, no, participation, supply, percent)
    ensures o.yes == yes && o.no == no
  {
  }

  datatype Vote = Vote(yes: bool, weight: nat, balance: nat)

  function YesWeight(votes: seq<Vote>): nat {
    if votes == [] then 0
    else
      var v := votes[|votes| - 1];
      YesWeight(votes[..|votes| - 1]) + if v.yes then v.weight else 0
  }

  function NoWeight(votes: seq<Vote>): nat {
    if votes == [] then 0
    else
      var v := votes[|votes| - 1];
      NoWeight(votes[..|votes| - 1]) + if v.yes then 0 else v.weight
  }

  function Balance(votes: seq<Vote>): nat {
    if votes == [] then 0 else Balance(votes[..|votes| - 1]) + votes[|votes| - 1].balance
  }

  /** The plaintext of the signed channel: a vote against is the weight subtracted from N. */
  function SignedPlaintext(n: int, v: Vote): int {
    if v.yes || v.weight == 0 then v.weight else n - v.weight
  }

  /** One vote as it is encrypted on its three channels. */
  predicate Seals(n: int, votes: seq<Vote>, ws: seq<Sealed>, ss: seq<Sealed>, bs: seq<Sealed>) {
    && |ws| == |ss| == |bs| == |votes|
    && forall k :: 0 <= k < |votes| ==>
         ws[k].m == votes[k].weight && ss[k].m == SignedPlaintext(n, votes[k]) && bs[k].m == votes[k].balance
  }

  lemma {:induction false} ChannelSums(n: int, votes: seq<Vote>, ws: seq<Sealed>, ss: seq<Sealed>, bs: seq<Sealed>)
    requires n > 1 && Seals(n, votes, ws, ss, bs)
    ensures Plaintexts(ws) == YesWeight(votes) + NoWeight(votes)
    ensures Plaintexts(bs) == Balance(votes)
    ensures Cong(Plaintexts(ss), YesWeight(votes) - NoWeight(votes), n)
    decreases |votes|
  {
    if votes != [] {
      var k := |votes| - 1;
      var v := votes[k];
      ChannelSums(n, votes[..k], ws[..k], ss[..k], bs[..k]);
      var signed := if v.yes then v.weight else 0 - v.weight;
      SignedCongruent(n, v);
      CongAdd(Plaintexts(ss[..k]), YesWeight(votes[..k]) - NoWeight(votes[..k]), ss[k].m, signed, n);
    }
  }

  lemma SignedCongruent(n: int, v: Vote)
    requires n > 1
    ensures Cong(SignedPlaintext(n, v), if v.yes then v.weight else 0 - v.weight, n)
  {
    if !v.yes && v.weight > 0 {
      CongIntro(n - v.weight, 0 - v.weight, 1, n);
    }
  }

  /** A difference of totals survives the encoding, as long as the totals stay below half of N. */
  lemma DecodeDifference(n: int, yes: nat, no: nat, m: int)
    requires n > 2 * W_MAX && yes + no <= W_MAX && 0 <= m < n && Cong(m, yes - no, n)
    ensures DecodeSigned(n, m) == if yes >= no then (false, yes - no) else (true, no - yes)
  {
    if yes >= no {
      CongSmall(m, yes - no, n);
      DivUnique(yes - no, 0, yes - no, U128);
    } else {
      CongIntro(n - (no - yes), yes - no, 1, n);
      CongSmall(m, n - (no - yes), n);
      DivUnique(no - yes, 0, no - yes, U128);
    }
  }

  function TotalWeight(votes: seq<Vote>): nat { YesWeight(votes) + NoWeight(votes) }

  /** The totals of the votes, counted in the open. */
  function OpenTotals(votes: seq<Vote>): Claim {
    var yes, no := YesWeight(votes), NoWeight(votes);
    Claim(yes + no, yes < no, if yes < no then no - yes else yes - no, Balance(votes))
  }

  /**
    What the verifier makes of the totals of some votes: a certificate is accepted exactly if it claims their totals,
    counted in the open, the weight is within the limit and the percentage is one. Then the outcome is that of
    counting the votes in the open, by the governance rule.
   */
  predicate Counted(r: Option<Outcome>, claim: Claim, votes: seq<Vote>, supply: nat, percent: nat) {
    && (r.Some? <==> claim == OpenTotals(votes) && TotalWeight(votes) <= W_MAX && percent <= 100)
    && (r.Some? ==> Decides(r.value, YesWeight(votes), NoWeight(votes), Balance(votes), supply, percent))
  }

  lemma VerifyCounts(n: int, claim: Claim, votes: seq<Vote>, m: nat, supply: nat, percent: nat)
    requires n > 2 * W_MAX && TotalWeight(votes) < U128 && Balance(votes) < U128
    requires m < n && Cong(m, YesWeight(votes) - NoWeight(votes), n)
    ensures Counted(Verify(n, claim, TotalWeight(votes), m, Balance(votes), supply, percent),
                    claim, votes, supply, percent)
  {
    hide Evaluate, YesWeight, NoWeight, Balance, Cong, DecodeSigned, Decides;
    var yes, no, b := YesWeight(votes), NoWeight(votes), Balance(votes);
    DivUnique(yes + no, 0, yes + no, U128);
    DivUnique(b, 0, b, U128);
    EvaluateDecides(yes, no, b, supply, percent);
    if yes + no <= W_MAX {
      DecodeDifference(n, yes, no, m);
    }
  }

  /** One channel with everything that its decryption needs. */
  datatype Channel = Channel(sealed: seq<Sealed>, cs: seq<nat>, c: nat, subset: seq<int>, partials: seq<int>)

  predicate HonestChannel(n: int, g: seq<int>, h: Channel)
    requires n > 1
  {
    && h.sealed != [] && Encrypted(n, h.sealed, h.cs) && Aggregate(n, h.cs) == Some(h.c)
    && Qualified(g, h.subset) && Honest(n, h.c, g, h.subset, h.partials)
  }

  function Decrypted(n: int, theta: nat, h: Channel): Option<nat>
    requires n > 1 && |h.subset| == |h.partials|
  {
    var c :- Combined(n, h.subset, h.partials, |h.subset|);
    Finalize(n, c, theta)
  }

  /**
    The tally is exact: for all votes, all randomness, and any three qualified subsets of the committee,
    a certificate is accepted exactly if it claims the open totals of the votes and their weight is within the limit,
    and then it verifies to the count of the votes. Only totals are ever decrypted.
   */
  lemma VotesAreCounted(n: int, g: seq<int>, theta: nat, votes: seq<Vote>, w: Channel, s: Channel, b: Channel,
                        claim: Claim, supply: nat, percent: nat)
    requires KeyWorks(n, g, theta) && n > 2 * W_MAX && ModInverse(SCALE * theta, n).Some?
    requires HonestChannel(n, g, w) && HonestChannel(n, g, s) && HonestChannel(n, g, b)
    requires Seals(n, votes, w.sealed, s.sealed, b.sealed)
    requires TotalWeight(votes) < U128 && TotalWeight(votes) < n && Balance(votes) < U128 && Balance(votes) < n
    ensures |w.subset| == |w.partials| && |s.subset| == |s.partials| && |b.subset| == |b.partials|
    ensures var dw, ds, db := Decrypted(n, theta, w), Decrypted(n, theta, s), Decrypted(n, theta, b);
            && dw.Some? && ds.Some? && db.Some? && ds.value < n
            && Counted(Verify(n, claim, dw.value, ds.value, db.value, supply, percent), claim, votes, supply, percent)
  {
    hide Cong, KeyWorks, HonestChannel, Decrypted, Seals, Counted, Verify, ModInverse, Plaintexts;
    ChannelDecrypted(n, g, theta, w);
    ChannelDecrypted(n, g, theta, s);
    ChannelDecrypted(n, g, theta, b);
    ChannelSums(n, votes, w.sealed, s.sealed, b.sealed);
    var yes: int, no: int := YesWeight(votes), NoWeight(votes);
    DivUnique(yes + no, 0, yes + no, n);
    DivUnique(Balance(votes), 0, Balance(votes), n);
    var m := Plaintexts(s.sealed);
    CongMod(m, n);
    CongTrans(m % n, m, yes - no, n);
    VerifyCounts(n, claim, votes, m % n, supply, percent);
  }

  lemma ChannelDecrypted(n: int, g: seq<int>, theta: nat, h: Channel)
    requires n > 1 && KeyWorks(n, g, theta) && ModInverse(SCALE * theta, n).Some? && HonestChannel(n, g, h)
    ensures |h.subset| == |h.partials| && Decrypted(n, theta, h) == Some(Plaintexts(h.sealed) % n)
  {
    hide Combined, Finalize, KeyWorks, Qualified, Encrypted, Aggregate, ModInverse, Plaintexts;
    ChannelDecrypts(n, g, theta, h.sealed, h.cs, h.c, h.subset, h.partials);
  }
}
