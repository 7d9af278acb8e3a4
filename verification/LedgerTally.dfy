/** From the votes on the chain to the result: the aggregates of the ledger are what the committee decrypts. */
module LedgerTally {
  import opened Numerals
  import opened ModArith
  import opened SignedPower
  import opened Paillier
  import opened Threshold
  import opened Tally
  import opened VoteLedger
  import opened Contributions

  // ----- the columns of the aggregate -----

  function WeightColumn(vs: seq<Row>): (r: seq<nat>)
    ensures |r| == |vs| && forall k :: 0 <= k < |vs| ==> r[k] == vs[k].ew
  {
    seq(|vs|, k requires 0 <= k < |vs| => vs[k].ew)
  }

  function SignedColumn(vs: seq<Row>): (r: seq<nat>)
    ensures |r| == |vs| && forall k :: 0 <= k < |vs| ==> r[k] == vs[k].es
  {
    seq(|vs|, k requires 0 <= k < |vs| => vs[k].es)
  }

  function BalanceColumn(vs: seq<Row>): (r: seq<nat>)
    ensures |r| == |vs| && forall k :: 0 <= k < |vs| ==> r[k] == vs[k].eb
  {
    seq(|vs|, k requires 0 <= k < |vs| => vs[k].eb)
  }

  /** The row of a proposal holds the aggregates of the three channels of its votes. */
  lemma {:induction false} RowIsAggregate(n: int, vs: seq<Row>)
    requires n > 1 && vs != [] && AllValid(n, vs)
    ensures var s := ApplyAll(n, None, vs);
            && s.Some? && Valid(n, s.value)
            && Aggregate(n, WeightColumn(vs)) == Some(s.value.ew)
            && Aggregate(n, SignedColumn(vs)) == Some(s.value.es)
            && Aggregate(n, BalanceColumn(vs)) == Some(s.value.eb)
    decreases |vs|
  {
    hide Valid, ValidCiphertext, ApplyAll, PointPlus;
    var k := |vs| - 1;
    var before, v := vs[..k], vs[k];
    assert vs == before + [v];
    ApplyAllSnoc(n, None, before, v);
    if k == 0 {
      NothingYet(n);
      assert before == [];
      ApplyMultiplies(n, None, v);
    } else {
      RowIsAggregate(n, before);
      ApplyMultiplies(n, ApplyAll(n, None, before), v);
      assert WeightColumn(vs)[..k] == WeightColumn(before);
      assert SignedColumn(vs)[..k] == SignedColumn(before);
      assert BalanceColumn(vs)[..k] == BalanceColumn(before);
    }
  }

  lemma NothingYet(n: int)
    requires n > 1
    ensures ApplyAll(n, None, []) == None
  {
  }

  // ----- the votes behind it -----

  /** What each vote seals: its weight, its weight with the sign of its direction, its balance. */
  predicate CastAs(n: int, votes: seq<Vote>, cs: seq<Contribution>)
    requires n > 1
  {
    |cs| == |votes| &&
    forall k :: 0 <= k < |cs| ==>
      && cs[k].w.m == votes[k].weight && cs[k].b.m == votes[k].balance
      && cs[k].s.m == (if votes[k].yes then votes[k].weight else 0 - votes[k].weight)
      && cs[k].w.r > 0 && cs[k].s.r > 0 && cs[k].b.r > 0
  }

  function SealedPart(n: int, a: Part): Sealed
    requires n > 1
  {
    Sealed(a.m % n, a.r, a.x)
  }

  function SealedWeights(n: int, cs: seq<Contribution>): (r: seq<Sealed>)
    requires n > 1
    ensures |r| == |cs| && forall k :: 0 <= k < |cs| ==> r[k] == SealedPart(n, cs[k].w)
  {
    seq(|cs|, k requires 0 <= k < |cs| => SealedPart(n, cs[k].w))
  }

  function SealedSigned(n: int, cs: seq<Contribution>): (r: seq<Sealed>)
    requires n > 1
    ensures |r| == |cs| && forall k :: 0 <= k < |cs| ==> r[k] == SealedPart(n, cs[k].s)
  {
    seq(|cs|, k requires 0 <= k < |cs| => SealedPart(n, cs[k].s))
  }

  function SealedBalances(n: int, cs: seq<Contribution>): (r: seq<Sealed>)
    requires n > 1
    ensures |r| == |cs| && forall k :: 0 <= k < |cs| ==> r[k] == SealedPart(n, cs[k].b)
  {
    seq(|cs|, k requires 0 <= k < |cs| => SealedPart(n, cs[k].b))
  }

  lemma {:induction false} VoteWithin(votes: seq<Vote>, k: nat)
    requires k < |votes|
    ensures votes[k].weight <= TotalWeight(votes) && votes[k].balance <= Balance(votes)
    decreases |votes|
  {
    var n := |votes| - 1;
    if k < n {
      VoteWithin(votes[..n], k);
    }
  }

  lemma SealedPlaintexts(n: int, v: Vote)
    requires n > 1 && v.weight < n && v.balance < n
    ensures v.weight % n == v.weight && v.balance % n == v.balance
    ensures (if v.yes then v.weight else 0 - v.weight) % n == SignedPlaintext(n, v)
  {
    DivUnique(v.weight, 0, v.weight, n);
    DivUnique(v.balance, 0, v.balance, n);
    if !v.yes && v.weight > 0 {
      DivUnique(0 - v.weight, -1, n - v.weight, n);
    }
  }

  /** So the votes are sealed as the tally takes them, and the columns are their ciphertexts. */
  lemma CastIsSealed(n: int, h: Point, votes: seq<Vote>, cs: seq<Contribution>, vs: seq<Row>)
    requires n > 1 && RowsOf(n, h, vs, cs) && CastAs(n, votes, cs)
    requires TotalWeight(votes) < n && Balance(votes) < n
    ensures Seals(n, votes, SealedWeights(n, cs), SealedSigned(n, cs), SealedBalances(n, cs))
    ensures Encrypted(n, SealedWeights(n, cs), WeightColumn(vs))
    ensures Encrypted(n, SealedSigned(n, cs), SignedColumn(vs))
    ensures Encrypted(n, SealedBalances(n, cs), BalanceColumn(vs))
  {
    hide RowOf, Encrypt, SignedPlaintext, TotalWeight, Balance;
    forall k | 0 <= k < |votes|
      ensures cs[k].w.m % n == votes[k].weight && cs[k].s.m % n == SignedPlaintext(n, votes[k])
      ensures cs[k].b.m % n == votes[k].balance
      ensures Encrypt(n, cs[k].w.m % n, cs[k].w.r) == Some(vs[k].ew)
      ensures Encrypt(n, cs[k].s.m % n, cs[k].s.r) == Some(vs[k].es)
      ensures Encrypt(n, cs[k].b.m % n, cs[k].b.r) == Some(vs[k].eb)
    {
      VoteWithin(votes, k);
      SealedPlaintexts(n, votes[k]);
      RowIsEncrypted(n, h, cs[k]);
    }
  }

  // ----- the result -----

  /** Members of the committee and their partial decryptions of one ciphertext. */
  datatype Answer = Answer(subset: seq<int>, partials: seq<int>)

  predicate Answers(n: int, g: seq<int>, c: nat, a: Answer)
    requires n > 1
  {
    Qualified(g, a.subset) && Honest(n, c, g, a.subset, a.partials)
  }

  function Opened(n: int, theta: nat, a: Answer): Option<nat>
    requires n > 1 && |a.subset| == |a.partials|
  {
    var c :- Combined(n, a.subset, a.partials, |a.subset|);
    Finalize(n, c, theta)
  }

  /**
    The votes on a proposal go to the chain and are applied to its aggregate; the committee decrypts the three
    ciphertexts of the row. Then the verifier accepts exactly the open totals of those votes, and decides by the rule.
   */
  lemma LedgerIsCounted(n: int, g: seq<int>, theta: nat, h: Point,
                        votes: seq<Vote>, cs: seq<Contribution>, vs: seq<Row>, row: Row,
                        w: Answer, s: Answer, b: Answer, claim: Claim, supply: nat, percent: nat)
    requires n > 2 * W_MAX && KeyDecrypts(n, g, theta) && votes != []
    requires RowsOf(n, h, vs, cs) && CastAs(n, votes, cs) && ApplyAll(n, None, vs) == Some(row)
    requires TotalWeight(votes) < U128 && TotalWeight(votes) < n && Balance(votes) < U128 && Balance(votes) < n
    requires Answers(n, g, row.ew, w) && Answers(n, g, row.es, s) && Answers(n, g, row.eb, b)
    ensures |w.subset| == |w.partials| && |s.subset| == |s.partials| && |b.subset| == |b.partials|
    ensures var dw, ds, db := Opened(n, theta, w), Opened(n, theta, s), Opened(n, theta, b);
            && dw.Some? && ds.Some? && db.Some? && ds.value < n
            && Counted(Verify(n, claim, dw.value, ds.value, db.value, supply, percent), claim, votes, supply, percent)
  {
    hide Valid, RowOf, Encrypted, Seals, Qualified, Honest, Combined, Finalize, KeyWorks, Verify, Counted, ModInverse;
    hide ApplyAll, Aggregate, Unit;
    AllRowsValid(n, h, vs, cs);
    RowIsAggregate(n, vs);
    CastIsSealed(n, h, votes, cs, vs);
    var cw := Channel(SealedWeights(n, cs), WeightColumn(vs), row.ew, w.subset, w.partials);
    var signed := Channel(SealedSigned(n, cs), SignedColumn(vs), row.es, s.subset, s.partials);
    var cb := Channel(SealedBalances(n, cs), BalanceColumn(vs), row.eb, b.subset, b.partials);
    assert HonestChannel(n, g, cw) && HonestChannel(n, g, signed) && HonestChannel(n, g, cb);
    VotesAreCounted(n, g, theta, votes, cw, signed, cb, claim, supply, percent);
  }

  lemma AllRowsValid(n: int, h: Point, vs: seq<Row>, cs: seq<Contribution>)
    requires n > 1 && RowsOf(n, h, vs, cs)
    ensures AllValid(n, vs)
  {
    hide Valid, RowOf;
    forall k | 0 <= k < |vs|
      ensures Valid(n, vs[k])
    {
      RowOfValid(n, h, cs[k]);
    }
  }

  /**
    The same for a block that the ledger has taken: `before` and `after` are its rows, and the proposal had none.
   */
  lemma BlockIsCounted(n: int, g: seq<int>, theta: nat, h: Point, votes: seq<Vote>, casts: seq<Cast>,
                       ballots: seq<Ballot>, p: nat, before: map<nat, Row>, after: map<nat, Row>,
                       w: Answer, s: Answer, b: Answer, claim: Claim, supply: nat, percent: nat)
    requires n > 2 * W_MAX && KeyDecrypts(n, g, theta) && votes != []
    requires OnChain(n, h, ballots, casts) && CastAs(n, votes, CastOn(casts, p))
    requires p !in before && At(after, p) == ApplyAll(n, At(before, p), Of(ballots, p))
    requires TotalWeight(votes) < U128 && TotalWeight(votes) < n && Balance(votes) < U128 && Balance(votes) < n
    requires p in after ==>
               Answers(n, g, after[p].ew, w) && Answers(n, g, after[p].es, s) && Answers(n, g, after[p].eb, b)
    ensures p in after
    ensures |w.subset| == |w.partials| && |s.subset| == |s.partials| && |b.subset| == |b.partials|
    ensures var dw, ds, db := Opened(n, theta, w), Opened(n, theta, s), Opened(n, theta, b);
            && dw.Some? && ds.Some? && db.Some? && ds.value < n
            && Counted(Verify(n, claim, dw.value, ds.value, db.value, supply, percent), claim, votes, supply, percent)
  {
    hide Valid, RowOf, KeyDecrypts, Opened, Verify, Counted, ApplyAll, Of, CastOn, OnChain, Answers, CastAs, RowsOf;
    OnChainOf(n, h, ballots, casts, p);
    SameLength(n, h, votes, Of(ballots, p), CastOn(casts, p));
    AllRowsValid(n, h, Of(ballots, p), CastOn(casts, p));
    RowIsAggregate(n, Of(ballots, p));
    LedgerIsCounted(n, g, theta, h, votes, CastOn(casts, p), Of(ballots, p), after[p], w, s, b, claim, supply, percent);
  }

  lemma SameLength(n: int, h: Point, votes: seq<Vote>, vs: seq<Row>, cs: seq<Contribution>)
    requires n > 1 && RowsOf(n, h, vs, cs) && CastAs(n, votes, cs)
    ensures |vs| == |votes|
  {
  }
}
