/** The aggregates in terms of the votes that they hold: when taking back a block loses one. */
module Contributions {
  import opened Numerals
  import opened ModArith
  import opened SignedPower
  import opened Interpolation
  import opened Paillier
  import opened Threshold
  import opened Tally
  import Primes
  import opened VoteLedger

  /** A plaintext, the randomness of its ciphertext with its inverse, and the blinding of its commitment. */
  datatype Part = Part(m: int, r: int, x: int, blind: int)

  /** What one vote contributes, or many together: weight, signed weight and balance. */
  datatype Contribution = Contribution(w: Part, s: Part, b: Part)

  /** The commitment `m H + blind G`, where `h` is the discrete logarithm of `H`. */
  function Commitment(h: Point, a: Part): Point { (a.m * h + a.blind) % ORDER }

  function Ciphertext(n: int, a: Part): nat
    requires n > 1
  {
    SquarePositive(n);
    Cipher(n, a.m, a.r) % (n * n)
  }

  /** The six parts on the chain: every ciphertext and its commitment are of the same number. */
  function RowOf(n: int, h: Point, c: Contribution): Row
    requires n > 1
  {
    Row(Ciphertext(n, c.w), Ciphertext(n, c.s), Ciphertext(n, c.b),
        Commitment(h, c.w), Commitment(h, c.s), Commitment(h, c.b))
  }

  predicate Unit(n: int, a: Part)
    requires n > 1
  {
    Inverse(a.r, a.x, n)
  }

  predicate Units(n: int, c: Contribution)
    requires n > 1
  {
    Unit(n, c.w) && Unit(n, c.s) && Unit(n, c.b)
  }

  /** What a voter encrypts is such a part: a negative number is encrypted as its remainder. */
  lemma EncryptIsPart(n: int, a: Part)
    requires n > 1 && Unit(n, a) && a.r > 0
    ensures Encrypt(n, a.m % n, a.r) == Some(Ciphertext(n, a))
  {
    hide Cong, Cipher, Encrypt;
    InverseFound(a.r, a.x, n);
    EncryptIsCipher(n, a.m % n, a.r);
    CongMod(a.m, n);
    CipherCong(n, a.m % n, a.m, a.r);
    SameRemainder(Cipher(n, a.m % n, a.r), Cipher(n, a.m, a.r), n * n);
  }

  /** Which part stands where: the weight, the signed weight and the balance, each encrypted and committed to. */
  lemma RowIsEncrypted(n: int, h: Point, c: Contribution)
    requires n > 1 && Units(n, c) && c.w.r > 0 && c.s.r > 0 && c.b.r > 0
    ensures Encrypt(n, c.w.m % n, c.w.r) == Some(RowOf(n, h, c).ew)
    ensures Encrypt(n, c.s.m % n, c.s.r) == Some(RowOf(n, h, c).es)
    ensures Encrypt(n, c.b.m % n, c.b.r) == Some(RowOf(n, h, c).eb)
    ensures RowOf(n, h, c).cw == Commitment(h, c.w) && RowOf(n, h, c).cs == Commitment(h, c.s)
    ensures RowOf(n, h, c).cb == Commitment(h, c.b)
  {
    hide Encrypt, Ciphertext, Commitment, Unit;
    EncryptIsPart(n, c.w);
    EncryptIsPart(n, c.s);
    EncryptIsPart(n, c.b);
  }

  /** Two commitments are the same exactly if values and blindings differ by what the generators make up for. */
  lemma CommitmentSameIff(h: Point, a: Part, b: Part)
    ensures Commitment(h, a) == Commitment(h, b) <==> ((a.m - b.m) * h + (a.blind - b.blind)) % ORDER == 0
  {
    var x, y := a.m * h + a.blind, b.m * h + b.blind;
    assert (a.m - b.m) * h == a.m * h - b.m * h;
    DifferenceIff(x, y, ORDER);
  }

  lemma DifferenceIff(x: int, y: int, m: int)
    requires m > 0
    ensures x % m == y % m <==> (x - y) % m == 0
  {
    if x % m == y % m {
      var k := CongElim(x, y, m);
      DivUnique(x - y, k, 0, m);
    }
    if (x - y) % m == 0 {
      assert x - y == m * ((x - y) / m);
      CongIntro(x, y, (x - y) / m, m);
    }
  }

  // ----- adding contributions -----

  function Add(a: Part, b: Part): Part { Part(a.m + b.m, a.r * b.r, a.x * b.x, a.blind + b.blind) }

  function Both(a: Contribution, b: Contribution): Contribution {
    Contribution(Add(a.w, b.w), Add(a.s, b.s), Add(a.b, b.b))
  }

  const NOTHING := Part(0, 1, 1, 0)

  const NONE := Contribution(NOTHING, NOTHING, NOTHING)

  function Total(cs: seq<Contribution>): Contribution {
    if cs == [] then NONE else Both(cs[0], Total(cs[1..]))
  }

  lemma AddUnit(n: int, a: Part, b: Part)
    requires n > 1 && Unit(n, a) && Unit(n, b)
    ensures Unit(n, Add(a, b))
  {
    CongMul(a.r * a.x, 1, b.r * b.x, 1, n);
    Shuffle(a.r, a.x, b.r, b.x);
  }

  lemma AddCiphertext(n: int, a: Part, b: Part)
    requires n > 1
    ensures CipherTimes(n, Ciphertext(n, a), Ciphertext(n, b)) == Ciphertext(n, Add(a, b))
  {
    hide Cong, Cipher;
    SquarePositive(n);
    CipherProduct(n, a.m, a.r, b.m, b.r);
    ProductReduced(Cipher(n, a.m, a.r), Cipher(n, b.m, b.r), Cipher(n, a.m + b.m, a.r * b.r), n * n);
  }

  lemma AddCommitment(h: Point, a: Part, b: Part)
    ensures PointPlus(Commitment(h, a), Commitment(h, b)) == Commitment(h, Add(a, b))
  {
    hide Cong;
    var x, y := a.m * h + a.blind, b.m * h + b.blind;
    assert (a.m + b.m) * h == a.m * h + b.m * h;
    AddRemainders(x, y);
  }

  lemma AddRemainders(x: int, y: int)
    ensures PointPlus(x % ORDER, y % ORDER) == (x + y) % ORDER
  {
    hide Cong;
    CongMod(x, ORDER);
    CongMod(y, ORDER);
    CongAdd(x % ORDER, x, y % ORDER, y, ORDER);
    SameRemainder(x % ORDER + y % ORDER, x + y, ORDER);
  }

  lemma RowOfBoth(n: int, h: Point, a: Contribution, b: Contribution)
    requires n > 1
    ensures Times(n, RowOf(n, h, a), RowOf(n, h, b)) == RowOf(n, h, Both(a, b))
  {
    hide Ciphertext, Commitment, CipherTimes, PointPlus;
    AddCiphertext(n, a.w, b.w);
    AddCiphertext(n, a.s, b.s);
    AddCiphertext(n, a.b, b.b);
    AddCommitment(h, a.w, b.w);
    AddCommitment(h, a.s, b.s);
    AddCommitment(h, a.b, b.b);
  }

  lemma RowOfNone(n: int, h: Point)
    requires n > 1
    ensures RowOf(n, h, NONE) == IDENTITY && Units(n, NONE)
  {
    SquarePositive(n);
    PowOne(n);
    DivUnique(1, 0, 1, n * n);
    assert 0 * h == 0 && 0 * n == 0;
  }

  /** The rows are those of the contributions. */
  predicate RowsOf(n: int, h: Point, vs: seq<Row>, cs: seq<Contribution>)
    requires n > 1
  {
    |vs| == |cs| && forall k :: 0 <= k < |vs| ==> vs[k] == RowOf(n, h, cs[k]) && Units(n, cs[k])
  }

  lemma {:induction false} ProductIsTotal(n: int, h: Point, vs: seq<Row>, cs: seq<Contribution>)
    requires n > 1 && RowsOf(n, h, vs, cs)
    ensures Product(n, vs) == RowOf(n, h, Total(cs)) && Units(n, Total(cs))
    decreases |vs|
  {
    hide RowOf, Unit, Times;
    if vs == [] {
      RowOfNone(n, h);
    } else {
      ProductIsTotal(n, h, vs[1..], cs[1..]);
      RowOfBoth(n, h, cs[0], Total(cs[1..]));
      BothUnits(n, cs[0], Total(cs[1..]));
    }
  }

  lemma BothUnits(n: int, a: Contribution, b: Contribution)
    requires n > 1 && Units(n, a) && Units(n, b)
    ensures Units(n, Both(a, b))
  {
    hide Unit;
    AddUnit(n, a.w, b.w);
    AddUnit(n, a.s, b.s);
    AddUnit(n, a.b, b.b);
  }

  lemma RowOfValid(n: int, h: Point, c: Contribution)
    requires n > 1 && Units(n, c)
    ensures Valid(n, RowOf(n, h, c))
  {
    hide Cipher, ValidCiphertext;
    CipherIsValid(n, c.w.m, c.w.r, c.w.x);
    CipherIsValid(n, c.s.m, c.s.r, c.s.x);
    CipherIsValid(n, c.b.m, c.b.r, c.b.x);
  }

  // ----- ciphertexts that are one -----

  /** The key, as it must be for ciphertexts to be decrypted. */
  ghost predicate KeyDecrypts(n: int, g: seq<int>, theta: nat) {
    KeyWorks(n, g, theta) && ModInverse(SCALE * theta, n).Some?
  }

  /** A ciphertext that is one holds zero. */
  lemma OneHoldsZero(n: int, g: seq<int>, theta: nat, m: int, r: int, x: int)
    requires n > 1 && KeyDecrypts(n, g, theta) && Inverse(r, x, n)
    requires n * n > 0 && Cong(Cipher(n, m, r), 1, n * n)
    ensures m % n == 0
  {
    hide Cong, SignedPow, Cipher, CipherInverse, ModInverse, Eval;
    var square, s, c, d := n * n, Eval(g, 0), Cipher(n, m, r), CipherInverse(n, m, x);
    var t := m * (SCALE * s);
    CombinedPlaintext(n, m, r, x, s);
    CipherIsUnit(n, m, r, x);
    InverseOfOne(c, d, square);
    SignedCong(c, d, 1, 1, SCALE * s, square);
    Primes.OnePower(SCALE * s);
    ChainFromOne(SignedPow(c, d, SCALE * s), 1 + t * n, square);
    LOf(n, t);
    SameRemainder(1, 1 + t * n, square);
    DivUnique(1, 0, 1, square);
    assert (t % n) * n == 0;
    Multiplied(t % n, n);
    CongMod(m, n);
    CongScale(m % n, m, SCALE * s, n);
    SameRemainder((m % n) * (SCALE * s), t, n);
    var inv := ModInverse(SCALE * theta, n).value;
    Undoes(n, m % n, s, theta, inv);
    NothingTimes(-(inv as int) % n, n);
  }

  lemma ChainFromOne(a: int, b: int, m: int)
    requires m > 0 && Cong(a, 1, m) && Cong(a, b, m)
    ensures Cong(1, b, m)
  {
  }

  lemma InverseOfOne(c: int, d: int, m: int)
    requires m > 0 && Inverse(c, d, m) && Cong(c, 1, m)
    ensures Cong(d, 1, m)
  {
    CongScale(c, 1, d, m);
    assert 1 * d == d;
  }

  lemma Multiplied(u: int, n: int)
    requires n > 1 && u * n == 0
    ensures u == 0
  {
  }

  lemma NothingTimes(y: int, n: int)
    requires n > 1
    ensures ModMul(0, y, n) == 0
  {
    assert 0 * y == 0;
  }

  /** A ciphertext is one exactly if it holds zero and its randomness vanishes. */
  lemma OneIff(n: int, g: seq<int>, theta: nat, a: Part)
    requires n > 1 && KeyDecrypts(n, g, theta) && Unit(n, a)
    ensures n * n > 0 && (Ciphertext(n, a) == 1 <==> a.m % n == 0 && Cong(Pow(a.r, n), 1, n * n))
  {
    hide Pow, KeyDecrypts;
    SquarePositive(n);
    var square, c := n * n, Cipher(n, a.m, a.r);
    DivUnique(1, 0, 1, square);
    if Cong(c, 1, square) {
      OneHoldsZero(n, g, theta, a.m, a.r, a.x);
    }
    if a.m % n == 0 {
      DivUnique(0, 0, 0, n);
      CipherCong(n, a.m, 0, a.r);
      assert Cipher(n, 0, a.r) == Pow(a.r, n) by { assert 0 * n == 0 && 1 * Pow(a.r, n) == Pow(a.r, n); }
    }
  }

  // ----- when a block is restored -----

  /** Nothing is left of a part: it holds zero, and randomness and blinding have gone too. */
  ghost predicate Vanishes(n: int, a: Part)
    requires n > 1
  {
    n * n > 0 && a.m == 0 && Cong(Pow(a.r, n), 1, n * n) && a.blind % ORDER == 0
  }

  ghost predicate AllVanish(n: int, c: Contribution)
    requires n > 1
  {
    Vanishes(n, c.w) && Vanishes(n, c.s) && Vanishes(n, c.b)
  }

  /** Totals of votes: the signed weight is at most the weight, and nothing reaches N. */
  predicate Bounded(n: int, c: Contribution) {
    0 <= c.w.m < n && -c.w.m <= c.s.m <= c.w.m && 0 <= c.b.m < n
  }

  lemma PartIdentityIff(n: int, g: seq<int>, theta: nat, h: Point, a: Part)
    requires n > 1 && KeyDecrypts(n, g, theta) && Unit(n, a) && -n < a.m < n
    ensures Ciphertext(n, a) == 1 && Commitment(h, a) == 0 <==> Vanishes(n, a)
  {
    hide KeyDecrypts, Ciphertext, Cong, Pow;
    OneIff(n, g, theta, a);
    SmallMultiple(a.m, n);
    assert 0 * h == 0;
  }

  lemma SmallMultiple(m: int, n: int)
    requires n > 1 && -n < m < n
    ensures m % n == 0 <==> m == 0
  {
    if m > 0 {
      DivUnique(m, 0, m, n);
    } else if m < 0 {
      DivUnique(m, -1, m + n, n);
    }
  }

  /** A total is stored as the identity exactly if nothing is left of it. */
  lemma IdentityIff(n: int, g: seq<int>, theta: nat, h: Point, c: Contribution)
    requires n > 1 && KeyDecrypts(n, g, theta) && Units(n, c) && Bounded(n, c)
    ensures RowOf(n, h, c) == IDENTITY <==> AllVanish(n, c)
  {
    hide KeyDecrypts, Ciphertext, Commitment, Vanishes, Unit;
    PartIdentityIff(n, g, theta, h, c.w);
    PartIdentityIff(n, g, theta, h, c.s);
    PartIdentityIff(n, g, theta, h, c.b);
  }

  /** The votes of a block and the aggregate before it, with totals that stay below N. */
  predicate Proper(n: int, a: Contribution, cs: seq<Contribution>)
    requires n > 1
  {
    && Bounded(n, a) && (forall k :: 0 <= k < |cs| ==> Bounded(n, cs[k]))
    && a.w.m + Total(cs).w.m < n && a.b.m + Total(cs).b.m < n
  }

  /** The totals of the last votes are no larger than all of them. */
  lemma {:induction false} TotalBounds(cs: seq<Contribution>, n: int, k: nat)
    requires k <= |cs| && forall i :: 0 <= i < |cs| ==> Bounded(n, cs[i])
    ensures var t := Total(cs[k..]);
            && 0 <= t.w.m <= Total(cs).w.m && -t.w.m <= t.s.m <= t.w.m && 0 <= t.b.m <= Total(cs).b.m
    decreases |cs|
  {
    if k == 0 {
      assert cs[0..] == cs;
      if cs != [] {
        TotalBounds(cs[1..], n, 0);
        assert cs[1..][0..] == cs[1..];
      }
    } else {
      TotalBounds(cs[1..], n, k - 1);
      assert cs[1..][k - 1..] == cs[k..];
    }
  }

  lemma NeverIdentityIff(n: int, g: seq<int>, theta: nat, h: Point, a: Contribution,
                         cs: seq<Contribution>, vs: seq<Row>)
    requires n > 1 && KeyDecrypts(n, g, theta) && Units(n, a) && RowsOf(n, h, vs, cs) && Proper(n, a, cs)
    ensures NeverIdentity(n, RowOf(n, h, a), vs)
       <==> forall k :: 1 <= k <= |cs| ==> !AllVanish(n, Both(a, Total(cs[k..])))
  {
    hide KeyDecrypts, RowOf, AllVanish, Times, Product, Unit, Both;
    forall k | 1 <= k <= |cs|
      ensures Times(n, RowOf(n, h, a), Product(n, vs[k..])) == IDENTITY <==> AllVanish(n, Both(a, Total(cs[k..])))
    {
      assert RowsOf(n, h, vs[k..], cs[k..]);
      ProductIsTotal(n, h, vs[k..], cs[k..]);
      var t := Total(cs[k..]);
      RowOfBoth(n, h, a, t);
      BothUnits(n, a, t);
      TotalBounds(cs, n, k);
      BothBounded(n, a, cs, t);
      IdentityIff(n, g, theta, h, Both(a, t));
    }
  }

  lemma BothBounded(n: int, a: Contribution, cs: seq<Contribution>, t: Contribution)
    requires n > 1 && Proper(n, a, cs)
    requires 0 <= t.w.m <= Total(cs).w.m && -t.w.m <= t.s.m <= t.w.m && 0 <= t.b.m <= Total(cs).b.m
    ensures Bounded(n, Both(a, t))
  {
  }

  /**
    In terms of the votes: a block that is applied and taken back restores the aggregate exactly if on
    the way back there is no point where all the votes left in it have no weight and no balance and their
    randomness and blindings cancel.
   */
  lemma VotesRestoredIff(n: int, g: seq<int>, theta: nat, h: Point, a: Contribution,
                         cs: seq<Contribution>, vs: seq<Row>)
    requires n > 1 && KeyDecrypts(n, g, theta) && Units(n, a) && RowsOf(n, h, vs, cs) && Proper(n, a, cs)
    ensures RollbackAll(n, ApplyAll(n, Some(RowOf(n, h, a)), vs), vs) == Some(RowOf(n, h, a))
       <==> forall k :: 1 <= k <= |cs| ==> !AllVanish(n, Both(a, Total(cs[k..])))
  {
    hide KeyDecrypts, RowOf, AllVanish, Unit, Both, NeverIdentity, Valid, Proper;
    RowOfValid(n, h, a);
    forall k | 0 <= k < |vs|
      ensures Valid(n, vs[k])
    {
      RowOfValid(n, h, cs[k]);
    }
    BlockRestoredIff(n, Some(RowOf(n, h, a)), vs);
    NeverIdentityIff(n, g, theta, h, a, cs, vs);
  }

  /** An aggregate that holds any weight or any balance is restored, whatever the votes of the block are. */
  lemma HeldVotesRestored(n: int, g: seq<int>, theta: nat, h: Point, a: Contribution,
                          cs: seq<Contribution>, vs: seq<Row>)
    requires n > 1 && KeyDecrypts(n, g, theta) && Units(n, a) && RowsOf(n, h, vs, cs) && Proper(n, a, cs)
    requires a.w.m > 0 || a.b.m > 0
    ensures NeverIdentity(n, RowOf(n, h, a), vs)
    ensures var s := Some(RowOf(n, h, a)); RollbackAll(n, ApplyAll(n, s, vs), vs) == s
  {
    hide KeyDecrypts, RowOf, Unit, NeverIdentity, RollbackAll, ApplyAll;
    forall k | 1 <= k <= |cs|
      ensures !AllVanish(n, Both(a, Total(cs[k..])))
    {
      TotalBounds(cs, n, k);
    }
    NeverIdentityIff(n, g, theta, h, a, cs, vs);
    VotesRestoredIff(n, g, theta, h, a, cs, vs);
  }

  // ----- the whole table -----

  /** An aggregate always holds the totals of the votes that were applied to it. */
  lemma AggregateHoldsTotals(n: int, h: Point, a: Contribution, cs: seq<Contribution>, vs: seq<Row>)
    requires n > 1 && Units(n, a) && RowsOf(n, h, vs, cs) && vs != []
    ensures ApplyAll(n, None, vs) == Some(RowOf(n, h, Total(cs)))
    ensures ApplyAll(n, Some(RowOf(n, h, a)), vs) == Some(RowOf(n, h, Both(a, Total(cs))))
  {
    hide RowOf, Unit, Valid, Times, ApplyAll, Product, Total, Both;
    RowOfValid(n, h, a);
    forall k | 0 <= k < |vs|
      ensures Valid(n, vs[k])
    {
      RowOfValid(n, h, cs[k]);
    }
    ApplyAllMultiplies(n, None, vs);
    ApplyAllMultiplies(n, Some(RowOf(n, h, a)), vs);
    ProductIsTotal(n, h, vs, cs);
    RowOfBoth(n, h, a, Total(cs));
    ProductValid(n, vs);
    IdentityLaws(n, Product(n, vs));
  }

  datatype Cast = Cast(proposal: nat, c: Contribution)

  function CastOn(casts: seq<Cast>, p: nat): seq<Contribution> {
    if casts == [] then []
    else (if casts[0].proposal == p then [casts[0].c] else []) + CastOn(casts[1..], p)
  }

  /** What is on the chain for these votes. */
  predicate OnChain(n: int, h: Point, ballots: seq<Ballot>, casts: seq<Cast>)
    requires n > 1
  {
    |ballots| == |casts| &&
    forall k :: 0 <= k < |ballots| ==>
      && ballots[k].proposal == casts[k].proposal
      && ballots[k].part == RowOf(n, h, casts[k].c) && Units(n, casts[k].c)
  }

  lemma {:induction false} OnChainOf(n: int, h: Point, ballots: seq<Ballot>, casts: seq<Cast>, p: nat)
    requires n > 1 && OnChain(n, h, ballots, casts)
    ensures RowsOf(n, h, Of(ballots, p), CastOn(casts, p))
    decreases |ballots|
  {
    hide RowOf, Units;
    if ballots != [] {
      OnChainOf(n, h, ballots[1..], casts[1..], p);
    }
  }

  /** The table holds these totals, and each of them has some weight or some balance. */
  predicate Holds(n: int, h: Point, rows: map<nat, Row>, held: map<nat, Contribution>)
    requires n > 1
  {
    rows.Keys == held.Keys &&
    forall p :: p in rows ==>
      rows[p] == RowOf(n, h, held[p]) && Units(n, held[p]) && (held[p].w.m > 0 || held[p].b.m > 0)
  }

  /** A table in which every proposal has some weight or some balance survives any block and its removal. */
  lemma HeldTableRestored(n: int, g: seq<int>, theta: nat, h: Point, rows: map<nat, Row>,
                          held: map<nat, Contribution>, ballots: seq<Ballot>, casts: seq<Cast>)
    requires n > 1 && KeyDecrypts(n, g, theta) && Holds(n, h, rows, held) && OnChain(n, h, ballots, casts)
    requires forall p :: p in held ==> Proper(n, held[p], CastOn(casts, p))
    ensures forall p :: p in rows ==> NeverIdentity(n, rows[p], Of(ballots, p))
  {
    hide KeyDecrypts, RowOf, Units, NeverIdentity, Proper, Of, CastOn, OnChain;
    forall p | p in rows
      ensures NeverIdentity(n, rows[p], Of(ballots, p))
    {
      OnChainOf(n, h, ballots, casts, p);
      HeldVotesRestored(n, g, theta, h, held[p], CastOn(casts, p), Of(ballots, p));
    }
  }

  // ----- a row that is lost -----

  /**
    Where it is lost: an aggregate of one vote without weight or balance, and a block whose second vote is
    another such vote with opposite randomness and blinding. Without the first vote of the block the
    aggregate is the identity, so its row is removed, and it is missing for the second.
   */
  lemma RowLostOnTheWayBack()
    ensures var zero, opposite := Part(0, 2, 8, 1), Part(0, 8, 2, ORDER - 1);
            var a := Contribution(zero, zero, zero);
            var v := Contribution(Part(3, 1, 1, 5), Part(-3, 1, 1, 6), Part(1, 1, 1, 7));
            var w := Contribution(opposite, opposite, opposite);
            var block := [RowOf(15, 2, v), RowOf(15, 2, w)];
            && Encrypt(15, 0, 2) == Some(143) && Encrypt(15, 0, 8) == Some(107)
            && Units(15, a) && Units(15, v) && Units(15, w)
            && RollbackAll(15, ApplyAll(15, Some(RowOf(15, 2, a)), block), block) == None
  {
    hide RollbackAll, ApplyAll, RowOf, Valid, NeverIdentity;
    var zero, opposite := Part(0, 2, 8, 1), Part(0, 8, 2, ORDER - 1);
    var a, w := Contribution(zero, zero, zero), Contribution(opposite, opposite, opposite);
    var v := Contribution(Part(3, 1, 1, 5), Part(-3, 1, 1, 6), Part(1, 1, 1, 7));
    var first, second := RowOf(15, 2, v), RowOf(15, 2, w);
    ZeroRows();
    RowOfValid(15, 2, a);
    RowOfValid(15, 2, v);
    RowOfValid(15, 2, w);
    assert [first, second][1..] == [second];
    SingleProduct(15, second);
    LostAt(15, RowOf(15, 2, a), [first, second], 1);
    ApplyAllMultiplies(15, Some(RowOf(15, 2, a)), [first, second]);
    RollbackAllIs(15, RowOf(15, 2, a), [first, second]);
  }

  lemma LostAt(n: int, a: Row, vs: seq<Row>, k: nat)
    requires n > 1 && 1 <= k <= |vs| && Times(n, a, Product(n, vs[k..])) == IDENTITY
    ensures !NeverIdentity(n, a, vs)
  {
  }

  lemma SingleProduct(n: int, v: Row)
    requires n > 1 && Valid(n, v)
    ensures Product(n, [v]) == v
  {
    hide Valid, Times;
    assert [v][1..] == [];
    IdentityLaws(n, v);
    RowsAssoc(n, v, IDENTITY, v);
  }

  lemma ZeroRows()
    ensures Encrypt(15, 0, 2) == Some(143) && Encrypt(15, 0, 8) == Some(107)
    ensures var zero, opposite := Part(0, 2, 8, 1), Part(0, 8, 2, ORDER - 1);
            var a, w := Contribution(zero, zero, zero), Contribution(opposite, opposite, opposite);
            Times(15, RowOf(15, 2, a), RowOf(15, 2, w)) == IDENTITY
  {
    hide Encrypt, Ciphertext;
    var zero, opposite := Part(0, 2, 8, 1), Part(0, 8, 2, ORDER - 1);
    EncryptIsPart(15, zero);
    EncryptIsPart(15, opposite);
    ZeroCiphertexts();
  }

  lemma ZeroCiphertexts()
    ensures Ciphertext(15, Part(0, 2, 8, 1)) == 143 && Ciphertext(15, Part(0, 8, 2, ORDER - 1)) == 107
  {
    hide Pow;
    PowersMod();
  }

  lemma PowersMod()
    ensures Pow(2, 15) % 225 == 143 && Pow(8, 15) % 225 == 107
  {
    PowAdd(2, 8, 7);
    PowAdd(2, 4, 4);
    PowAdd(2, 4, 3);
    PowAdd(2, 2, 1);
    PowAdd(2, 2, 2);
    assert Pow(2, 1) == 2 && Pow(2, 2) == 4;
    assert Pow(2, 15) == 32768;
    PowMul(2, 15, 3);
    PowMul(2, 3, 15);
    PowAdd(32768, 1, 2);
    PowAdd(32768, 1, 1);
    assert Pow(32768, 1) == 32768;
    assert Pow(32768, 3) == 32768 * (32768 * 32768);
    assert Pow(8, 15) == Pow(2, 45) == Pow(32768, 3);
  }
}
