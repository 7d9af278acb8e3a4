/** The running aggregates of the proposals: applying the votes of a block, and taking the block back. */
module VoteLedger {
  import opened Numerals
  import opened ModArith
  import opened SignedPower
  import opened Paillier
  import opened Tally

  /** The order of the curve's prime subgroup. A commitment is represented by its discrete logarithm. */
  const ORDER := 0x1000000000000000000000000000000014def9dea2f79cd65812631a5cf5d3ed

  type Point = x: int | 0 <= x < ORDER

  /** One aggregate: three ciphertexts and three commitments. A vote contributes the same six parts. */
  datatype Row = Row(ew: nat, es: nat, eb: nat, cw: Point, cs: Point, cb: Point)

  const IDENTITY := Row(1, 1, 1, 0, 0, 0)

  predicate Valid(n: int, a: Row)
    requires n > 1
  {
    ValidCiphertext(n, a.ew) && ValidCiphertext(n, a.es) && ValidCiphertext(n, a.eb)
  }

  // ----- one part -----

  function CipherTimes(n: int, a: nat, b: nat): nat
    requires n > 1
  {
    SquarePositive(n);
    ModMul(a, b, n * n)
  }

  /** The inverse modulo N^2. A valid ciphertext has one. */
  function InverseCiphertext(n: int, a: nat): Option<nat>
    requires n > 1
  {
    SquarePositive(n);
    if ValidCiphertext(n, a) then ModInverse(a, n * n) else None
  }

  function PointPlus(a: Point, b: Point): Point { (a + b) % ORDER }

  function PointMinus(a: Point, b: Point): Point { (a - b) % ORDER }

  /** What is invertible modulo N is invertible modulo N^2. */
  lemma UnitAbove(n: int, a: int, x: int)
    requires n > 1 && Inverse(a, x, n)
    ensures n * n > 0 && exists y :: Inverse(a, y, n * n)
  {
    var k := CongElim(a * x, 1, n);
    LinearInverse(n, k);
    var y := x * (1 - k * n);
    assert (a * x) * (1 - k * n) == a * y by { MulAssoc(a, x, 1 - k * n); }
    assert Inverse(a, y, n * n);
  }

  lemma InverseExists(n: int, a: nat)
    requires n > 1 && ValidCiphertext(n, a)
    ensures n * n > 0 && InverseCiphertext(n, a).Some? && Inverse(a, InverseCiphertext(n, a).value, n * n)
    ensures InverseCiphertext(n, a).value < n * n
  {
    var x := ModInverse(a, n).value;
    UnitAbove(n, a, x);
    var y :| Inverse(a, y, n * n);
    InverseFound(a, y, n * n);
  }

  lemma UnitIsValid(n: int, a: nat, y: int)
    requires n > 1 && n * n > 0 && a < n * n && Inverse(a, y, n * n)
    ensures ValidCiphertext(n, a)
  {
    hide Cong;
    UnitBelow(n, a, y);
    InverseFound(a, y, n);
  }

  lemma TimesValid(n: int, a: nat, b: nat)
    requires n > 1 && ValidCiphertext(n, a) && ValidCiphertext(n, b)
    ensures ValidCiphertext(n, CipherTimes(n, a, b))
  {
    InverseExists(n, a);
    InverseExists(n, b);
    var x, y, m := InverseCiphertext(n, a).value, InverseCiphertext(n, b).value, n * n;
    CongMul(a * x, 1, b * y, 1, m);
    Shuffle(a, b, x, y);
    CongMod(a * b, m);
    CongScale(CipherTimes(n, a, b), a * b, x * y, m);
    UnitIsValid(n, CipherTimes(n, a, b), x * y);
  }

  lemma InverseValid(n: int, a: nat)
    requires n > 1 && ValidCiphertext(n, a)
    ensures InverseCiphertext(n, a).Some? && ValidCiphertext(n, InverseCiphertext(n, a).value)
  {
    InverseExists(n, a);
    var x := InverseCiphertext(n, a).value;
    assert a * x == x * a;
    UnitIsValid(n, x, a);
  }

  lemma TimesAssoc(n: int, a: nat, b: nat, c: nat)
    requires n > 1
    ensures CipherTimes(n, CipherTimes(n, a, b), c) == CipherTimes(n, a, CipherTimes(n, b, c))
    ensures CipherTimes(n, a, b) == CipherTimes(n, b, a)
  {
    SquarePositive(n);
    MulMod(a * b, c, n * n);
    MulMod(a, b * c, n * n);
    MulAssoc(a, b, c);
  }

  /** Taking a factor away again. */
  lemma TimesCancel(n: int, a: nat, v: nat)
    requires n > 1 && a < n * n && ValidCiphertext(n, v)
    ensures InverseCiphertext(n, v).Some? && CipherTimes(n, CipherTimes(n, a, v), InverseCiphertext(n, v).value) == a
  {
    InverseExists(n, v);
    var x, m := InverseCiphertext(n, v).value, n * n;
    MulMod(a * v, x, m);
    CongScale(v * x, 1, a, m);
    MulAssoc(a, v, x);
    DivUnique(a, 0, a, m);
  }

  // ----- rows -----

  function Times(n: int, a: Row, b: Row): Row
    requires n > 1
  {
    Row(CipherTimes(n, a.ew, b.ew), CipherTimes(n, a.es, b.es), CipherTimes(n, a.eb, b.eb),
        PointPlus(a.cw, b.cw), PointPlus(a.cs, b.cs), PointPlus(a.cb, b.cb))
  }

  function Without(n: int, a: Row, v: Row): Row
    requires n > 1 && Valid(n, v)
  {
    InverseValid(n, v.ew);
    InverseValid(n, v.es);
    InverseValid(n, v.eb);
    Row(CipherTimes(n, a.ew, InverseCiphertext(n, v.ew).value),
        CipherTimes(n, a.es, InverseCiphertext(n, v.es).value),
        CipherTimes(n, a.eb, InverseCiphertext(n, v.eb).value),
        PointMinus(a.cw, v.cw), PointMinus(a.cs, v.cs), PointMinus(a.cb, v.cb))
  }

  lemma PointLaws(a: Point, b: Point, c: Point)
    ensures PointPlus(PointPlus(a, b), c) == PointPlus(a, PointPlus(b, c))
    ensures PointPlus(a, b) == PointPlus(b, a)
  {
    CongMod(a + b, ORDER);
    CongMod(b + c, ORDER);
    CongAdd((a + b) % ORDER, a + b, c, c, ORDER);
    CongAdd(a, a, (b + c) % ORDER, b + c, ORDER);
  }

  lemma PointCancel(a: Point, b: Point)
    ensures PointMinus(PointPlus(a, b), b) == a && PointPlus(0, a) == a
  {
  }

  lemma RowsValid(n: int, a: Row, b: Row)
    requires n > 1 && Valid(n, a) && Valid(n, b)
    ensures Valid(n, Times(n, a, b))
  {
    TimesValid(n, a.ew, b.ew);
    TimesValid(n, a.es, b.es);
    TimesValid(n, a.eb, b.eb);
  }

  lemma RowsAssoc(n: int, a: Row, b: Row, c: Row)
    requires n > 1
    ensures Times(n, Times(n, a, b), c) == Times(n, a, Times(n, b, c))
    ensures Times(n, a, b) == Times(n, b, a)
  {
    TimesAssoc(n, a.ew, b.ew, c.ew);
    TimesAssoc(n, a.es, b.es, c.es);
    TimesAssoc(n, a.eb, b.eb, c.eb);
    PointLaws(a.cw, b.cw, c.cw);
    PointLaws(a.cs, b.cs, c.cs);
    PointLaws(a.cb, b.cb, c.cb);
  }

  lemma RowsCancel(n: int, a: Row, v: Row)
    requires n > 1 && Valid(n, a) && Valid(n, v)
    ensures Without(n, Times(n, a, v), v) == a
  {
    TimesCancel(n, a.ew, v.ew);
    TimesCancel(n, a.es, v.es);
    TimesCancel(n, a.eb, v.eb);
    PointCancel(a.cw, v.cw);
    PointCancel(a.cs, v.cs);
    PointCancel(a.cb, v.cb);
  }

  lemma IdentityLaws(n: int, v: Row)
    requires n > 1 && Valid(n, v)
    ensures Valid(n, IDENTITY) && Times(n, IDENTITY, v) == v
  {
    SquarePositive(n);
    UnitIsValid(n, 1, 1);
    OneTimes(n, v.ew);
    OneTimes(n, v.es);
    OneTimes(n, v.eb);
    PointCancel(v.cw, 0);
    PointCancel(v.cs, 0);
    PointCancel(v.cb, 0);
  }

  lemma OneTimes(n: int, a: nat)
    requires n > 1 && a < n * n
    ensures CipherTimes(n, 1, a) == a
  {
    DivUnique(a, 0, a, n * n);
  }

  // ----- one proposal -----

  /** One vote added to the aggregate of its proposal, if there is one yet. */
  function Apply(n: int, s: Option<Row>, v: Row): Option<Row>
    requires n > 1
  {
    if s.None? then Some(v.(cw := PointPlus(0, v.cw), cs := PointPlus(0, v.cs), cb := PointPlus(0, v.cb)))
    else
      var ew :- Add(n, s.value.ew, v.ew);
      var es :- Add(n, s.value.es, v.es);
      var eb :- Add(n, s.value.eb, v.eb);
      Some(Row(ew, es, eb, PointPlus(s.value.cw, v.cw), PointPlus(s.value.cs, v.cs), PointPlus(s.value.cb, v.cb)))
  }

  /**
    One vote taken back: an aggregate that has become the identity is removed. A missing one is left
    alone, and so is one that cannot be divided.
   */
  function Rollback(n: int, s: Option<Row>, v: Row): Option<Row>
    requires n > 1
  {
    if s.None? || !Valid(n, s.value) || !Valid(n, v) then s
    else
      var r := Without(n, s.value, v);
      if r == IDENTITY then None else Some(r)
  }

  ghost predicate ValidState(n: int, s: Option<Row>)
    requires n > 1
  {
    s.Some? ==> Valid(n, s.value)
  }

  /** The group element that a state stands for. */
  function Value(s: Option<Row>): Row { if s.Some? then s.value else IDENTITY }

  lemma ApplyMultiplies(n: int, s: Option<Row>, v: Row)
    requires n > 1 && ValidState(n, s) && Valid(n, v)
    ensures Apply(n, s, v) == Some(Times(n, Value(s), v)) && Valid(n, Times(n, Value(s), v))
  {
    hide ValidCiphertext, CipherTimes, PointPlus;
    IdentityLaws(n, v);
    RowsValid(n, Value(s), v);
    if s.None? {
      ZeroPlus(v.cw);
      ZeroPlus(v.cs);
      ZeroPlus(v.cb);
    } else {
      AddTimes(n, s.value.ew, v.ew);
      AddTimes(n, s.value.es, v.es);
      AddTimes(n, s.value.eb, v.eb);
    }
  }

  lemma ZeroPlus(a: Point)
    ensures PointPlus(0, a) == a
  {
  }

  lemma AddTimes(n: int, a: nat, b: nat)
    requires n > 1 && ValidCiphertext(n, a) && ValidCiphertext(n, b)
    ensures Add(n, a, b) == Some(CipherTimes(n, a, b))
  {
  }

  /** One vote, applied and taken back, restores the state exactly unless the state was an identity row. */
  lemma VoteRestoredIff(n: int, s: Option<Row>, v: Row)
    requires n > 1 && ValidState(n, s) && Valid(n, v)
    ensures Rollback(n, Apply(n, s, v), v) == s <==> s != Some(IDENTITY)
  {
    hide Valid, Times, Without;
    ApplyMultiplies(n, s, v);
    IdentityLaws(n, v);
    RowsCancel(n, Value(s), v);
  }

  // ----- the votes of one proposal in a block -----

  function ApplyAll(n: int, s: Option<Row>, vs: seq<Row>): Option<Row>
    requires n > 1
    decreases |vs|
  {
    if vs == [] then s else ApplyAll(n, Apply(n, s, vs[0]), vs[1..])
  }

  ghost predicate AllValid(n: int, vs: seq<Row>)
    requires n > 1
  {
    forall k :: 0 <= k < |vs| ==> Valid(n, vs[k])
  }

  function ValidOnly(n: int, vs: seq<Row>): seq<Row>
    requires n > 1
  {
    if vs == [] then [] else (if Valid(n, vs[0]) then [vs[0]] else []) + ValidOnly(n, vs[1..])
  }

  /** Votes that are not valid change nothing when they are taken back. */
  lemma {:induction false} InvalidIgnored(n: int, s: Option<Row>, vs: seq<Row>)
    requires n > 1
    ensures RollbackAll(n, s, vs) == RollbackAll(n, s, ValidOnly(n, vs))
    decreases |vs|
  {
    hide Valid, Without;
    if vs != [] {
      InvalidIgnored(n, Rollback(n, s, vs[0]), vs[1..]);
      if Valid(n, vs[0]) {
        assert ([vs[0]] + ValidOnly(n, vs[1..]))[1..] == ValidOnly(n, vs[1..]);
      } else {
        assert [] + ValidOnly(n, vs[1..]) == ValidOnly(n, vs[1..]);
      }
    }
  }

  /** A block is taken back vote by vote, in the order in which it was applied. */
  function RollbackAll(n: int, s: Option<Row>, vs: seq<Row>): Option<Row>
    requires n > 1
    decreases |vs|
  {
    if vs == [] then s else RollbackAll(n, Rollback(n, s, vs[0]), vs[1..])
  }

  /** The product of all contributions. */
  function Product(n: int, vs: seq<Row>): Row
    requires n > 1
  {
    if vs == [] then IDENTITY else Times(n, vs[0], Product(n, vs[1..]))
  }

  lemma {:induction false} ProductValid(n: int, vs: seq<Row>)
    requires n > 1 && AllValid(n, vs)
    ensures Valid(n, Product(n, vs))
    decreases |vs|
  {
    if vs == [] {
      SquarePositive(n);
      UnitIsValid(n, 1, 1);
    } else {
      ProductValid(n, vs[1..]);
      RowsValid(n, vs[0], Product(n, vs[1..]));
    }
  }

  /** Applying a block multiplies all its contributions. */
  lemma {:induction false} ApplyAllMultiplies(n: int, s: Option<Row>, vs: seq<Row>)
    requires n > 1 && ValidState(n, s) && AllValid(n, vs) && vs != []
    ensures ApplyAll(n, s, vs) == Some(Times(n, Value(s), Product(n, vs)))
    decreases |vs|
  {
    hide Valid, Times;
    var first := Apply(n, s, vs[0]);
    ApplyMultiplies(n, s, vs[0]);
    IdentityLaws(n, vs[0]);
    RowsAssoc(n, vs[0], IDENTITY, IDENTITY);
    if |vs| == 1 {
      assert vs[1..] == [];
    } else {
      ApplyAllMultiplies(n, first, vs[1..]);
      RowsAssoc(n, Value(s), vs[0], Product(n, vs[1..]));
    }
  }

  /** While the block is taken back, the aggregate is never the identity. */
  ghost predicate NeverIdentity(n: int, a: Row, vs: seq<Row>)
    requires n > 1
  {
    forall k :: 1 <= k <= |vs| ==> Times(n, a, Product(n, vs[k..])) != IDENTITY
  }

  lemma {:induction false} NoneStays(n: int, vs: seq<Row>)
    requires n > 1
    ensures RollbackAll(n, None, vs) == None
    decreases |vs|
  {
    if vs != [] {
      NoneStays(n, vs[1..]);
    }
  }

  lemma RollbackFirst(n: int, a: Row, vs: seq<Row>)
    requires n > 1 && Valid(n, a) && AllValid(n, vs) && vs != []
    ensures var rest := Times(n, a, Product(n, vs[1..]));
            && Rollback(n, Some(Times(n, a, Product(n, vs))), vs[0]) == (if rest == IDENTITY then None else Some(rest))
            && Valid(n, rest)
  {
    hide Valid, Times, Without;
    var v, p := vs[0], Product(n, vs[1..]);
    ProductValid(n, vs[1..]);
    RowsValid(n, a, p);
    var rest := Times(n, a, p);
    RowsAssoc(n, v, p, v);
    RowsAssoc(n, a, p, v);
    assert Times(n, a, Product(n, vs)) == Times(n, rest, v);
    RowsValid(n, rest, v);
    RowsCancel(n, rest, v);
  }

  /** Taking back a whole block, from the aggregate of `a` and the block. */
  lemma {:induction false} RollbackAllIs(n: int, a: Row, vs: seq<Row>)
    requires n > 1 && Valid(n, a) && AllValid(n, vs) && vs != []
    ensures RollbackAll(n, Some(Times(n, a, Product(n, vs))), vs) == if NeverIdentity(n, a, vs) then Some(a) else None
    decreases |vs|
  {
    hide Valid, Times, Rollback;
    var rest := Times(n, a, Product(n, vs[1..]));
    RollbackFirst(n, a, vs);
    if rest == IDENTITY {
      NoneStays(n, vs[1..]);
      assert !NeverIdentity(n, a, vs);
    } else if |vs| == 1 {
      assert vs[1..] == [];
      IdentityLaws(n, a);
      RowsAssoc(n, a, IDENTITY, a);
      assert NeverIdentity(n, a, vs);
    } else {
      RollbackAllIs(n, a, vs[1..]);
      NeverIdentitySplit(n, a, vs);
    }
  }

  lemma NeverIdentitySplit(n: int, a: Row, vs: seq<Row>)
    requires n > 1 && vs != [] && Times(n, a, Product(n, vs[1..])) != IDENTITY
    ensures NeverIdentity(n, a, vs) <==> NeverIdentity(n, a, vs[1..])
  {
    hide Times, Product;
    forall k | 1 <= k < |vs|
      ensures vs[1..][k..] == vs[k + 1..]
    {
    }
    if NeverIdentity(n, a, vs[1..]) {
      forall k | 1 <= k <= |vs|
        ensures Times(n, a, Product(n, vs[k..])) != IDENTITY
      {
        if k > 1 {
          assert vs[1..][k - 1..] == vs[k..];
        }
      }
    }
    if NeverIdentity(n, a, vs) {
      forall k | 1 <= k <= |vs[1..]|
        ensures Times(n, a, Product(n, vs[1..][k..])) != IDENTITY
      {
        assert vs[1..][k..] == vs[k + 1..];
      }
    }
  }

  /**
    A block of votes, applied and taken back, restores the aggregate exactly if there was none before, or
    if the aggregate is at no point of the way back the identity.
   */
  lemma BlockRestoredIff(n: int, s: Option<Row>, vs: seq<Row>)
    requires n > 1 && ValidState(n, s) && AllValid(n, vs)
    ensures RollbackAll(n, ApplyAll(n, s, vs), vs) == s <==> s == None || NeverIdentity(n, s.value, vs)
  {
    hide Valid, Times, Rollback, RollbackAll, Product;
    if vs == [] {
      RollbackNothing(n, s);
    } else {
      assert Valid(n, Value(s)) by { if s.None? { IdentityLaws(n, vs[0]); } }
      ApplyAllMultiplies(n, s, vs);
      RollbackAllIs(n, Value(s), vs);
      if s.None? {
        EndsInIdentity(n, vs);
      }
    }
  }

  lemma RollbackNothing(n: int, s: Option<Row>)
    requires n > 1
    ensures RollbackAll(n, ApplyAll(n, s, []), []) == s
  {
  }

  lemma EndsInIdentity(n: int, vs: seq<Row>)
    requires n > 1 && AllValid(n, vs) && vs != []
    ensures !NeverIdentity(n, IDENTITY, vs)
  {
    hide Valid, Times;
    var k := |vs|;
    assert vs[k..] == [];
    IdentityLaws(n, vs[0]);
    IdentityLaws(n, IDENTITY);
    assert Times(n, IDENTITY, Product(n, vs[k..])) == IDENTITY;
  }

  // ----- all proposals -----

  /**
    A vote on the chain: its proposal, what it adds to the aggregate, the nullifiers of its inputs, and
    whether its signatures and proofs hold.
   */
  datatype Ballot = Ballot(proposal: nat, part: Row, nullifiers: seq<nat>, proven: bool)

  function At(rows: map<nat, Row>, p: nat): Option<Row> { if p in rows then Some(rows[p]) else None }

  /** The contributions of a block to one proposal, in their order. */
  function Of(ballots: seq<Ballot>, p: nat): seq<Row> {
    if ballots == [] then []
    else (if ballots[0].proposal == p then [ballots[0].part] else []) + Of(ballots[1..], p)
  }

  ghost predicate AllBallotsValid(n: int, ballots: seq<Ballot>)
    requires n > 1
  {
    forall k :: 0 <= k < |ballots| ==> Valid(n, ballots[k].part)
  }

  lemma {:induction false} OfValid(n: int, ballots: seq<Ballot>, p: nat)
    requires n > 1 && AllBallotsValid(n, ballots)
    ensures AllValid(n, Of(ballots, p))
    decreases |ballots|
  {
    hide Valid;
    if ballots != [] {
      OfValid(n, ballots[1..], p);
    }
  }

  function Stored(rows: map<nat, Row>, p: nat, row: Option<Row>): map<nat, Row> {
    if row.Some? then rows[p := row.value] else rows - {p}
  }

  lemma OfRest(ballots: seq<Ballot>, p: nat)
    requires ballots != []
    ensures if ballots[0].proposal == p
            then && Of(ballots, p) != [] && Of(ballots, p)[0] == ballots[0].part
                 && Of(ballots, p)[1..] == Of(ballots[1..], p)
            else Of(ballots, p) == Of(ballots[1..], p)
  {
  }

  lemma RollbackStep(n: int, rows: map<nat, Row>, ballots: seq<Ballot>, p: nat)
    requires n > 1 && ballots != []
    ensures var v := ballots[0];
            var now := Stored(rows, v.proposal, Rollback(n, At(rows, v.proposal), v.part));
            RollbackAll(n, At(now, p), Of(ballots[1..], p)) == RollbackAll(n, At(rows, p), Of(ballots, p))
  {
    hide Rollback;
    OfRest(ballots, p);
  }

  // ----- nullifiers -----

  /** A nullifier that a vote on a proposal has used up. */
  type Nullifier = (nat, nat)

  function Values(nfs: seq<nat>): set<nat> { set nf | nf in nfs }

  function SpentOn(p: nat, nfs: seq<nat>): (r: set<Nullifier>)
    ensures forall x :: x in r <==> x.0 == p && x.1 in nfs
  {
    if nfs == [] then {} else {(p, nfs[0])} + SpentOn(p, nfs[1..])
  }

  function Spent(b: Ballot): set<Nullifier> { SpentOn(b.proposal, b.nullifiers) }

  function SpentBy(ballots: seq<Ballot>): set<Nullifier> {
    if ballots == [] then {} else Spent(ballots[0]) + SpentBy(ballots[1..])
  }

  predicate AllDifferent(nfs: seq<nat>) {
    forall i, j :: 0 <= i < j < |nfs| ==> nfs[i] != nfs[j]
  }

  /** None of them is zero, used twice here, used before for the proposal, or used in the block so far. */
  predicate Unspent(b: Ballot, spent: set<Nullifier>, block: set<nat>) {
    && 0 !in b.nullifiers && AllDifferent(b.nullifiers)
    && forall nf :: nf in b.nullifiers ==> (b.proposal, nf) !in spent && nf !in block
  }

  predicate Accepts(n: int, b: Ballot, spent: set<Nullifier>, block: set<nat>)
    requires n > 1
  {
    b.proven && Valid(n, b.part) && Unspent(b, spent, block)
  }

  /** The votes up to the first that is not accepted: there the block is refused. */
  function Accepted(n: int, ballots: seq<Ballot>, spent: set<Nullifier>, block: set<nat>): (r: seq<Ballot>)
    requires n > 1
    ensures r <= ballots
  {
    if ballots == [] || !Accepts(n, ballots[0], spent, block) then []
    else
      var b := ballots[0];
      assert ballots == [b] + ballots[1..];
      [b] + Accepted(n, ballots[1..], spent + Spent(b), block + Values(b.nullifiers))
  }

  lemma {:induction false} AcceptedFresh(n: int, ballots: seq<Ballot>, spent: set<Nullifier>, block: set<nat>)
    requires n > 1
    ensures AllBallotsValid(n, Accepted(n, ballots, spent, block))
    ensures SpentBy(Accepted(n, ballots, spent, block)) !! spent
    decreases |ballots|
  {
    hide Valid;
    if ballots != [] && Accepts(n, ballots[0], spent, block) {
      var b := ballots[0];
      var rest := Accepted(n, ballots[1..], spent + Spent(b), block + Values(b.nullifiers));
      AcceptedFresh(n, ballots[1..], spent + Spent(b), block + Values(b.nullifiers));
      assert ([b] + rest)[1..] == rest;
    }
  }

  /** All nullifiers of a block, in their order. */
  function AllNullifiers(ballots: seq<Ballot>): seq<nat> {
    if ballots == [] then [] else ballots[0].nullifiers + AllNullifiers(ballots[1..])
  }

  /**
    What the code asks of a block: every vote is proven and has valid ciphertexts, no nullifier is zero, occurs
    twice in the block or stands in `block`, and none was used before for its proposal.
   */
  predicate Sound(n: int, ballots: seq<Ballot>, spent: set<Nullifier>, block: set<nat>)
    requires n > 1
  {
    && (forall k :: 0 <= k < |ballots| ==> ballots[k].proven && Valid(n, ballots[k].part))
    && 0 !in AllNullifiers(ballots) && AllDifferent(AllNullifiers(ballots))
    && (forall nf :: nf in AllNullifiers(ballots) ==> nf !in block)
    && (forall k, nf :: 0 <= k < |ballots| && nf in ballots[k].nullifiers ==> (ballots[k].proposal, nf) !in spent)
  }

  lemma DifferentAppend(a: seq<nat>, b: seq<nat>)
    ensures AllDifferent(a + b) <==> AllDifferent(a) && AllDifferent(b) && forall x :: x in a ==> x !in b
  {
    var all := a + b;
    if AllDifferent(all) {
      forall i, j | 0 <= i < j < |a|
        ensures a[i] != a[j]
      {
        assert all[i] != all[j];
      }
      forall i, j | 0 <= i < j < |b|
        ensures b[i] != b[j]
      {
        assert all[|a| + i] != all[|a| + j];
      }
      forall x | x in a
        ensures x !in b
      {
        var i :| 0 <= i < |a| && a[i] == x;
        forall j | 0 <= j < |b|
          ensures b[j] != x
        {
          assert all[i] != all[|a| + j];
        }
      }
    }
    if AllDifferent(a) && AllDifferent(b) && forall x :: x in a ==> x !in b {
      forall i, j | 0 <= i < j < |all|
        ensures all[i] != all[j]
      {
        if i < |a| <= j {
          assert all[i] in a && all[j] in b;
        }
      }
    }
  }

  lemma {:induction false} AmongAll(ballots: seq<Ballot>, k: nat, nf: nat)
    requires k < |ballots| && nf in ballots[k].nullifiers
    ensures nf in AllNullifiers(ballots)
    decreases |ballots|
  {
    if k > 0 {
      AmongAll(ballots[1..], k - 1, nf);
    }
  }

  /** A block is sound exactly if its first vote is accepted and the others are sound after it. */
  lemma SoundFirst(n: int, ballots: seq<Ballot>, spent: set<Nullifier>, block: set<nat>)
    requires n > 1 && ballots != []
    ensures var b := ballots[0];
            Sound(n, ballots, spent, block)
            <==> Accepts(n, b, spent, block)
                 && Sound(n, ballots[1..], spent + Spent(b), block + Values(b.nullifiers))
  {
    hide Valid, AllDifferent;
    var b, rest := ballots[0], ballots[1..];
    var here, more := b.nullifiers, AllNullifiers(rest);
    DifferentAppend(here, more);
    assert ballots == [b] + rest;
    assert forall k :: 0 < k < |ballots| ==> ballots[k] == rest[k - 1];
    forall k, nf | 0 <= k < |rest| && nf in rest[k].nullifiers
      ensures nf in more && rest[k] == ballots[k + 1]
    {
      AmongAll(rest, k, nf);
    }
  }

  /** The accepted votes are sound, and with the next one they would not be. */
  lemma {:induction false} AcceptedSound(n: int, ballots: seq<Ballot>, spent: set<Nullifier>, block: set<nat>)
    requires n > 1
    ensures var i := |Accepted(n, ballots, spent, block)|;
            && Sound(n, ballots[..i], spent, block)
            && (i < |ballots| ==> !Sound(n, ballots[..i + 1], spent, block))
    decreases |ballots|
  {
    hide Sound, Accepts, Spent, Values;
    NothingSound(n, spent, block);
    assert ballots[..0] == [];
    if ballots != [] {
      var b, i := ballots[0], |Accepted(n, ballots, spent, block)|;
      var now, seen := spent + Spent(b), block + Values(b.nullifiers);
      if Accepts(n, b, spent, block) {
        AcceptedSound(n, ballots[1..], now, seen);
        assert ballots[..i][1..] == ballots[1..][..i - 1];
        SoundFirst(n, ballots[..i], spent, block);
        if i < |ballots| {
          assert ballots[..i + 1][1..] == ballots[1..][..i];
          SoundFirst(n, ballots[..i + 1], spent, block);
        }
      } else {
        SoundFirst(n, ballots[..1], spent, block);
      }
    }
  }

  lemma NothingSound(n: int, spent: set<Nullifier>, block: set<nat>)
    requires n > 1
    ensures Sound(n, [], spent, block)
  {
  }

  /** How many inputs have voted. */
  function Inputs(ballots: seq<Ballot>): nat {
    if ballots == [] then 0 else |ballots[0].nullifiers| + Inputs(ballots[1..])
  }

  lemma {:induction false} DifferentCount(p: nat, nfs: seq<nat>)
    requires AllDifferent(nfs)
    ensures |SpentOn(p, nfs)| == |nfs|
    decreases |nfs|
  {
    if nfs != [] {
      DifferentCount(p, nfs[1..]);
      assert (p, nfs[0]) !in SpentOn(p, nfs[1..]);
    }
  }

  lemma DisjointCount(a: set<Nullifier>, b: set<Nullifier>, c: set<Nullifier>)
    requires a !! b
    ensures |a + b| == |a| + |b| && (a + b) + c == a + (b + c)
  {
  }

  lemma UnspentFresh(b: Ballot, spent: set<Nullifier>, block: set<nat>)
    requires Unspent(b, spent, block)
    ensures spent !! Spent(b) && |Spent(b)| == |b.nullifiers|
  {
    DifferentCount(b.proposal, b.nullifiers);
  }

  /** No input votes twice: every accepted input uses up a nullifier of its own. */
  lemma {:induction false} NoDoubleVote(n: int, ballots: seq<Ballot>, spent: set<Nullifier>, block: set<nat>)
    requires n > 1
    ensures var r := Accepted(n, ballots, spent, block);
            |spent + SpentBy(r)| == |spent| + Inputs(r)
    decreases |ballots|
  {
    hide Valid, Spent, Unspent, Values;
    var r := Accepted(n, ballots, spent, block);
    if r == [] {
      assert spent + SpentBy(r) == spent;
    } else {
      var b := ballots[0];
      var now := spent + Spent(b);
      NoDoubleVote(n, ballots[1..], now, block + Values(b.nullifiers));
      assert r[1..] == Accepted(n, ballots[1..], now, block + Values(b.nullifiers));
      UnspentFresh(b, spent, block);
      DisjointCount(spent, Spent(b), SpentBy(r[1..]));
    }
  }

  lemma {:induction false} SpentByLast(ballots: seq<Ballot>, b: Ballot)
    ensures SpentBy(ballots + [b]) == SpentBy(ballots) + Spent(b)
    decreases |ballots|
  {
    if ballots == [] {
      assert ballots + [b] == [b] && [b][1..] == [];
    } else {
      assert (ballots + [b])[1..] == ballots[1..] + [b];
      SpentByLast(ballots[1..], b);
    }
  }

  /** One more vote of a block is accepted. */
  lemma AcceptedNext(n: int, ballots: seq<Ballot>, i: nat, spent: set<Nullifier>, block: set<nat>)
    requires n > 1 && i < |ballots| && Accepts(n, ballots[i], spent, block)
    ensures ballots[..i] + Accepted(n, ballots[i..], spent, block)
         == ballots[..i + 1]
            + Accepted(n, ballots[i + 1..], spent + Spent(ballots[i]), block + Values(ballots[i].nullifiers))
  {
    hide Accepts;
    assert ballots[i..][1..] == ballots[i + 1..];
  }

  /** The rows and the nullifiers when one more vote has been applied. */
  lemma AppliedNext(n: int, rows: map<nat, Row>, start: map<nat, Row>, ballots: seq<Ballot>, i: nat)
    requires n > 1 && i < |ballots|
    requires forall p :: At(rows, p) == ApplyAll(n, At(start, p), Of(ballots[..i], p))
    ensures var v, done := ballots[i], ballots[..i + 1];
            var now := Stored(rows, v.proposal, Apply(n, At(rows, v.proposal), v.part));
            forall p :: At(now, p) == ApplyAll(n, At(start, p), Of(done, p))
  {
    hide Apply, ApplyAll, Of;
    var v, done := ballots[i], ballots[..i + 1];
    var now := Stored(rows, v.proposal, Apply(n, At(rows, v.proposal), v.part));
    assert done == ballots[..i] + [v];
    forall p
      ensures At(now, p) == ApplyAll(n, At(start, p), Of(done, p))
    {
      ApplyLast(n, At(start, p), ballots[..i], v, p);
    }
  }

  lemma SpentNext(ballots: seq<Ballot>, i: nat, spent: set<Nullifier>)
    requires i < |ballots|
    ensures (spent + SpentBy(ballots[..i])) + Spent(ballots[i]) == spent + SpentBy(ballots[..i + 1])
    ensures (spent - SpentBy(ballots[..i])) - Spent(ballots[i]) == spent - SpentBy(ballots[..i + 1])
  {
    hide Spent;
    SpentByLast(ballots[..i], ballots[i]);
    assert ballots[..i + 1] == ballots[..i] + [ballots[i]];
  }

  // ----- the database -----

  /** The aggregates and the nullifiers in the database, for one tally key. */
  class Ledger {
    const n: int
    var rows: map<nat, Row>
    var nullifiers: set<Nullifier>

    constructor (modulus: int)
      requires modulus > 1
      ensures n == modulus && rows == map[] && nullifiers == {}
    {
      n := modulus;
      rows := map[];
      nullifiers := {};
    }

    ghost predicate WellFormed()
      reads this
    {
      n > 1 && forall p :: p in rows ==> Valid(n, rows[p])
    }

    /**
      The block succeeds exactly if it is sound. Otherwise it is refused at the first vote that makes it
      unsound; what was applied before that stays.
     */
    method ApplyBlock(ballots: seq<Ballot>) returns (ok: bool, taken: nat)
      requires WellFormed()
      modifies this
      ensures WellFormed()
      ensures ok <==> Sound(n, ballots, old(nullifiers), {})
      ensures taken <= |ballots| && (ok <==> taken == |ballots|)
      ensures Sound(n, ballots[..taken], old(nullifiers), {})
      ensures !ok ==> !Sound(n, ballots[..taken + 1], old(nullifiers), {})
      ensures ballots[..taken] == Accepted(n, ballots, old(nullifiers), {})
      ensures nullifiers == old(nullifiers) + SpentBy(ballots[..taken])
      ensures forall p :: At(rows, p) == ApplyAll(n, At(old(rows), p), Of(ballots[..taken], p))
    {
      hide Valid, Apply, ApplyAll, Of, Accepted, SpentBy, Spent, Accepts, Values, Sound;
      var i, block := 0, {};
      ghost var all := Accepted(n, ballots, nullifiers, {});
      assert ballots[..0] == [] && ballots[0..] == ballots && [] + all == all;
      NothingSpent();
      forall p ensures ApplyAll(n, At(rows, p), Of([], p)) == At(rows, p) {
        NothingApplied(n, At(rows, p), p);
      }
      while i < |ballots| && Accepts(n, ballots[i], nullifiers, block)
        invariant 0 <= i <= |ballots| && WellFormed()
        invariant all == ballots[..i] + Accepted(n, ballots[i..], nullifiers, block)
        invariant nullifiers == old(nullifiers) + SpentBy(ballots[..i])
        invariant forall p :: At(rows, p) == ApplyAll(n, At(old(rows), p), Of(ballots[..i], p))
      {
        var v := ballots[i];
        AcceptsValid(n, v, nullifiers, block);
        AcceptedNext(n, ballots, i, nullifiers, block);
        AppliedNext(n, rows, old(rows), ballots, i);
        SpentNext(ballots, i, old(nullifiers));
        ApplyMultiplies(n, At(rows, v.proposal), v.part);
        rows := Stored(rows, v.proposal, Apply(n, At(rows, v.proposal), v.part));
        nullifiers := nullifiers + Spent(v);
        block := block + Values(v.nullifiers);
        i := i + 1;
      }
      AcceptedStops(n, ballots, i, nullifiers, block);
      assert all == ballots[..i] + [] == ballots[..i];
      AcceptedSound(n, ballots, old(nullifiers), {});
      ok, taken := i == |ballots|, i;
      assert ok ==> ballots[..i] == ballots;
      if Sound(n, ballots, old(nullifiers), {}) && i < |ballots| {
        SoundPrefix(n, ballots, i + 1, old(nullifiers), {});
      }
    }

    /** A block is always taken back to its end. */
    method RollbackBlock(ballots: seq<Ballot>)
      requires WellFormed()
      modifies this
      ensures WellFormed()
      ensures nullifiers == old(nullifiers) - SpentBy(ballots)
      ensures forall p :: At(rows, p) == RollbackAll(n, At(old(rows), p), Of(ballots, p))
    {
      hide Valid, Rollback, RollbackAll, Of, SpentBy, Spent;
      var i := 0;
      assert ballots[..0] == [] && ballots[0..] == ballots;
      NothingSpent();
      while i < |ballots|
        invariant 0 <= i <= |ballots| && WellFormed()
        invariant nullifiers == old(nullifiers) - SpentBy(ballots[..i])
        invariant forall p :: RollbackAll(n, At(rows, p), Of(ballots[i..], p))
                           == RollbackAll(n, At(old(rows), p), Of(ballots, p))
      {
        var v := ballots[i];
        ghost var before, here, rest := rows, ballots[i..], ballots[i + 1..];
        assert here[0] == v && here[1..] == rest;
        SpentNext(ballots, i, old(nullifiers));
        RollbackValid(n, At(rows, v.proposal), v.part);
        rows := Stored(rows, v.proposal, Rollback(n, At(rows, v.proposal), v.part));
        nullifiers := nullifiers - Spent(v);
        forall p
          ensures RollbackAll(n, At(rows, p), Of(rest, p)) == RollbackAll(n, At(before, p), Of(here, p))
        {
          RollbackStep(n, before, here, p);
        }
        i := i + 1;
      }
      assert ballots[i..] == [] && ballots[..i] == ballots;
      forall p ensures RollbackAll(n, At(rows, p), Of([], p)) == At(rows, p) {
        NothingRolledBack(n, At(rows, p), p);
      }
    }

    /**
      A block that joins the chain and leaves it again. The nullifiers are always as before; the
      aggregates are, exactly if none of them was the identity on the way back.
     */
    method ApplyAndRollback(ballots: seq<Ballot>) returns (ok: bool)
      requires WellFormed()
      modifies this
      ensures WellFormed()
      ensures ok <==> Sound(n, ballots, old(nullifiers), {})
      ensures ok ==> nullifiers == old(nullifiers)
      ensures ok ==>
                (rows == old(rows) <==> forall p :: p in old(rows) ==> NeverIdentity(n, old(rows)[p], Of(ballots, p)))
    {
      hide Valid, RollbackAll, ApplyAll, Accepted, Of, NeverIdentity, SpentBy, Sound;
      ghost var before, spent := rows, nullifiers;
      var taken;
      ok, taken := ApplyBlock(ballots);
      if ok {
        assert ballots[..taken] == ballots;
        ghost var applied := rows;
        AcceptedFresh(n, ballots, spent, {});
        RollbackBlock(ballots);
        LedgerRestoredIff(n, before, ballots, applied, rows);
      }
    }
  }

  /** A part of a sound block, from its beginning, is sound. */
  lemma {:induction false} SoundPrefix(n: int, ballots: seq<Ballot>, i: nat, spent: set<Nullifier>, block: set<nat>)
    requires n > 1 && i <= |ballots| && Sound(n, ballots, spent, block)
    ensures Sound(n, ballots[..i], spent, block)
    decreases |ballots|
  {
    hide Sound, Accepts, Spent, Values;
    if i == 0 {
      assert ballots[..0] == [];
      NothingSound(n, spent, block);
    } else {
      var b := ballots[0];
      SoundFirst(n, ballots, spent, block);
      SoundPrefix(n, ballots[1..], i - 1, spent + Spent(b), block + Values(b.nullifiers));
      assert ballots[..i][1..] == ballots[1..][..i - 1];
      SoundFirst(n, ballots[..i], spent, block);
    }
  }

  lemma AcceptsValid(n: int, b: Ballot, spent: set<Nullifier>, block: set<nat>)
    requires n > 1 && Accepts(n, b, spent, block)
    ensures Valid(n, b.part)
  {
  }

  lemma AcceptedStops(n: int, ballots: seq<Ballot>, i: nat, spent: set<Nullifier>, block: set<nat>)
    requires n > 1 && i <= |ballots| && (i < |ballots| ==> !Accepts(n, ballots[i], spent, block))
    ensures Accepted(n, ballots[i..], spent, block) == []
  {
  }

  lemma NothingSpent()
    ensures SpentBy([]) == {}
  {
  }

  lemma NothingApplied(n: int, s: Option<Row>, p: nat)
    requires n > 1
    ensures ApplyAll(n, s, Of([], p)) == s
  {
  }

  lemma NothingRolledBack(n: int, s: Option<Row>, p: nat)
    requires n > 1
    ensures RollbackAll(n, s, Of([], p)) == s
  {
  }

  lemma ApplyLast(n: int, s: Option<Row>, ballots: seq<Ballot>, v: Ballot, p: nat)
    requires n > 1
    ensures ApplyAll(n, s, Of(ballots + [v], p))
         == if v.proposal == p then Apply(n, ApplyAll(n, s, Of(ballots, p)), v.part) else ApplyAll(n, s, Of(ballots, p))
  {
    hide Apply;
    OfLast(ballots, v, p);
    if v.proposal == p {
      ApplyAllSnoc(n, s, Of(ballots, p), v.part);
    } else {
      assert Of(ballots, p) + [] == Of(ballots, p);
    }
  }

  lemma {:induction false} OfLast(ballots: seq<Ballot>, v: Ballot, p: nat)
    ensures Of(ballots + [v], p) == Of(ballots, p) + if v.proposal == p then [v.part] else []
    decreases |ballots|
  {
    if ballots == [] {
      assert ballots + [v] == [v] && [v][1..] == [];
    } else {
      var first := if ballots[0].proposal == p then [ballots[0].part] else [];
      var last := if v.proposal == p then [v.part] else [];
      assert (ballots + [v])[1..] == ballots[1..] + [v] && (ballots + [v])[0] == ballots[0];
      OfLast(ballots[1..], v, p);
      assert Of(ballots + [v], p) == first + (Of(ballots[1..], p) + last);
      assert first + (Of(ballots[1..], p) + last) == (first + Of(ballots[1..], p)) + last;
    }
  }

  lemma {:induction false} ApplyAllSnoc(n: int, s: Option<Row>, vs: seq<Row>, v: Row)
    requires n > 1
    ensures ApplyAll(n, s, vs + [v]) == Apply(n, ApplyAll(n, s, vs), v)
    decreases |vs|
  {
    hide Apply;
    if vs == [] {
      assert vs + [v] == [v] && [v][1..] == [];
    } else {
      assert (vs + [v])[1..] == vs[1..] + [v];
      ApplyAllSnoc(n, Apply(n, s, vs[0]), vs[1..], v);
    }
  }

  lemma RollbackValid(n: int, s: Option<Row>, v: Row)
    requires n > 1 && ValidState(n, s)
    ensures ValidState(n, Rollback(n, s, v))
  {
    if s.Some? && Valid(n, v) {
      InverseValid(n, v.ew);
      InverseValid(n, v.es);
      InverseValid(n, v.eb);
      TimesValid(n, s.value.ew, InverseCiphertext(n, v.ew).value);
      TimesValid(n, s.value.es, InverseCiphertext(n, v.es).value);
      TimesValid(n, s.value.eb, InverseCiphertext(n, v.eb).value);
    }
  }

  /** The whole table is restored exactly if no aggregate that it held was the identity on the way back. */
  lemma LedgerRestoredIff(n: int, rows: map<nat, Row>, ballots: seq<Ballot>,
                          applied: map<nat, Row>, after: map<nat, Row>)
    requires n > 1 && AllBallotsValid(n, ballots) && forall p :: p in rows ==> Valid(n, rows[p])
    requires forall p :: At(applied, p) == ApplyAll(n, At(rows, p), Of(ballots, p))
    requires forall p :: At(after, p) == RollbackAll(n, At(applied, p), Of(ballots, p))
    ensures after == rows <==> forall p :: p in rows ==> NeverIdentity(n, rows[p], Of(ballots, p))
  {
    hide Valid, Rollback, RollbackAll, ApplyAll, NeverIdentity, Of;
    forall p
      ensures At(after, p) == At(rows, p) <==> p !in rows || NeverIdentity(n, rows[p], Of(ballots, p))
    {
      OfValid(n, ballots, p);
      BlockRestoredIff(n, At(rows, p), Of(ballots, p));
    }
    if forall p :: At(after, p) == At(rows, p) {
      SameTables(after, rows);
    } else {
      var p :| At(after, p) != At(rows, p);
    }
  }

  lemma SameTables(a: map<nat, Row>, b: map<nat, Row>)
    requires forall p :: At(a, p) == At(b, p)
    ensures a == b
  {
    forall p: nat
      ensures p in a <==> p in b
      ensures p in a ==> a[p] == b[p]
    {
      assert At(a, p) == At(b, p);
    }
  }
}
