/**
  The verifying half of `consensus/src/transactions.rs`: `SemanticVerification::queue`,
  `verify_transactions` and `FullVerification::verify`. Entries are overwritten in place.
  Queueing and a successful batch verification are one step, as the source asks of callers.
*/
module TransactionVerifier {
  import opened Wrappers
  import opened HardForks
  import opened KeyImages
  import opened Transactions

  // ----- Semantic verification -----

  /** Succeeds exactly when every transaction passes; any earlier verdict is overwritten. */
  method Queue(rules: Rules, es: array<Entry>, hf: HardFork) returns (ok: bool)
    modifies es
    ensures ok <==> forall i :: 0 <= i < es.Length ==> rules.semantic(old(es[i]).tx, hf)
    ensures ok ==> forall i :: 0 <= i < es.Length ==> es[i] == Entry(old(es[i]).tx, OnlySemantic(hf))
  {
    for i := 0 to es.Length
      invariant forall j :: 0 <= j < i ==>
          rules.semantic(old(es[j]).tx, hf) && es[j] == Entry(old(es[j]).tx, OnlySemantic(hf))
      invariant forall j :: i <= j < es.Length ==> es[j] == old(es[j])
    {
      if !rules.semantic(es[i].tx, hf) { return false; }
      es[i] := es[i].(state := OnlySemantic(hf));
    }
    ok := true;
  }

  // ----- Decoys of version 1 transactions -----

  method VerifyDecoyInfo(rules: Rules, es: seq<Entry>, needed: seq<Need>, chain: seq<Hash>, hf: HardFork)
    returns (ok: bool)
    requires |needed| == |es|
    ensures ok <==>
            hf == 1 || forall i :: 0 <= i < |es| && needed[i] == V1DecoyCheck ==> rules.decoys(chain, es[i].tx, hf)
  {
    if hf == 1 { return true; }
    for i := 0 to |es|
      invariant forall j :: 0 <= j < i && needed[j] == V1DecoyCheck ==> rules.decoys(chain, es[j].tx, hf)
    {
      if needed[i] == V1DecoyCheck && !rules.decoys(chain, es[i].tx, hf) { return false; }
    }
    ok := true;
  }

  // ----- Rings, listed only for the transactions that need them -----

  /** How many of the first `i` transactions are wanted: where the ring of `i` is in the list. */
  function Rank(needed: seq<Need>, i: nat): nat
    requires i <= |needed|
  {
    if i == 0 then 0 else Rank(needed, i - 1) + if Wanted(needed[i - 1]) then 1 else 0
  }

  /** Ring number `Rank(i)` belongs to transaction `i`. */
  predicate Aligned(rules: Rules, es: seq<Entry>, needed: seq<Need>, rings: seq<Ring>, n: nat,
      chain: seq<Hash>, hf: HardFork)
    requires |needed| == |es| && n <= |es|
  {
    forall i :: 0 <= i < n && Wanted(needed[i]) ==>
      Rank(needed, i) < |rings| && rules.ring(chain, es[i].tx, hf) == Some(rings[Rank(needed, i)])
  }

  predicate HasRing(rules: Rules, e: Entry, need: Need, chain: seq<Hash>, hf: HardFork) {
    Wanted(need) ==> rules.ring(chain, e.tx, hf).Some?
  }

  method BatchGetRingMemberInfo(rules: Rules, es: seq<Entry>, needed: seq<Need>, chain: seq<Hash>, hf: HardFork)
    returns (rings: Option<seq<Ring>>)
    requires |needed| == |es|
    ensures rings.Some? <==> forall i :: 0 <= i < |es| ==> HasRing(rules, es[i], needed[i], chain, hf)
    ensures rings.Some? ==> Aligned(rules, es, needed, rings.value, |es|, chain, hf)
  {
    var list: seq<Ring> := [];
    for i := 0 to |es|
      invariant |list| == Rank(needed, i)
      invariant forall j :: 0 <= j < i ==> HasRing(rules, es[j], needed[j], chain, hf)
      invariant Aligned(rules, es, needed, list, i, chain, hf)
    {
      if Wanted(needed[i]) {
        var ring := rules.ring(chain, es[i].tx, hf);
        if ring.None? { return None; }
        list := list + [ring.value];
      }
    }
    rings := Some(list);
  }

  /** The transaction passes what `need` asks for. */
  predicate Passes(rules: Rules, tx: Tx, need: Need, chain: seq<Hash>, time: nat, hf: HardFork) {
    && (need == SemanticAndContextual ==> rules.semantic(tx, hf))
    && (Wanted(need) ==> Contextual(rules, tx, chain, time, hf))
  }

  /** `check_transaction_contextual`: inputs, version and decoys, then the locks one by one. */
  method CheckContextual(rules: Rules, tx: Tx, ring: Ring, chain: seq<Hash>, time: nat, hf: HardFork)
    returns (ok: bool)
    ensures ok <==> ContextualWith(rules, tx, ring, chain, time, hf)
  {
    if !rules.inputs(tx, ring, |chain|, hf) { return false; }
    if hf != 1 && !rules.decoys(chain, tx, hf) { return false; }
    for i := 0 to |ring.locks|
      invariant forall j :: 0 <= j < i ==> Unlocked(ring.locks[j], |chain|, time, hf)
    {
      if !Unlocked(ring.locks[i], |chain|, time, hf) { return false; }
    }
    ok := true;
  }

  method CheckWanted(rules: Rules, es: seq<Entry>, needed: seq<Need>, rings: seq<Ring>, chain: seq<Hash>, time: nat,
        hf: HardFork)
    returns (ok: bool)
    requires |needed| == |es| && Aligned(rules, es, needed, rings, |es|, chain, hf)
    ensures ok <==> forall i :: 0 <= i < |es| ==> Passes(rules, es[i].tx, needed[i], chain, time, hf)
  {
    var k := 0;
    for i := 0 to |es|
      invariant k == Rank(needed, i)
      invariant forall j :: 0 <= j < i ==> Passes(rules, es[j].tx, needed[j], chain, time, hf)
    {
      if Wanted(needed[i]) {
        var ring := rings[k];
        if needed[i] == SemanticAndContextual && !rules.semantic(es[i].tx, hf) { return false; }
        var passes := CheckContextual(rules, es[i].tx, ring, chain, time, hf);
        if !passes { return false; }
        k := k + 1;
      }
    }
    ok := true;
  }

  /**
    A full verdict under fork `hf` at block `top`: it names both, and keeps the least time-based lock of
    the ring exactly when there is one.
  */
  predicate IsVerdict(s: Cached, ring: Ring, top: Hash, hf: HardFork) {
    && ClaimedFork(s) == Some(hf) && ClaimedBlock(s) == Some(top)
    && (s.ValidAtHashAndHF? <==> NoTime(ring.locks))
    && (s.ValidAtHashAndHFWithTimeBasedLock? ==> s.lock.Time? && IsLeastTime(s.lock.time, ring.locks))
  }

  /** The verdict stored for a transaction with this ring, verified on top of `top`. */
  function VerdictFor(ring: Ring, top: Hash, hf: HardFork): (s: Cached)
    ensures IsVerdict(s, ring, top, hf)
  {
    var t := LeastTime(ring.locks);
    if t.Some? then ValidAtHashAndHFWithTimeBasedLock(top, hf, Time(t.value)) else ValidAtHashAndHF(top, hf)
  }

  /** What becomes of an entry: a new verdict from its own ring if it was wanted, else nothing. */
  function After(rules: Rules, e: Entry, need: Need, chain: seq<Hash>, top: Hash, hf: HardFork): (d: Entry)
    requires HasRing(rules, e, need, chain, hf)
    ensures d.tx == e.tx && (!Wanted(need) ==> d == e)
    ensures Wanted(need) ==> IsVerdict(d.state, rules.ring(chain, e.tx, hf).value, top, hf)
  {
    if Wanted(need) then Entry(e.tx, VerdictFor(rules.ring(chain, e.tx, hf).value, top, hf)) else e
  }

  method StoreVerdicts(rules: Rules, es: array<Entry>, needed: seq<Need>, rings: seq<Ring>, ghost chain: seq<Hash>,
        top: Hash, hf: HardFork)
    requires |needed| == es.Length && Aligned(rules, es[..], needed, rings, es.Length, chain, hf)
    modifies es
    ensures forall i :: 0 <= i < es.Length ==>
        HasRing(rules, old(es[i]), needed[i], chain, hf) && es[i] == After(rules, old(es[i]), needed[i], chain, top, hf)
  {
    var k := 0;
    ghost var was := es[..];
    for i := 0 to es.Length
      invariant k == Rank(needed, i)
      invariant forall j :: i <= j < es.Length ==> es[j] == was[j]
      invariant forall j :: 0 <= j < i ==>
          HasRing(rules, was[j], needed[j], chain, hf) && es[j] == After(rules, was[j], needed[j], chain, top, hf)
    {
      if Wanted(needed[i]) {
        assert rules.ring(chain, was[i].tx, hf) == Some(rings[k]);
        es[i] := es[i].(state := VerdictFor(rings[k], top, hf));
        k := k + 1;
      }
    }
  }

  method VerifyTransactions(rules: Rules, es: array<Entry>, needed: seq<Need>, chain: seq<Hash>, top: Hash,
        time: nat, hf: HardFork)
    returns (ok: bool)
    requires |needed| == es.Length
    modifies es
    ensures ok <==> forall i :: 0 <= i < es.Length ==> Passes(rules, old(es[i]).tx, needed[i], chain, time, hf)
    ensures ok ==> forall i :: 0 <= i < es.Length ==>
        HasRing(rules, old(es[i]), needed[i], chain, hf) && es[i] == After(rules, old(es[i]), needed[i], chain, top, hf)
    ensures !ok ==> es[..] == old(es[..])
  {
    ghost var was := es[..];
    var rings := BatchGetRingMemberInfo(rules, es[..], needed, chain, hf);
    if rings.None? {
      ghost var i :| 0 <= i < |was| && !HasRing(rules, was[i], needed[i], chain, hf);
      assert !Passes(rules, was[i].tx, needed[i], chain, time, hf);
      return false;
    }
    ok := CheckWanted(rules, es[..], needed, rings.value, chain, time, hf);
    if ok { StoreVerdicts(rules, es, needed, rings.value, chain, top, hf); }
  }

  // ----- Full verification -----

  /** The locks of the ring `tx` was checked with at `m`. */
  function LocksAt(rules: Rules, tx: Tx, m: Moment): seq<Timelock>
    requires Contextual(rules, tx, m.chain, m.time, m.hf)
  {
    rules.ring(m.chain, tx, m.hf).value.locks
  }

  /** The stored lock, the least time-based one, is open: all that is re-tested of a standing verdict. */
  predicate LeastOpen(locks: seq<Timelock>, height: nat, time: nat, hf: HardFork) {
    var t := LeastTime(locks);
    t.Some? ==> Unlocked(Time(t.value), height, time, hf)
  }

  /** No later than both the stored lock and the block time, if time-based at all. */
  predicate Covered(lock: Timelock, locks: seq<Timelock>, hf: HardFork) {
    var t := LeastTime(locks);
    lock.Time? && t.Some? ==> lock.time <= if t.value < BlockTime(hf) then BlockTime(hf) else t.value
  }

  predicate AllCovered(locks: seq<Timelock>, hf: HardFork) {
    forall i :: 0 <= i < |locks| ==> Covered(locks[i], locks, hf)
  }

  /** Every lock of the ring that the stored one speaks for is open, block heights included. */
  predicate CoveredOpen(locks: seq<Timelock>, height: nat, time: nat, hf: HardFork) {
    forall i :: 0 <= i < |locks| && Covered(locks[i], locks, hf) ==> Unlocked(locks[i], height, time, hf)
  }

  /** What was open on a chain and passes the re-test on a longer one: every covered lock is open there. */
  lemma RetestOpens(locks: seq<Timelock>, before: nat, clock: nat, height: nat, time: nat, hf: HardFork)
    requires AllUnlocked(locks, before, clock, hf) && before <= height && LeastOpen(locks, height, time, hf)
    ensures CoveredOpen(locks, height, time, hf)
  {}

  /**
    The re-test decides the whole ring, on every chain that extends the one it was checked on and at
    every clock, exactly when every lock of the ring is covered.
  */
  lemma RetestCoversRing(rules: Rules, tx: Tx, m: Moment)
    requires Contextual(rules, tx, m.chain, m.time, m.hf)
    ensures (forall height: nat, time: nat ::
               |m.chain| <= height && LeastOpen(LocksAt(rules, tx, m), height, time, m.hf) ==>
                 AllUnlocked(LocksAt(rules, tx, m), height, time, m.hf))
            <==> AllCovered(LocksAt(rules, tx, m), m.hf)
  {
    var locks := LocksAt(rules, tx, m);
    if AllCovered(locks, m.hf) {
      forall height: nat, time: nat | |m.chain| <= height && LeastOpen(locks, height, time, m.hf)
        ensures AllUnlocked(locks, height, time, m.hf)
      {
        RetestOpens(locks, |m.chain|, m.time, height, time, m.hf);
      }
    } else {
      var least := LeastTime(locks).value;
      var first: nat := if least < BlockTime(m.hf) then 0 else least - BlockTime(m.hf);
      assert LeastOpen(locks, |m.chain|, first, m.hf);
      assert !AllUnlocked(locks, |m.chain|, first, m.hf);
    }
  }

  /** For the verdict reached at `m`, as long as it stands, being locked again is failing this re-test. */
  lemma RelockedMeansNotLeastOpen(rules: Rules, tx: Tx, m: Moment, chain: seq<Hash>, time: nat)
    requires Contextual(rules, tx, m.chain, m.time, m.hf) && |m.chain| > 0
    ensures var e := Entry(tx, VerdictFor(rules.ring(m.chain, tx, m.hf).value, m.chain[|m.chain| - 1], m.hf));
            Stands(e, chain, m.hf) ==>
              (Relocked(e, chain, time, m.hf) <==> !LeastOpen(LocksAt(rules, tx, m), |chain|, time, m.hf))
  {}

  /** The contextual checks were passed now, or on a chain that the current one still extends. */
  ghost predicate CoveredBy(rules: Rules, tx: Tx, m: Moment, chain: seq<Hash>, time: nat, hf: HardFork) {
    && m.hf == hf && m.chain <= chain
    && Contextual(rules, tx, m.chain, m.time, hf)
    && LeastOpen(LocksAt(rules, tx, m), |chain|, time, hf)
    && CoveredOpen(LocksAt(rules, tx, m), |chain|, time, hf)
  }

  /** With every lock covered, the whole ring that was checked is open now. */
  lemma CoveredRingIsOpen(rules: Rules, tx: Tx, m: Moment, chain: seq<Hash>, time: nat, hf: HardFork)
    requires CoveredBy(rules, tx, m, chain, time, hf) && AllCovered(LocksAt(rules, tx, m), hf)
    ensures AllUnlocked(LocksAt(rules, tx, m), |chain|, time, hf)
  {}

  /** What a transaction returned by full verification is owed. */
  ghost predicate Sound(rules: Rules, tx: Tx, chain: seq<Hash>, time: nat, hf: HardFork, history: seq<Moment>) {
    && rules.semantic(tx, hf)
    && (tx.version == RingSignatures && hf != 1 ==> rules.decoys(chain, tx, hf))
    && exists k :: 0 <= k < |history| && CoveredBy(rules, tx, history[k], chain, time, hf)
  }

  lemma StandingIsSound(rules: Rules, e: Entry, chain: seq<Hash>, time: nat, hf: HardFork, history: seq<Moment>)
    requires IsChain(rules, chain) && AllChains(rules, history) && Justified(rules, e, history)
    requires Stands(e, chain, hf) && !Relocked(e, chain, time, hf)
    requires e.tx.version == RingSignatures && hf != 1 ==> rules.decoys(chain, e.tx, hf)
    ensures Sound(rules, e.tx, chain, time, hf, history)
  {
    var block := e.state.block;
    var lock := if e.state.ValidAtHashAndHF? then None else Some(e.state.lock.time);
    var k :| 0 <= k < |history| && IsTop(block, history[k].chain) && history[k].hf == hf
        && PassedAt(rules, e.tx, history[k], lock);
    var past := history[k].chain;
    var i :| 0 <= i < |chain| && chain[i] == block;
    SameBlockSamePast(rules, chain, past, i, |past| - 1);
    assert past == past[..|past|] == chain[..i + 1] <= chain;
    RetestOpens(LocksAt(rules, e.tx, history[k]), |past|, history[k].time, |chain|, time, hf);
    assert CoveredBy(rules, e.tx, history[k], chain, time, hf);
  }

  lemma CheckedIsSound(rules: Rules, e: Entry, chain: seq<Hash>, time: nat, hf: HardFork, history: seq<Moment>)
    requires IsChain(rules, chain) && rules.semantic(e.tx, hf) && Contextual(rules, e.tx, chain, time, hf)
    ensures var verdict := VerdictFor(rules.ring(chain, e.tx, hf).value, chain[|chain| - 1], hf);
            Justified(rules, Entry(e.tx, verdict), history + [Moment(chain, time, hf)])
    ensures Sound(rules, e.tx, chain, time, hf, history + [Moment(chain, time, hf)])
  {
    var m := Moment(chain, time, hf);
    var locks := rules.ring(chain, e.tx, hf).value.locks;
    assert (history + [m])[|history|] == m;
    assert PassedAt(rules, e.tx, m, LeastTime(locks));
    assert CoveredBy(rules, e.tx, m, chain, time, hf);
  }

  lemma SoundLater(rules: Rules, tx: Tx, chain: seq<Hash>, time: nat, hf: HardFork, history: seq<Moment>, m: Moment)
    requires Sound(rules, tx, chain, time, hf, history)
    ensures Sound(rules, tx, chain, time, hf, history + [m])
  {
    var k :| 0 <= k < |history| && CoveredBy(rules, tx, history[k], chain, time, hf);
    assert (history + [m])[k] == history[k];
  }

  function InputsOf(es: seq<Entry>): Spending {
    seq(|es|, i requires 0 <= i < |es| => es[i].tx.inputs)
  }

  /** Exactly what full verification asks of one entry, given what its cached state already covers. */
  predicate Acceptable(rules: Rules, e: Entry, chain: seq<Hash>, time: nat, hf: HardFork) {
    if Stands(e, chain, hf) then
      && !Relocked(e, chain, time, hf)
      && (e.tx.version == RingSignatures && hf != 1 ==> rules.decoys(chain, e.tx, hf))
    else
      && (ClaimedFork(e.state) != Some(hf) ==> rules.semantic(e.tx, hf))
      && Contextual(rules, e.tx, chain, time, hf)
  }

  /** The entry carries a verdict that stands here and now. */
  predicate Settled(e: Entry, chain: seq<Hash>, time: nat, hf: HardFork) {
    Stands(e, chain, hf) && !Relocked(e, chain, time, hf)
  }

  /** Verifying a settled entry again on the same chain, clock and fork wants nothing but version 1 decoys. */
  lemma SettledWantsNothing(rules: Rules, e: Entry, need: Need, chain: seq<Hash>, time: nat, hf: HardFork)
    requires Settled(e, chain, time, hf) && Fits(need, e, chain, hf)
    ensures !Wanted(need) && Passes(rules, e.tx, need, chain, time, hf)
    ensures need == V1DecoyCheck <==> e.tx.version == RingSignatures
    ensures HasRing(rules, e, need, chain, hf) && After(rules, e, need, chain, chain[|chain| - 1], hf) == e
    ensures Acceptable(rules, e, chain, time, hf) <==>
            (e.tx.version == RingSignatures && hf != 1 ==> rules.decoys(chain, e.tx, hf))
  {}

  lemma VerdictIsSettled(rules: Rules, tx: Tx, chain: seq<Hash>, time: nat, hf: HardFork)
    requires |chain| > 0 && Contextual(rules, tx, chain, time, hf)
    ensures var verdict := VerdictFor(rules.ring(chain, tx, hf).value, chain[|chain| - 1], hf);
            Settled(Entry(tx, verdict), chain, time, hf)
  {
    var locks := rules.ring(chain, tx, hf).value.locks;
    var t := LeastTime(locks);
    if t.Some? {
      var i :| 0 <= i < |locks| && locks[i] == Time(t.value);
      assert Unlocked(locks[i], |chain|, time, hf);
    }
  }

  /** One entry through full verification: its verdict stays justified and it is owed everything. */
  lemma EntryVerified(rules: Rules, e: Entry, need: Need, chain: seq<Hash>, time: nat, hf: HardFork,
                      history: seq<Moment>)
    requires IsChain(rules, chain) && AllChains(rules, history) && Justified(rules, e, history)
    requires Fits(need, e, chain, hf) && Acceptable(rules, e, chain, time, hf)
    ensures HasRing(rules, e, need, chain, hf)
    ensures Justified(rules, After(rules, e, need, chain, chain[|chain| - 1], hf), history + [Moment(chain, time, hf)])
    ensures Sound(rules, e.tx, chain, time, hf, history + [Moment(chain, time, hf)])
    ensures Settled(After(rules, e, need, chain, chain[|chain| - 1], hf), chain, time, hf)
  {
    var m := Moment(chain, time, hf);
    if Wanted(need) {
      VerdictIsSettled(rules, e.tx, chain, time, hf);
      CheckedIsSound(rules, e, chain, time, hf, history);
    } else {
      StandingIsSound(rules, e, chain, time, hf, history);
      SoundLater(rules, e.tx, chain, time, hf, history, m);
      JustifiedLater(rules, e, history, m);
    }
  }

  /** The three stages after the key images, together. */
  lemma StagesTogether(rules: Rules, e: Entry, need: Need, chain: seq<Hash>, time: nat, hf: HardFork)
    requires Fits(need, e, chain, hf)
    ensures Acceptable(rules, e, chain, time, hf) <==>
            && !Relocked(e, chain, time, hf)
            && (hf == 1 || (need == V1DecoyCheck ==> rules.decoys(chain, e.tx, hf)))
            && Passes(rules, e.tx, need, chain, time, hf)
  {}

  /**
    Full verification of a list of entries on top of `chain`. `imagesChecked` is the flag of the batch
    cache; `history` are the moments at which earlier verdicts were reached.
  */
  method FullVerify(rules: Rules, es: array<Entry>, chain: seq<Hash>, time: nat, hf: HardFork, spent: set<KeyImage>,
        imagesChecked: bool, ghost history: seq<Moment>)
    returns (ok: bool)
    requires IsChain(rules, chain) && AllChains(rules, history) && AllJustified(rules, es[..], history)
    modifies es
    ensures ok <==>
            && (imagesChecked || (NoDoubleSpend(InputsOf(old(es[..]))) && SpendsNoneOf(InputsOf(old(es[..])), spent)))
            && forall i :: 0 <= i < es.Length ==> Acceptable(rules, old(es[i]), chain, time, hf)
    ensures ok ==> AllJustified(rules, es[..], history + [Moment(chain, time, hf)])
    ensures ok ==> forall i :: 0 <= i < es.Length ==>
        es[i].tx == old(es[i]).tx && Sound(rules, es[i].tx, chain, time, hf, history + [Moment(chain, time, hf)])
    ensures ok ==> forall i :: 0 <= i < es.Length ==> Settled(es[i], chain, time, hf)
    ensures !ok ==> es[..] == old(es[..])
  {
    ghost var was := es[..];
    if !imagesChecked {
      var unique := CheckKisUnique(InputsOf(es[..]), spent);
      if !unique { return false; }
    }
    var known := HashesReferencedInMainChain(es[..], chain);
    var needed, anyV1 := VerificationNeeded(es[..], known, hf, chain, |chain|, time);
    if needed.None? { return false; }
    forall i | 0 <= i < |was| { StagesTogether(rules, was[i], needed.value[i], chain, time, hf); }
    if anyV1 {
      var decoys := VerifyDecoyInfo(rules, es[..], needed.value, chain, hf);
      if !decoys { return false; }
    }
    ok := VerifyTransactions(rules, es, needed.value, chain, chain[|chain| - 1], time, hf);
    if ok {
      forall i | 0 <= i < |was| { EntryVerified(rules, was[i], needed.value[i], chain, time, hf, history); }
    }
  }

  // ----- A ring with an uncovered lock -----

  const LOCKS: seq<Timelock> := [Time(1000), Time(2000)]

  /** Rules under which everything passes but the locks, which are those of `LOCKS`. */
  function LenientRules(): Rules {
    Rules((_, _) => true, (_, _, _) => Some(Ring([], LOCKS)), (_, _, _, _) => true, (_, _, _) => true, 0, h => h)
  }

  /**
    The clock may go back. A ring with locks 1000 and 2000, verified at clock 1900 under fork 9, gets a
    verdict with lock 1000; at clock 1500, on the same chain, the entry is accepted again although its
    contextual checks would fail.
  */
  lemma UncoveredLockAccepted(tx: Tx)
    ensures var rules, chain := LenientRules(), [0];
            var e := Entry(tx, VerdictFor(Ring([], LOCKS), 0, 9));
            && Contextual(rules, tx, chain, 1900, 9) && Justified(rules, e, [Moment(chain, 1900, 9)])
            && Stands(e, chain, 9) && !AllCovered(LOCKS, 9)
            && Acceptable(rules, e, chain, 1500, 9)
            && !Contextual(rules, tx, chain, 1500, 9)
  {
    LeastOfLocks();
    CheckedIsSound(LenientRules(), Entry(tx, NotVerified), [0], 1900, 9, []);
    assert [] + [Moment([0], 1900, 9)] == [Moment([0], 1900, 9)];
    assert !Unlocked(LOCKS[1], 1, 1500, 9);
  }

  lemma LeastOfLocks()
    ensures LeastTime(LOCKS) == Some(1000)
  {
    var t := LeastTime(LOCKS);
    assert LOCKS[0] == Time(1000) && LOCKS[1] == Time(2000);
    assert t.Some? && Time(t.value) in LOCKS;
  }
}
