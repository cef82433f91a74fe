/**
  Transaction verification with cached verdicts (`consensus/src/transactions.rs`).

  The checks of the consensus rules and the data the database gives for a transaction's ring are
  parameters (`Rules`). A chain is the list of its block hashes, from genesis; a hash stands for the
  block and so for everything the database holds when that block is on top.
*/
module Transactions {
  import opened Wrappers
  import opened HardForks
  import opened KeyImages

  type Hash = nat

  datatype TxVersion = RingSignatures | RingCT

  datatype Tx = Tx(hash: Hash, version: TxVersion, inputs: seq<Input>)

  datatype Timelock = Unbounded | Block(height: nat) | Time(time: nat)

  /** The data about a transaction's ring members; `locks` are the time locks of locked ones. */
  datatype Ring = Ring(members: seq<nat>, locks: seq<Timelock>)

  datatype Rules = Rules(
    semantic: (Tx, HardFork) -> bool,
    ring: (seq<Hash>, Tx, HardFork) -> Option<Ring>,
    inputs: (Tx, Ring, nat, HardFork) -> bool,
    decoys: (seq<Hash>, Tx, HardFork) -> bool,
    genesis: Hash,
    parent: Hash -> Hash)

  // ----- The checks -----

  predicate Unlocked(lock: Timelock, height: nat, time: nat, hf: HardFork) {
    match lock
    case Unbounded => true
    case Block(h) => h <= height
    case Time(t) => time + BlockTime(hf) >= t
  }

  /** A block lock opens at its height, a time lock one block time early, and open locks stay open. */
  lemma LockOpens(lock: Timelock, height: nat, time: nat, hf: HardFork)
    ensures var ahead := time + if hf == 1 then 60 else 120;
            && Unlocked(Block(height), height, time, hf) && !Unlocked(Block(height + 1), height, time, hf)
            && Unlocked(Time(ahead), height, time, hf) && !Unlocked(Time(ahead + 1), height, time, hf)
    ensures Unlocked(lock, height, time, hf) ==> Unlocked(lock, height + 1, time + 1, hf)
  {}

  predicate AllUnlocked(locks: seq<Timelock>, height: nat, time: nat, hf: HardFork) {
    forall i :: 0 <= i < |locks| ==> Unlocked(locks[i], height, time, hf)
  }

  /** `check_transaction_contextual` on ring data taken from `chain`; decoys are not checked at fork 1. */
  predicate ContextualWith(rules: Rules, tx: Tx, ring: Ring, chain: seq<Hash>, time: nat, hf: HardFork) {
    && rules.inputs(tx, ring, |chain|, hf)
    && (hf == 1 || rules.decoys(chain, tx, hf))
    && AllUnlocked(ring.locks, |chain|, time, hf)
  }

  predicate Contextual(rules: Rules, tx: Tx, chain: seq<Hash>, time: nat, hf: HardFork) {
    var ring := rules.ring(chain, tx, hf);
    ring.Some? && ContextualWith(rules, tx, ring.value, chain, time, hf)
  }

  // ----- Cached verdicts -----

  datatype Cached =
    | NotVerified
    | OnlySemantic(hf: HardFork)
    | ValidAtHashAndHF(block: Hash, hf: HardFork)
    | ValidAtHashAndHFWithTimeBasedLock(block: Hash, hf: HardFork, lock: Timelock)

  datatype Entry = Entry(tx: Tx, state: Cached)

  /** The fork the state claims semantic validity for. */
  function ClaimedFork(s: Cached): Option<HardFork> {
    if s.NotVerified? then None else Some(s.hf)
  }

  /** `verified_at_block_hash`: the block the state claims contextual validity at. */
  function ClaimedBlock(s: Cached): Option<Hash> {
    if s.ValidAtHashAndHF? || s.ValidAtHashAndHFWithTimeBasedLock? then Some(s.block) else None
  }

  predicate IsLeastTime(t: nat, locks: seq<Timelock>) {
    && Time(t) in locks
    && forall i :: 0 <= i < |locks| && locks[i].Time? ==> t <= locks[i].time
  }

  predicate NoTime(locks: seq<Timelock>) {
    forall i :: 0 <= i < |locks| ==> !locks[i].Time?
  }

  function LeastTime(locks: seq<Timelock>): (t: Option<nat>)
    ensures if t.None? then NoTime(locks) else IsLeastTime(t.value, locks)
  {
    if locks == [] then None
    else
      var last := locks[|locks| - 1];
      var t := LeastTime(locks[..|locks| - 1]);
      if last.Time? && (t.None? || last.time < t.value) then Some(last.time) else t
  }

  /** Full verification ran on top of `chain`, at clock `time`, under fork `hf`. */
  datatype Moment = Moment(chain: seq<Hash>, time: nat, hf: HardFork)

  /** `tx` passed the contextual checks at `m`, and `lock` is what a re-test would need from its ring. */
  predicate PassedAt(rules: Rules, tx: Tx, m: Moment, lock: Option<nat>) {
    && Contextual(rules, tx, m.chain, m.time, m.hf)
    && LeastTime(rules.ring(m.chain, tx, m.hf).value.locks) == lock
  }

  predicate IsTop(block: Hash, chain: seq<Hash>) {
    |chain| > 0 && chain[|chain| - 1] == block
  }

  ghost predicate PassedUnder(rules: Rules, tx: Tx, block: Hash, hf: HardFork, lock: Option<nat>,
                              history: seq<Moment>)
  {
    exists k :: 0 <= k < |history| && IsTop(block, history[k].chain) && history[k].hf == hf
        && PassedAt(rules, tx, history[k], lock)
  }

  /** A cached state claims no more than was checked at the moments in `history`. */
  ghost predicate Justified(rules: Rules, e: Entry, history: seq<Moment>) {
    && (ClaimedFork(e.state).Some? ==> rules.semantic(e.tx, ClaimedFork(e.state).value))
    && match e.state
       case NotVerified | OnlySemantic(_) => true
       case ValidAtHashAndHF(block, hf) => PassedUnder(rules, e.tx, block, hf, None, history)
       case ValidAtHashAndHFWithTimeBasedLock(block, hf, lock) =>
         lock.Time? && PassedUnder(rules, e.tx, block, hf, Some(lock.time), history)
  }

  ghost predicate AllJustified(rules: Rules, es: seq<Entry>, history: seq<Moment>) {
    forall i :: 0 <= i < |es| ==> Justified(rules, es[i], history)
  }

  lemma JustifiedLater(rules: Rules, e: Entry, history: seq<Moment>, m: Moment)
    requires Justified(rules, e, history)
    ensures Justified(rules, e, history + [m])
  {
    var block := ClaimedBlock(e.state);
    if block.Some? {
      var lock := if e.state.ValidAtHashAndHF? then None else Some(e.state.lock.time);
      var k :| 0 <= k < |history| && IsTop(block.value, history[k].chain) && history[k].hf == e.state.hf
          && PassedAt(rules, e.tx, history[k], lock);
      assert (history + [m])[k] == history[k];
    }
  }

  // ----- Chains of blocks -----

  /** Every block but genesis names its parent, so a block fixes the chain below it. */
  predicate IsChain(rules: Rules, c: seq<Hash>) {
    && |c| > 0 && c[0] == rules.genesis
    && forall i :: 0 < i < |c| ==> c[i] != rules.genesis && rules.parent(c[i]) == c[i - 1]
  }

  lemma {:induction false} SameBlockSamePast(rules: Rules, c: seq<Hash>, d: seq<Hash>, i: nat, j: nat)
    requires IsChain(rules, c) && IsChain(rules, d) && i < |c| && j < |d| && c[i] == d[j]
    ensures i == j && c[..i + 1] == d[..j + 1]
  {
    if i == 0 || j == 0 {
    } else {
      SameBlockSamePast(rules, c, d, i - 1, j - 1);
    }
  }

  ghost predicate AllChains(rules: Rules, history: seq<Moment>) {
    forall k :: 0 <= k < |history| ==> IsChain(rules, history[k].chain)
  }

  // ----- What is needed -----

  datatype Need = V1DecoyCheck | SemanticAndContextual | ContextualOnly | NothingNeeded

  predicate Wanted(n: Need) {
    n == ContextualOnly || n == SemanticAndContextual
  }

  /** The cached state still stands: right fork, and its block is in the main chain. */
  predicate Stands(e: Entry, chain: seq<Hash>, hf: HardFork) {
    ClaimedFork(e.state) == Some(hf) && ClaimedBlock(e.state).Some? && ClaimedBlock(e.state).value in chain
  }

  /** What `n` skips is covered by the cached state, and nothing covered is done again. */
  predicate Fits(n: Need, e: Entry, chain: seq<Hash>, hf: HardFork) {
    && (n == SemanticAndContextual <==> ClaimedFork(e.state) != Some(hf))
    && (Wanted(n) <==> !Stands(e, chain, hf))
    && (n == V1DecoyCheck ==> e.tx.version == RingSignatures)
    && (n == NothingNeeded ==> e.tx.version != RingSignatures)
  }

  /** The one stored lock is locked again. */
  predicate Relocked(e: Entry, chain: seq<Hash>, time: nat, hf: HardFork) {
    && Stands(e, chain, hf) && e.state.ValidAtHashAndHFWithTimeBasedLock?
    && !Unlocked(e.state.lock, |chain|, time, hf)
  }

  ghost predicate KnowsReferenced(known: set<Hash>, es: seq<Entry>, chain: seq<Hash>) {
    forall i :: 0 <= i < |es| && ClaimedBlock(es[i].state).Some? ==>
      (ClaimedBlock(es[i].state).value in known <==> ClaimedBlock(es[i].state).value in chain)
  }

  /** The database's answer to which of these hashes are in the main chain. */
  function FilterUnknownHashes(hashes: set<Hash>, chain: seq<Hash>): set<Hash> {
    set h | h in hashes && h in chain
  }

  method HashesReferencedInMainChain(es: seq<Entry>, chain: seq<Hash>) returns (known: set<Hash>)
    ensures KnowsReferenced(known, es, chain)
  {
    var hashes: set<Hash> := {};
    for i := 0 to |es|
      invariant forall j :: 0 <= j < i && ClaimedBlock(es[j].state).Some? ==> ClaimedBlock(es[j].state).value in hashes
    {
      var block := ClaimedBlock(es[i].state);
      if block.Some? { hashes := hashes + {block.value}; }
    }
    known := if hashes == {} then hashes else FilterUnknownHashes(hashes, chain);
  }

  method VerificationNeeded(es: seq<Entry>, known: set<Hash>, hf: HardFork, ghost chain: seq<Hash>, height: nat,
                            time: nat)
    returns (needed: Option<seq<Need>>, anyV1: bool)
    requires KnowsReferenced(known, es, chain) && height == |chain|
    ensures needed.Some? <==> forall i :: 0 <= i < |es| ==> !Relocked(es[i], chain, time, hf)
    ensures needed.Some? ==>
              |needed.value| == |es| && forall i :: 0 <= i < |es| ==> Fits(needed.value[i], es[i], chain, hf)
    ensures needed.Some? ==> (anyV1 <==> V1DecoyCheck in needed.value)
  {
    var list: seq<Need> := [];
    anyV1 := false;
    for i := 0 to |es|
      invariant |list| == i
      invariant forall j :: 0 <= j < i ==> !Relocked(es[j], chain, time, hf) && Fits(list[j], es[j], chain, hf)
      invariant anyV1 <==> V1DecoyCheck in list
    {
      var e := es[i];
      match e.state {
        case NotVerified =>
          list := list + [SemanticAndContextual];
          continue;
        case OnlySemantic(at) =>
          list := list + [if hf != at then SemanticAndContextual else ContextualOnly];
          continue;
        case ValidAtHashAndHF(block, at) =>
          if hf != at || block !in known {
            list := list + [if hf != at then SemanticAndContextual else ContextualOnly];
            continue;
          }
        case ValidAtHashAndHFWithTimeBasedLock(block, at, lock) =>
          if hf != at || block !in known {
            list := list + [if hf != at then SemanticAndContextual else ContextualOnly];
            continue;
          }
          if !Unlocked(lock, height, time, at) {
            assert Relocked(es[i], chain, time, hf);
            return None, anyV1;
          }
      }
      if e.tx.version == RingSignatures {
        list := list + [V1DecoyCheck];
        anyV1 := true;
      } else {
        list := list + [NothingNeeded];
      }
    }
    needed := Some(list);
  }
}
