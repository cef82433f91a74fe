/**
  A node that verifies transactions, admits blocks and reorganises (`consensus/src/block.rs`,
  `consensus/src/block/batch_prepare.rs`), over every run of those events.
*/
module BlockAdmission {
  import opened Wrappers
  import opened HardForks
  import opened KeyImages
  import opened Transactions
  import opened TransactionVerifier

  /** A block of the main chain, with the clock and fork its transactions were verified at. */
  datatype StoredBlock = StoredBlock(hash: Hash, txs: seq<Tx>, time: nat, hf: HardFork)

  function SpendingOf(txs: seq<Tx>): Spending {
    seq(|txs|, i requires 0 <= i < |txs| => txs[i].inputs)
  }

  /** All transactions of a chain, in order. */
  function Ledger(blocks: seq<StoredBlock>): Spending {
    if blocks == [] then [] else Ledger(blocks[..|blocks| - 1]) + SpendingOf(blocks[|blocks| - 1].txs)
  }

  lemma {:induction false} LedgerSplit(blocks: seq<StoredBlock>, n: nat)
    requires n <= |blocks|
    ensures Ledger(blocks) == Ledger(blocks[..n]) + Ledger(blocks[n..])
  {
    if n == |blocks| {
      assert blocks[..n] == blocks;
    } else {
      var front := blocks[..|blocks| - 1];
      LedgerSplit(front, n);
      LastKept(blocks, n);
    }
  }

  lemma LastKept(blocks: seq<StoredBlock>, n: nat)
    requires n < |blocks|
    ensures var front, rest := blocks[..|blocks| - 1], blocks[n..];
            && front[..n] == blocks[..n] && rest[..|rest| - 1] == front[n..]
            && rest[|rest| - 1] == blocks[|blocks| - 1]
  {}

  function Hashes(blocks: seq<StoredBlock>): seq<Hash> {
    seq(|blocks|, i requires 0 <= i < |blocks| => blocks[i].hash)
  }

  function Images(txs: Spending): set<KeyImage> {
    set i, j | 0 <= i < |txs| && 0 <= j < |txs[i]| && txs[i][j].ToKey? :: txs[i][j].image
  }

  lemma ImagesAreRecorded(txs: Spending)
    ensures Records(Images(txs), txs)
  {
    forall k
      ensures k in Images(txs) <==> SpentIn(txs, k)
    {
      if k in Images(txs) {
        var i, j :| 0 <= i < |txs| && 0 <= j < |txs[i]| && txs[i][j].ToKey? && txs[i][j].image == k;
        assert SpendsAt(txs, i, j, k);
      }
    }
  }

  /** Every transaction of the chain was owed everything when its block came in. */
  ghost predicate TransactionSound(rules: Rules, blocks: seq<StoredBlock>, i: nat, j: nat, history: seq<Moment>)
    requires i < |blocks| && j < |blocks[i].txs|
  {
    Sound(rules, blocks[i].txs[j], Hashes(blocks)[..i], blocks[i].time, blocks[i].hf, history)
  }

  ghost predicate BlocksSound(rules: Rules, blocks: seq<StoredBlock>, history: seq<Moment>) {
    forall i, j :: 0 < i < |blocks| && 0 <= j < |blocks[i].txs| ==> TransactionSound(rules, blocks, i, j, history)
  }

  lemma BlocksSoundLater(rules: Rules, blocks: seq<StoredBlock>, history: seq<Moment>, m: Moment)
    requires BlocksSound(rules, blocks, history)
    ensures BlocksSound(rules, blocks, history + [m])
  {
    forall i, j | 0 < i < |blocks| && 0 <= j < |blocks[i].txs|
      ensures TransactionSound(rules, blocks, i, j, history + [m])
    {
      assert TransactionSound(rules, blocks, i, j, history);
      SoundLater(rules, blocks[i].txs[j], Hashes(blocks)[..i], blocks[i].time, blocks[i].hf, history, m);
    }
  }

  lemma BlocksSoundPrefix(rules: Rules, blocks: seq<StoredBlock>, n: nat, history: seq<Moment>)
    requires BlocksSound(rules, blocks, history) && n <= |blocks|
    ensures BlocksSound(rules, blocks[..n], history)
  {
    forall i, j | 0 < i < n && 0 <= j < |blocks[i].txs|
      ensures TransactionSound(rules, blocks[..n], i, j, history)
    {
      assert TransactionSound(rules, blocks, i, j, history);
      assert Hashes(blocks[..n])[..i] == Hashes(blocks)[..i];
    }
  }

  lemma BlocksSoundAppend(rules: Rules, blocks: seq<StoredBlock>, b: StoredBlock, history: seq<Moment>)
    requires BlocksSound(rules, blocks, history)
    requires forall j :: 0 <= j < |b.txs| ==> Sound(rules, b.txs[j], Hashes(blocks), b.time, b.hf, history)
    ensures BlocksSound(rules, blocks + [b], history)
  {
    var all := blocks + [b];
    forall i, j | 0 < i < |all| && 0 <= j < |all[i].txs|
      ensures TransactionSound(rules, all, i, j, history)
    {
      assert Hashes(all)[..i] == Hashes(blocks)[..i];
      if i < |blocks| {
        assert TransactionSound(rules, blocks, i, j, history);
      } else {
        assert Hashes(blocks)[..i] == Hashes(blocks);
      }
    }
  }

  /** No double spend anywhere in the chain, and the recorded images are exactly its own. */
  ghost predicate LedgerKept(blocks: seq<StoredBlock>, spent: set<KeyImage>) {
    NoDoubleSpend(Ledger(blocks)) && Records(spent, Ledger(blocks))
  }

  lemma LedgerAppend(blocks: seq<StoredBlock>, b: StoredBlock, spent: set<KeyImage>)
    requires LedgerKept(blocks, spent) && NoDoubleSpend(SpendingOf(b.txs)) && SpendsNoneOf(SpendingOf(b.txs), spent)
    ensures LedgerKept(blocks + [b], spent + Images(SpendingOf(b.txs)))
  {
    assert (blocks + [b])[..|blocks|] == blocks;
    ImagesAreRecorded(SpendingOf(b.txs));
    CheckedCanFollow(Ledger(blocks), spent, SpendingOf(b.txs), Images(SpendingOf(b.txs)));
  }

  lemma LedgerCut(blocks: seq<StoredBlock>, n: nat, spent: set<KeyImage>)
    requires LedgerKept(blocks, spent) && n <= |blocks|
    ensures LedgerKept(blocks[..n], spent - Images(Ledger(blocks[n..])))
  {
    LedgerSplit(blocks, n);
    ImagesAreRecorded(Ledger(blocks[n..]));
    CutBack(Ledger(blocks[..n]), Ledger(blocks[n..]), spent, Images(Ledger(blocks[n..])));
  }

  function TxsOf(es: seq<Entry>): seq<Tx> {
    seq(|es|, i requires 0 <= i < |es| => es[i].tx)
  }

  ghost predicate AllSound(
      rules: Rules, txs: seq<Tx>, chain: seq<Hash>, time: nat, hf: HardFork, history: seq<Moment>)
  {
    forall i :: 0 <= i < |txs| ==> Sound(rules, txs[i], chain, time, hf, history)
  }

  ghost predicate AllSettled(es: seq<Entry>, chain: seq<Hash>, time: nat, hf: HardFork) {
    forall i :: 0 <= i < |es| ==> Settled(es[i], chain, time, hf)
  }

  /** What full verification outside a batch asks of a list of records. */
  ghost predicate AllAcceptable(
      rules: Rules, es: seq<Entry>, chain: seq<Hash>, time: nat, hf: HardFork, spent: set<KeyImage>)
  {
    && NoDoubleSpend(InputsOf(es)) && SpendsNoneOf(InputsOf(es), spent)
    && forall i :: 0 <= i < |es| ==> Acceptable(rules, es[i], chain, time, hf)
  }

  /** The records at the given places, in order; places that do not exist are skipped. */
  function Picked(pool: seq<Entry>, ix: seq<nat>): (es: seq<Entry>)
    ensures forall e :: e in es ==> e in pool
  {
    if ix == [] then []
    else Picked(pool, ix[..|ix| - 1]) + if ix[|ix| - 1] < |pool| then [pool[ix[|ix| - 1]]] else []
  }

  function WithState(txs: seq<Tx>, state: Cached): seq<Entry> {
    seq(|txs|, i requires 0 <= i < |txs| => Entry(txs[i], state))
  }

  /**
    A block to admit: its hash, height, own fork version and the transaction hashes it lists; the clock
    and fork of the context it is verified in; and whether its proof of work and its other checks pass.
  */
  datatype Candidate = Candidate(
    hash: Hash, height: nat, version: HardFork, txHashes: seq<Hash>,
    time: nat, hf: HardFork, powOk: bool, blockOk: bool)

  /** Goes on top of a chain of the given height with the given top. */
  predicate OnTop(rules: Rules, c: Candidate, height: nat, top: Hash) {
    c.height == height && rules.parent(c.hash) == top
  }

  /** The transactions are those the block lists, in its order. */
  predicate Listed(hashes: seq<Hash>, txs: seq<Tx>) {
    |hashes| == |txs| && forall i :: 0 <= i < |txs| ==> hashes[i] == txs[i].hash
  }

  method MatchesBlock(hashes: seq<Hash>, es: seq<Entry>) returns (ok: bool)
    ensures ok <==> Listed(hashes, TxsOf(es))
  {
    if |hashes| != |es| { return false; }
    for i := 0 to |es|
      invariant forall j :: 0 <= j < i ==> hashes[j] == es[j].tx.hash
    {
      if hashes[i] != es[i].tx.hash {
        assert hashes[i] != TxsOf(es)[i].hash;
        return false;
      }
    }
    ok := true;
  }

  lemma SameSpending(es: seq<Entry>)
    ensures SpendingOf(TxsOf(es)) == InputsOf(es)
  {}

  type Batch = seq<(Candidate, seq<Tx>)>

  function Stored(batch: Batch): seq<StoredBlock> {
    seq(|batch|, i requires 0 <= i < |batch| =>
      StoredBlock(batch[i].0.hash, batch[i].1, batch[i].0.time, batch[i].0.hf))
  }

  lemma StoredStep(batch: Batch, i: nat)
    requires i < |batch|
    ensures var (c, txs) := batch[i];
            Stored(batch[..i + 1]) == Stored(batch[..i]) + [StoredBlock(c.hash, txs, c.time, c.hf)]
  {}

  function BatchSpending(batch: Batch): Spending {
    if batch == [] then [] else SpendingOf(batch[0].1) + BatchSpending(batch[1..])
  }

  /** Everything admission asks of a block and its records on top of `blocks`, key images aside. */
  predicate Admissible(rules: Rules, c: Candidate, es: seq<Entry>, blocks: seq<StoredBlock>)
    requires blocks != []
  {
    && Listed(c.txHashes, TxsOf(es))
    && (forall i :: 0 <= i < |es| ==> Acceptable(rules, es[i], Hashes(blocks), c.time, c.hf))
    && c.powOk && c.blockOk && c.hash != rules.genesis
    && OnTop(rules, c, |blocks|, blocks[|blocks| - 1].hash)
  }

  /** The records a prepared batch has for block `i`. */
  function RecordsOf(batch: Batch, i: nat): seq<Entry>
    requires i < |batch|
  {
    WithState(batch[i].1, OnlySemantic(batch[i].0.version))
  }

  /** Records made by semantic verification alone. */
  predicate Prepared(rules: Rules, es: seq<Entry>, c: Candidate, txs: seq<Tx>) {
    && es == WithState(txs, OnlySemantic(c.version))
    && forall i :: 0 <= i < |txs| ==> rules.semantic(txs[i], c.version)
  }

  /** The proof of work holds, and the transactions pass the semantic checks of the block's own version. */
  predicate Preparable(rules: Rules, c: Candidate, txs: seq<Tx>) {
    c.powOk && forall i :: 0 <= i < |txs| ==> rules.semantic(txs[i], c.version)
  }

  /** Block `i` goes on top of the one before it, which has no later version than the last. */
  predicate FollowsAt(rules: Rules, batch: Batch, i: nat)
    requires 0 < i < |batch|
  {
    && OnTop(rules, batch[i].0, batch[i - 1].0.height + 1, batch[i - 1].0.hash)
    && batch[i - 1].0.version <= batch[|batch| - 1].0.version
  }

  predicate Linked(rules: Rules, batch: Batch) {
    forall i :: 0 < i < |batch| ==> FollowsAt(rules, batch, i)
  }

  /** What preparation asks of a batch on top of `blocks`. */
  ghost predicate BatchPasses(rules: Rules, batch: Batch, blocks: seq<StoredBlock>, spent: set<KeyImage>)
    requires blocks != []
  {
    && batch != [] && Linked(rules, batch)
    && OnTop(rules, batch[0].0, |blocks|, blocks[|blocks| - 1].hash)
    && (forall i :: 0 <= i < |batch| ==> Preparable(rules, batch[i].0, batch[i].1))
    && NoDoubleSpend(BatchSpending(batch)) && SpendsNoneOf(BatchSpending(batch), spent)
  }

  /** Each of the first `n` blocks passed on the chain it was put on. */
  ghost predicate AdmittedInTurn(rules: Rules, batch: Batch, blocks: seq<StoredBlock>, n: nat)
    requires blocks != [] && n <= |batch|
  {
    forall i :: 0 <= i < n ==> Admissible(rules, batch[i].0, RecordsOf(batch, i), blocks + Stored(batch[..i]))
  }

  lemma InTurnStep(rules: Rules, batch: Batch, blocks: seq<StoredBlock>, n: nat)
    requires blocks != [] && n < |batch| && AdmittedInTurn(rules, batch, blocks, n)
    requires Admissible(rules, batch[n].0, RecordsOf(batch, n), blocks + Stored(batch[..n]))
    ensures AdmittedInTurn(rules, batch, blocks, n + 1)
  {}

  method FollowEachOther(rules: Rules, batch: Batch) returns (ok: bool)
    requires batch != []
    ensures ok <==> Linked(rules, batch)
  {
    var topVersion := batch[|batch| - 1].0.version;
    for i := 1 to |batch|
      invariant forall j :: 0 < j < i ==> FollowsAt(rules, batch, j)
    {
      var before, c := batch[i - 1].0, batch[i].0;
      if before.version > topVersion || c.height != before.height + 1 || rules.parent(c.hash) != before.hash {
        assert !FollowsAt(rules, batch, i);
        return false;
      }
    }
    ok := true;
  }

  method Prepare(rules: Rules, c: Candidate, txs: seq<Tx>) returns (es: Option<seq<Entry>>)
    ensures es.Some? <==> Preparable(rules, c, txs)
    ensures es.Some? ==> Prepared(rules, es.value, c, txs)
  {
    if !c.powOk { return None; }
    var a := new Entry[|txs|](i requires 0 <= i < |txs| => Entry(txs[i], NotVerified));
    assert forall i :: 0 <= i < |txs| ==> a[i].tx == txs[i];
    var ok := Queue(rules, a, c.version);
    if !ok { return None; }
    assert a[..] == WithState(txs, OnlySemantic(c.version));
    es := Some(a[..]);
  }

  datatype Event =
    | Submitted(tx: Tx)
    | SemanticWanted(ix: seq<nat>, hf: HardFork)
    | FullWanted(ix: seq<nat>, time: nat, hf: HardFork)
    | BlockArrived(c: Candidate, ix: seq<nat>)
    | BatchArrived(batch: Batch)
    | Reorganised(popped: nat)

  /** How many blocks of a prepared batch pass in turn, from number `n` on. */
  ghost function PassInTurn(rules: Rules, batch: Batch, blocks: seq<StoredBlock>, n: nat): (m: nat)
    requires blocks != [] && n <= |batch|
    ensures n <= m <= |batch|
    decreases |batch| - n
  {
    if n < |batch| && Admissible(rules, batch[n].0, RecordsOf(batch, n), blocks + Stored(batch[..n]))
    then PassInTurn(rules, batch, blocks, n + 1)
    else n
  }

  lemma {:induction false} AdmittedIsPass(rules: Rules, batch: Batch, blocks: seq<StoredBlock>, n: nat, m: nat)
    requires blocks != [] && n <= m <= |batch| && AdmittedInTurn(rules, batch, blocks, m)
    requires m < |batch| ==> !Admissible(rules, batch[m].0, RecordsOf(batch, m), blocks + Stored(batch[..m]))
    ensures PassInTurn(rules, batch, blocks, n) == m
    decreases m - n
  {
    if n < m {
      AdmittedIsPass(rules, batch, blocks, n + 1, m);
    }
  }

  /** The main chain after an event, given the images spent in it and the records handed out. */
  ghost function ChainAfter(
      rules: Rules, e: Event, blocks: seq<StoredBlock>, spent: set<KeyImage>, pool: seq<Entry>): seq<StoredBlock>
    requires blocks != []
  {
    match e
    case Submitted(_) | SemanticWanted(_, _) | FullWanted(_, _, _) => blocks
    case BlockArrived(c, ix) =>
      var es := Picked(pool, ix);
      if NoDoubleSpend(InputsOf(es)) && SpendsNoneOf(InputsOf(es), spent) && Admissible(rules, c, es, blocks)
      then blocks + [StoredBlock(c.hash, TxsOf(es), c.time, c.hf)]
      else blocks
    case BatchArrived(batch) =>
      if BatchPasses(rules, batch, blocks, spent)
      then blocks + Stored(batch[..PassInTurn(rules, batch, blocks, 0)])
      else blocks
    case Reorganised(n) => if n < |blocks| then blocks[..|blocks| - n] else blocks
  }

  class Node {
    const rules: Rules
    var blocks: seq<StoredBlock>
    var spent: set<KeyImage>
    /** Every verified-transaction record handed out so far. */
    var pool: seq<Entry>
    ghost var history: seq<Moment>

    ghost predicate Valid()
      reads this
    {
      && IsChain(rules, Hashes(blocks)) && AllChains(rules, history)
      && LedgerKept(blocks, spent)
      && BlocksSound(rules, blocks, history)
      && AllJustified(rules, pool, history)
    }

    constructor (rules: Rules)
      ensures Valid() && this.rules == rules && |blocks| == 1
    {
      this.rules := rules;
      blocks := [StoredBlock(rules.genesis, [], 0, 1)];
      spent := {};
      pool := [];
      history := [];
    }

    ghost method Remember(m: Moment)
      requires Valid() && IsChain(rules, m.chain)
      modifies this`history
      ensures Valid() && history == old(history) + [m]
    {
      BlocksSoundLater(rules, blocks, history, m);
      forall i | 0 <= i < |pool| { JustifiedLater(rules, pool[i], history, m); }
      history := history + [m];
    }

    method Keep(es: array<Entry>)
      requires Valid() && AllJustified(rules, es[..], history)
      modifies this`pool
      ensures Valid() && pool == old(pool) + es[..]
    {
      pool := pool + es[..];
    }

    /** A vector of records taken from the pool. */
    method Pick(ix: seq<nat>) returns (es: array<Entry>)
      requires Valid()
      ensures fresh(es) && es[..] == Picked(pool, ix) && AllJustified(rules, es[..], history)
    {
      var list := Picked(pool, ix);
      forall i | 0 <= i < |list|
        ensures Justified(rules, list[i], history)
      {
        assert list[i] in pool;
      }
      es := new Entry[|list|](i requires 0 <= i < |list| => list[i]);
      assert es[..] == list;
    }

    method Submit(tx: Tx)
      requires Valid()
      modifies this`pool
      ensures Valid() && pool == old(pool) + [Entry(tx, NotVerified)]
    {
      pool := pool + [Entry(tx, NotVerified)];
    }

    /** Semantic verification of records: all of them are handed out again, or none. */
    method SemanticCheck(ix: seq<nat>, hf: HardFork) returns (ok: bool)
      requires Valid()
      modifies this`pool
      ensures Valid()
      ensures ok <==> forall e :: e in Picked(old(pool), ix) ==> rules.semantic(e.tx, hf)
      ensures pool == old(pool) + if ok then WithState(TxsOf(Picked(old(pool), ix)), OnlySemantic(hf)) else []
    {
      var es := Pick(ix);
      ghost var picked := es[..];
      assert forall e :: e in picked ==> exists i :: 0 <= i < es.Length && es[i] == e;
      ok := Queue(rules, es, hf);
      if ok {
        Keep(es);
        assert es[..] == WithState(TxsOf(picked), OnlySemantic(hf));
      }
    }

    /** Full verification of records: all of them are handed out again with a verdict that stands, or none. */
    method FullCheck(ix: seq<nat>, time: nat, hf: HardFork) returns (ok: bool)
      requires Valid()
      modifies this`pool, this`history
      ensures Valid()
      ensures ok <==> AllAcceptable(rules, Picked(old(pool), ix), Hashes(blocks), time, hf, spent)
      ensures !ok ==> pool == old(pool)
      ensures ok ==>
                var txs := TxsOf(Picked(old(pool), ix));
                && old(pool) <= pool && TxsOf(pool[|old(pool)|..]) == txs
                && AllSound(rules, txs, Hashes(blocks), time, hf, history)
                && AllSettled(pool[|old(pool)|..], Hashes(blocks), time, hf)
    {
      var es := Pick(ix);
      ok := VerifyRecords(es, time, hf);
      if ok {
        Keep(es);
        assert pool[|old(pool)|..] == es[..];
      }
    }

    method VerifyRecords(es: array<Entry>, time: nat, hf: HardFork) returns (ok: bool)
      requires Valid() && AllJustified(rules, es[..], history)
      modifies es, this`history
      ensures Valid()
      ensures ok <==> AllAcceptable(rules, old(es[..]), Hashes(blocks), time, hf, spent)
      ensures ok ==> TxsOf(es[..]) == TxsOf(old(es[..])) && AllJustified(rules, es[..], history)
      ensures ok ==> AllSound(rules, TxsOf(es[..]), Hashes(blocks), time, hf, history)
      ensures ok ==> AllSettled(es[..], Hashes(blocks), time, hf)
    {
      var chain := Hashes(blocks);
      ghost var before := history;
      ok := FullVerify(rules, es, chain, time, hf, spent, false, before);
      if ok { Remember(Moment(chain, time, hf)); }
    }

    /** The new block goes on top and its images are recorded. */
    method Store(b: StoredBlock)
      requires Valid() && b.hash != rules.genesis && rules.parent(b.hash) == blocks[|blocks| - 1].hash
      requires NoDoubleSpend(SpendingOf(b.txs)) && SpendsNoneOf(SpendingOf(b.txs), spent)
      requires forall j :: 0 <= j < |b.txs| ==> Sound(rules, b.txs[j], Hashes(blocks), b.time, b.hf, history)
      modifies this`blocks, this`spent
      ensures Valid() && blocks == old(blocks) + [b] && spent == old(spent) + Images(SpendingOf(b.txs))
    {
      BlocksSoundAppend(rules, blocks, b, history);
      LedgerAppend(blocks, b, spent);
      ghost var was := Hashes(blocks);
      spent := spent + Images(SpendingOf(b.txs));
      blocks := blocks + [b];
      assert Hashes(blocks) == was + [b.hash];
    }

    /**
      `verify_prepped_main_chain_block`, then recording the block. `imagesChecked` is what the
      batch cache says: the key images of this block were checked with those of its batch.
    */
    method AdmitBlock(c: Candidate, es: array<Entry>, imagesChecked: bool) returns (ok: bool)
      requires Valid() && AllJustified(rules, es[..], history)
      requires imagesChecked ==> NoDoubleSpend(InputsOf(es[..])) && SpendsNoneOf(InputsOf(es[..]), spent)
      modifies this`blocks, this`spent, this`history, es
      ensures Valid()
      ensures ok <==>
              && (imagesChecked || NoDoubleSpend(InputsOf(old(es[..]))))
              && (imagesChecked || SpendsNoneOf(InputsOf(old(es[..])), old(spent)))
              && Admissible(rules, c, old(es[..]), old(blocks))
      ensures ok ==> blocks == old(blocks) + [StoredBlock(c.hash, TxsOf(old(es[..])), c.time, c.hf)]
      ensures ok ==> spent == old(spent) + Images(InputsOf(old(es[..])))
      ensures !ok ==> blocks == old(blocks) && spent == old(spent)
    {
      ghost var was := es[..];
      if !c.powOk { return false; }
      ok := MatchesBlock(c.txHashes, es[..]);
      if !ok { return; }
      if |c.txHashes| != 0 {
        var chain := Hashes(blocks);
        ok := FullVerify(rules, es, chain, c.time, c.hf, spent, imagesChecked, history);
        if !ok { return; }
        Remember(Moment(chain, c.time, c.hf));
      }
      assert TxsOf(es[..]) == TxsOf(was);
      SameSpending(was);
      // The checks on the block itself include its parent and its height.
      var top := blocks[|blocks| - 1].hash;
      ok := c.blockOk && c.hash != rules.genesis && c.height == |blocks| && rules.parent(c.hash) == top;
      if ok { Store(StoredBlock(c.hash, TxsOf(es[..]), c.time, c.hf)); }
    }

    /** Popping leaves genesis and frees the images of the popped blocks. */
    method PopBlocks(n: nat)
      requires Valid() && n < |blocks|
      modifies this`blocks, this`spent
      ensures Valid() && blocks == old(blocks)[..|old(blocks)| - n]
    {
      var left := |blocks| - n;
      BlocksSoundPrefix(rules, blocks, left, history);
      LedgerCut(blocks, left, spent);
      assert Hashes(blocks[..left]) == Hashes(blocks)[..left];
      spent := spent - Images(Ledger(blocks[left..]));
      blocks := blocks[..left];
    }

    /**
      `batch_prepare_main_chain_blocks`: the blocks follow each other and the chain, proof of work and
      semantic checks block by block, key images all at once.
    */
    method PrepareBatch(batch: Batch) returns (prepared: Option<seq<seq<Entry>>>)
      requires Valid()
      ensures prepared.Some? <==> BatchPasses(rules, batch, blocks, spent)
      ensures prepared.Some? ==> |prepared.value| == |batch|
      ensures prepared.Some? ==>
                forall i :: 0 <= i < |batch| ==> Prepared(rules, prepared.value[i], batch[i].0, batch[i].1)
    {
      if batch == [] { return None; }
      var linked := FollowEachOther(rules, batch);
      var first, top := batch[0].0, blocks[|blocks| - 1].hash;
      if !linked || first.height != |blocks| || rules.parent(first.hash) != top { return None; }
      var list: seq<seq<Entry>> := [];
      for i := 0 to |batch|
        invariant |list| == i
        invariant forall j :: 0 <= j < i ==> Preparable(rules, batch[j].0, batch[j].1)
        invariant forall j :: 0 <= j < i ==> Prepared(rules, list[j], batch[j].0, batch[j].1)
      {
        var es := Prepare(rules, batch[i].0, batch[i].1);
        if es.None? { return None; }
        list := list + [es.value];
      }
      var unique := CheckKisUnique(BatchSpending(batch), spent);
      prepared := if unique then Some(list) else None;
    }

    /** Admits a prepared batch block by block, up to the first block that does not pass. */
    method AdmitBatch(batch: Batch) returns (admitted: nat)
      requires Valid()
      modifies this`blocks, this`spent, this`history
      ensures Valid() && admitted <= |batch| && blocks == old(blocks) + Stored(batch[..admitted])
      ensures !old(BatchPasses(rules, batch, blocks, spent)) ==> admitted == 0
      ensures old(BatchPasses(rules, batch, blocks, spent)) && admitted < |batch| ==>
                !Admissible(rules, batch[admitted].0, RecordsOf(batch, admitted), blocks)
      ensures AdmittedInTurn(rules, batch, old(blocks), admitted)
    {
      admitted := 0;
      var prepared := PrepareBatch(batch);
      if prepared.Some? { admitted := AdmitInTurn(batch, prepared.value); }
    }

    method AdmitInTurn(batch: Batch, prepared: seq<seq<Entry>>) returns (admitted: nat)
      requires Valid() && |prepared| == |batch|
      requires forall i :: 0 <= i < |batch| ==> Prepared(rules, prepared[i], batch[i].0, batch[i].1)
      requires NoDoubleSpend(BatchSpending(batch)) && SpendsNoneOf(BatchSpending(batch), spent)
      modifies this`blocks, this`spent, this`history
      ensures Valid() && admitted <= |batch| && blocks == old(blocks) + Stored(batch[..admitted])
      ensures admitted < |batch| ==> !Admissible(rules, batch[admitted].0, RecordsOf(batch, admitted), blocks)
      ensures AdmittedInTurn(rules, batch, old(blocks), admitted)
    {
      admitted := 0;
      for i := 0 to |batch|
        invariant AdmittedInTurn(rules, batch, old(blocks), i)
        invariant Valid() && admitted == i && blocks == old(blocks) + Stored(batch[..i])
        invariant NoDoubleSpend(BatchSpending(batch[i..])) && SpendsNoneOf(BatchSpending(batch[i..]), spent)
      {
        var ok := AdmitPrepared(batch[i].0, prepared[i], batch[i].1, BatchSpending(batch[i + 1..]));
        if !ok { return; }
        InTurnStep(rules, batch, old(blocks), i);
        StoredStep(batch, i);
        admitted := i + 1;
      }
    }

    method AdmitPrepared(c: Candidate, es: seq<Entry>, txs: seq<Tx>, ghost rest: Spending) returns (ok: bool)
      requires Valid() && Prepared(rules, es, c, txs)
      requires NoDoubleSpend(SpendingOf(txs) + rest) && SpendsNoneOf(SpendingOf(txs) + rest, spent)
      modifies this`blocks, this`spent, this`history
      ensures Valid()
      ensures ok <==> Admissible(rules, c, es, old(blocks))
      ensures ok ==> blocks == old(blocks) + [StoredBlock(c.hash, txs, c.time, c.hf)]
      ensures ok ==> NoDoubleSpend(rest) && SpendsNoneOf(rest, spent)
      ensures !ok ==> blocks == old(blocks)
    {
      ImagesAreRecorded(SpendingOf(txs));
      BatchSplits(SpendingOf(txs), rest, spent, Images(SpendingOf(txs)));
      assert TxsOf(es) == txs;
      SameSpending(es);
      var a := new Entry[|es|](i requires 0 <= i < |es| => es[i]);
      assert a[..] == es;
      ok := AdmitBlock(c, a, true);
    }

    method Step(e: Event)
      requires Valid()
      modifies this
      ensures Valid() && blocks == ChainAfter(rules, e, old(blocks), old(spent), old(pool))
    {
      match e {
        case Submitted(tx) => Submit(tx);
        case SemanticWanted(ix, hf) => var _ := SemanticCheck(ix, hf);
        case FullWanted(ix, time, hf) => var _ := FullCheck(ix, time, hf);
        case BlockArrived(c, ix) =>
          var es := Pick(ix);
          var _ := AdmitBlock(c, es, false);
        case BatchArrived(batch) => AdmitWhole(batch);
        case Reorganised(n) => if n < |blocks| { PopBlocks(n); }
      }
    }

    method AdmitWhole(batch: Batch)
      requires Valid()
      modifies this`blocks, this`spent, this`history
      ensures Valid() && blocks == ChainAfter(rules, BatchArrived(batch), old(blocks), old(spent), [])
    {
      ghost var was := blocks;
      var admitted := AdmitBatch(batch);
      if admitted == 0 {
        assert was + Stored(batch[..0]) == was;
      }
      if old(BatchPasses(rules, batch, blocks, spent)) {
        AdmittedIsPass(rules, batch, was, 0, admitted);
      }
    }
  }

  /**
    After any run of events no key image is spent twice in the main chain, every transaction in it
    was owed everything when its block came in, and every cached verdict is justified.
  */
  method Run(rules: Rules, events: seq<Event>) returns (node: Node)
    ensures fresh(node) && node.rules == rules && node.Valid()
    ensures NoDoubleSpend(Ledger(node.blocks)) && BlocksSound(rules, node.blocks, node.history)
    ensures AllJustified(rules, node.pool, node.history)
  {
    node := new Node(rules);
    for i := 0 to |events|
      invariant fresh(node) && node.rules == rules && node.Valid()
    {
      node.Step(events[i]);
    }
  }
}
