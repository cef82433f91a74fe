/**
  The steps of the context task (`consensus/context/src/task.rs`) and of the alt-block check
  (`consensus/src/block/alt_block.rs`) that touch the difficulty caches. Every step keeps `Inv`, so
  it holds after every run: the main cache is the window of the main chain, and every alternative
  cache is stored under its own tip and is the window of that tip's ancestry.
*/
module ContextTasks {
  import opened Wrappers
  import opened HardForks
  import opened Difficulty
  import opened DifficultyCaching
  import opened NextDifficulty
  import opened AltChains

  // ----- How the database changes -----

  ghost predicate Extends(tree: Tree, larger: Tree) {
    forall h :: h in tree ==> h in larger && larger[h] == tree[h]
  }

  lemma {:induction false} AncestorKept(tree: Tree, genesis: Hash, larger: Tree, a: Hash, tip: Hash)
    requires IsTree(tree, genesis) && IsTree(larger, genesis) && Extends(tree, larger) && tip in tree
    ensures IsAncestor(larger, genesis, a, tip) <==> IsAncestor(tree, genesis, a, tip)
    decreases tree[tip].height
  {
    if tip != genesis {
      AncestorKept(tree, genesis, larger, a, tree[tip].parent);
    }
  }

  lemma {:induction false} AncestorKnown(tree: Tree, genesis: Hash, a: Hash, tip: Hash)
    requires IsTree(tree, genesis) && tip in tree && IsAncestor(tree, genesis, a, tip)
    ensures a in tree
    decreases tree[tip].height
  {
    if a != tip {
      AncestorKnown(tree, genesis, a, tree[tip].parent);
    }
  }

  /** A block the database did not know yet, stored on an alternative chain of which it is the tip. */
  function WithAltBlock(db: Database, hash: Hash, parent: Hash, header: Header): Database
    requires parent in db.tree
  {
    db.(tree := db.tree[hash := Block(parent, db.tree[parent].height + 1, header)],
        altTips := db.altTips[hash := hash])
  }

  lemma LeafKeepsTree(tree: Tree, genesis: Hash, hash: Hash, b: Block)
    requires IsTree(tree, genesis) && hash !in tree && b.parent in tree && b.height == tree[b.parent].height + 1
    ensures IsTree(tree[hash := b], genesis) && Extends(tree, tree[hash := b])
  {}

  lemma WithAltBlockValid(db: Database, hash: Hash, parent: Hash, header: Header)
    requires db.Valid() && parent in db.tree && hash !in db.tree
    ensures var after := WithAltBlock(db, hash, parent, header);
            && after.Valid()
            && Extends(db.tree, after.tree)
            && after.MainChain() == db.MainChain()
  {
    var after := WithAltBlock(db, hash, parent, header);
    LeafKeepsTree(db.tree, db.genesis, hash, after.tree[hash]);
    forall h | h in after.tree && !IsAncestor(after.tree, db.genesis, h, db.mainTip)
      ensures h in after.altTips && after.altTips[h] in after.tree
      ensures IsAncestor(after.tree, db.genesis, h, after.altTips[h])
    {
      if h != hash {
        AltTipKept(db, after.tree, h);
      }
    }
    PathKept(db.tree, db.genesis, after.tree, db.mainTip);
  }

  lemma AltTipKept(db: Database, larger: Tree, h: Hash)
    requires db.Valid() && IsTree(larger, db.genesis) && Extends(db.tree, larger)
    requires h in db.tree && !IsAncestor(larger, db.genesis, h, db.mainTip)
    ensures h in db.altTips && db.altTips[h] in larger && IsAncestor(larger, db.genesis, h, db.altTips[h])
  {
    AncestorKept(db.tree, db.genesis, larger, h, db.mainTip);
    AncestorKept(db.tree, db.genesis, larger, h, db.altTips[h]);
  }

  /** The main chain grows by a child of its tip. */
  lemma PromoteValid(db: Database, hash: Hash)
    requires db.Valid() && hash in db.tree && hash != db.genesis && db.tree[hash].parent == db.mainTip
    ensures var after := db.(mainTip := hash);
            after.Valid() && after.MainChain() == db.MainChain() + [db.tree[hash].header]
  {}

  function Back(tree: Tree, genesis: Hash, tip: Hash, n: nat): (a: Hash)
    requires IsTree(tree, genesis) && tip in tree && n <= tree[tip].height
    ensures a in tree && tree[a].height == tree[tip].height - n && IsAncestor(tree, genesis, a, tip)
    decreases n
  {
    if n == 0 then tip else Back(tree, genesis, tree[tip].parent, n - 1)
  }

  /** Blocks taken off the main chain stay known, on an alternative chain that ends in the old tip. */
  function Popped(db: Database, n: nat): Database
    requires db.Valid() && n <= db.tree[db.mainTip].height
  {
    db.(mainTip := Back(db.tree, db.genesis, db.mainTip, n),
        altTips := db.altTips + map h | h in db.tree && IsAncestor(db.tree, db.genesis, h, db.mainTip) :: db.mainTip)
  }

  method PopDatabase(db: Database, n: nat) returns (after: Database)
    requires db.Valid() && n < |db.MainChain()|
    ensures after.Valid() && after.tree == db.tree && after.genesis == db.genesis
    ensures after.MainChain() == db.MainChain()[..|db.MainChain()| - n]
  {
    after := Popped(db, n);
    PathOfAncestor(db.tree, db.genesis, after.mainTip, db.mainTip);
  }

  lemma TrueInLargerTree(c: AltCache, tree: Tree, larger: Tree, genesis: Hash, config: Config)
    requires IsTree(tree, genesis) && IsTree(larger, genesis) && Extends(tree, larger)
    requires IsTrue(c, tree, genesis, config)
    ensures IsTrue(c, larger, genesis, config)
  {
    WindowKept(tree, larger, genesis, c.topHash, config);
  }

  lemma WindowKept(tree: Tree, larger: Tree, genesis: Hash, tip: Hash, config: Config)
    requires IsTree(tree, genesis) && IsTree(larger, genesis) && Extends(tree, larger) && tip in tree
    ensures Window(larger, genesis, tip, config) == Window(tree, genesis, tip, config)
  {
    PathKept(tree, genesis, larger, tip);
  }

  method RollBack(cache: DifficultyCache, numbBlocks: nat, chain: Chain, ghost after: Chain)
    requires cache.Tracks(chain) && numbBlocks < |chain| && after == chain[..|chain| - numbBlocks]
    modifies cache
    ensures cache.Tracks(after)
  {
    cache.PopBlocksMainChain(numbBlocks, chain, chain);
  }

  // ----- Cumulative difficulties -----

  /** The work of a block under fork `hf`: that of its parent's own window and the difficulty it asks for. */
  ghost predicate EarnedUnder(tree: Tree, genesis: Hash, hash: Hash, hf: HardFork, config: Config)
    requires IsTree(tree, genesis)
  {
    && hash in tree && hash != genesis
    && var w := Window(tree, genesis, tree[hash].parent, config);
       UsableState(w) && tree[hash].header.cumulativeDifficulty == CumulativeDifficulty(w) + NextOf(w, hf)
  }

  ghost predicate Earned(tree: Tree, genesis: Hash, hash: Hash, config: Config)
    requires IsTree(tree, genesis)
  {
    exists hf: HardFork :: EarnedUnder(tree, genesis, hash, hf, config)
  }

  /** Every block of the tree, on whatever chain, has the work its own ancestry asks for. */
  ghost predicate AllEarned(tree: Tree, genesis: Hash, config: Config)
    requires IsTree(tree, genesis)
  {
    && UsableState(Window(tree, genesis, genesis, config))
    && forall h {:trigger Earned(tree, genesis, h, config)} ::
         h in tree && h != genesis ==> Earned(tree, genesis, h, config)
  }

  /** So the window of every block can be asked for a difficulty. */
  lemma WindowUsable(tree: Tree, genesis: Hash, hash: Hash, config: Config)
    requires IsTree(tree, genesis) && AllEarned(tree, genesis, config) && hash in tree
    ensures UsableState(Window(tree, genesis, hash, config))
  {
    if hash != genesis {
      assert Earned(tree, genesis, hash, config);
      var hf: HardFork :| EarnedUnder(tree, genesis, hash, hf, config);
      WindowAdmitted(tree, genesis, hash, hf, config);
    }
  }

  lemma WindowAdmitted(tree: Tree, genesis: Hash, hash: Hash, hf: HardFork, config: Config)
    requires IsTree(tree, genesis) && EarnedUnder(tree, genesis, hash, hf, config)
    ensures Window(tree, genesis, hash, config) ==
            Admit(Window(tree, genesis, tree[hash].parent, config), hf, tree[hash].header.timestamp)
  {
    WindowGrows(tree, genesis, hash, config);
  }

  lemma EarnedKept(tree: Tree, larger: Tree, genesis: Hash, hash: Hash, config: Config)
    requires IsTree(tree, genesis) && IsTree(larger, genesis) && Extends(tree, larger)
    requires Earned(tree, genesis, hash, config)
    ensures Earned(larger, genesis, hash, config)
  {
    var hf: HardFork :| EarnedUnder(tree, genesis, hash, hf, config);
    WindowKept(tree, larger, genesis, tree[hash].parent, config);
    assert EarnedUnder(larger, genesis, hash, hf, config);
  }

  /** One more block with the work its parent's window asks for. */
  lemma AllEarnedGrows(tree: Tree, larger: Tree, genesis: Hash, hash: Hash, hf: HardFork, w: State, config: Config)
    requires IsTree(tree, genesis) && IsTree(larger, genesis) && AllEarned(tree, genesis, config)
    requires hash !in tree && hash != genesis && hash in larger && larger == tree[hash := larger[hash]]
    requires larger[hash].parent in tree
    requires w == Window(tree, genesis, larger[hash].parent, config) && UsableState(w)
    requires larger[hash].header.cumulativeDifficulty == CumulativeDifficulty(w) + NextOf(w, hf)
    ensures AllEarned(larger, genesis, config) && EarnedUnder(larger, genesis, hash, hf, config)
  {
    WindowKept(tree, larger, genesis, genesis, config);
    WindowKept(tree, larger, genesis, larger[hash].parent, config);
    assert EarnedUnder(larger, genesis, hash, hf, config);
    forall h | h in larger && h != genesis
      ensures Earned(larger, genesis, h, config)
    {
      if h != hash {
        assert Earned(tree, genesis, h, config);
        EarnedKept(tree, larger, genesis, h, config);
      }
    }
  }

  /** The header a block gets on top of the window `w`. */
  function NextHeader(w: State, timestamp: nat, hf: HardFork): Header
    requires UsableState(w)
  {
    Header(timestamp, CumulativeDifficulty(w) + NextOf(w, hf))
  }

  /** A new block with the header its parent's window gives, stored as an alternative block. */
  lemma WithEarnedBlock(db: Database, hash: Hash, parent: Hash, header: Header, hf: HardFork, w: State, config: Config)
    requires db.Valid() && AllEarned(db.tree, db.genesis, config) && parent in db.tree && hash !in db.tree
    requires w == Window(db.tree, db.genesis, parent, config) && UsableState(w)
    requires header == NextHeader(w, header.timestamp, hf)
    ensures var after := WithAltBlock(db, hash, parent, header);
            && after.Valid() && Extends(db.tree, after.tree)
            && after.MainChain() == db.MainChain()
            && AllEarned(after.tree, after.genesis, config)
            && EarnedUnder(after.tree, after.genesis, hash, hf, config)
  {
    WithAltBlockValid(db, hash, parent, header);
    AllEarnedGrows(db.tree, WithAltBlock(db, hash, parent, header).tree, db.genesis, hash, hf, w, config);
  }

  // ----- The context task -----

  class ContextTask {
    var db: Database
    const cache: DifficultyCache
    const alts: AltChainMap

    ghost predicate Inv()
      reads this, cache, alts
    {
      && db.Valid()
      && cache.Tracks(db.MainChain())
      && alts.Valid(db.tree, db.genesis, cache.config)
      && AllEarned(db.tree, db.genesis, cache.config)
    }

    constructor (db: Database, config: Config)
      requires db.Valid() && AllEarned(db.tree, db.genesis, config)
      ensures Inv() && this.db == db && cache.config == config
      ensures fresh(cache) && fresh(alts)
    {
      this.db := db;
      var chain := db.MainChain();
      cache := new DifficultyCache.InitFromChainHeight(|chain|, config, chain);
      alts := new AltChainMap();
      assert chain[..|chain|] == chain;
    }

    /** What the map knows stays true when the database learns more blocks. */
    lemma KeepAlts(larger: Database)
      requires Inv() && larger.Valid() && larger.genesis == db.genesis && Extends(db.tree, larger.tree)
      ensures alts.Valid(larger.tree, larger.genesis, cache.config)
    {
      forall k | k in alts.altCacheMap {
        TrueInLargerTree(alts.altCacheMap[k], db.tree, larger.tree, db.genesis, cache.config);
      }
    }

    /** The parent's cache, taken out of the map if it is there, with its difficulty cache built. */
    method TakeCache(parent: Hash, height: nat) returns (r: Option<AltCache>)
      requires Inv()
      modifies alts
      ensures Inv()
      ensures r.Some? <==> parent in db.tree && height == db.tree[parent].height + 1
      ensures r.Some? ==>
                && r.value.topHash == parent
                && r.value.difficultyCache.Some?
                && IsTrue(r.value, db.tree, db.genesis, cache.config)
    {
      var found := alts.GetAltChainContext(parent, db, cache.config);
      if !found.Ok? { return None; }
      var c := found.value;
      if height != c.chainHeight { return None; }
      if c.difficultyCache.None? {
        var d := GetAltChainDifficultyCache(parent, cache, db);
        c := c.(difficultyCache := Some(d.value));
      }
      r := Some(c);
    }

    /** The checked block goes on top of its parent's cache, which is stored under the new tip. */
    method StoreBlock(c: AltCache, hash: Hash, header: Header, ghost hf: HardFork)
      requires Inv() && hash !in db.tree
      requires IsTrue(c, db.tree, db.genesis, cache.config) && c.difficultyCache.Some?
      requires UsableState(c.difficultyCache.value)
      requires header == NextHeader(c.difficultyCache.value, header.timestamp, hf)
      modifies this`db, alts
      ensures Inv()
      ensures db == WithAltBlock(old(db), hash, c.topHash, header)
      ensures EarnedUnder(db.tree, db.genesis, hash, hf, cache.config)
      ensures hash in alts.altCacheMap && alts.altCacheMap[hash].difficultyCache.Some?
    {
      var after := WithAltBlock(db, hash, c.topHash, header);
      WithEarnedBlock(db, hash, c.topHash, header, hf, c.difficultyCache.value, cache.config);
      KeepAlts(after);
      TrueInLargerTree(c, db.tree, after.tree, db.genesis, cache.config);
      var d := AddNewBlock(c, c.chainHeight, hash, header, after.tree, after.genesis, cache.config);
      Put(d, after);
    }

    /** The new cache goes into the map and the database moves on. */
    method Put(d: AltCache, after: Database)
      requires after.Valid() && cache.Tracks(after.MainChain())
      requires alts.Valid(after.tree, after.genesis, cache.config) && AllEarned(after.tree, after.genesis, cache.config)
      requires IsTrue(d, after.tree, after.genesis, cache.config)
      modifies this`db, alts
      ensures Inv() && db == after && alts.altCacheMap == old(alts.altCacheMap)[d.topHash := d]
    {
      alts.AddAltCache(d);
      db := after;
    }

    /**
      `sanity_check_alt_block`. `accepted` stands for the checks of proof of work, timestamp and
      weight; a rejected block loses the cache that was taken out of the map. The cumulative
      difficulty of the stored block is computed from that cache.
    */
    method AltBlock(parent: Hash, height: nat, hash: Hash, timestamp: nat, hf: HardFork, accepted: bool)
      returns (ok: bool)
      requires Inv() && hash !in db.tree
      modifies this`db, alts
      ensures Inv()
      ensures ok <==> parent in old(db).tree && height == old(db).tree[parent].height + 1 && accepted
      ensures ok ==> hash in db.tree && db == WithAltBlock(old(db), hash, parent, db.tree[hash].header)
      ensures ok ==> db.tree[hash].header.timestamp == timestamp
      ensures ok ==> EarnedUnder(db.tree, db.genesis, hash, hf, cache.config)
      ensures ok ==> hash in alts.altCacheMap && alts.altCacheMap[hash].difficultyCache.Some?
      ensures !ok ==> db == old(db)
    {
      var c := TakeCache(parent, height);
      ok := c.Some? && accepted;
      if ok {
        WindowUsable(db.tree, db.genesis, parent, cache.config);
        StoreBlock(c.value, hash, NextHeader(c.value.difficultyCache.value, timestamp, hf), hf);
      }
    }

    lemma MainUsable()
      requires Inv()
      ensures UsableState(cache.View())
      ensures cache.View() == Window(db.tree, db.genesis, db.mainTip, cache.config)
    {
      WindowUsable(db.tree, db.genesis, db.mainTip, cache.config);
    }

    /** A new block on the main chain, whether or not it was already known as an alternative block. */
    method MainBlock(hash: Hash, header: Header, ghost hf: HardFork)
      requires Inv()
      requires UsableState(cache.View()) && header == NextHeader(cache.View(), header.timestamp, hf)
      requires hash in db.tree ==>
                 hash != db.genesis && db.tree[hash].parent == db.mainTip && db.tree[hash].header == header
      modifies this`db, cache
      ensures Inv() && db.mainTip == hash && db.MainChain() == old(db.MainChain()) + [header]
    {
      var after := db;
      if hash !in db.tree {
        after := WithAltBlock(db, hash, db.mainTip, header);
        WithEarnedBlock(db, hash, db.mainTip, header, hf, cache.View(), cache.config);
      }
      KeepAlts(after);
      PromoteValid(after, hash);
      cache.Extend(header, db.MainChain());
      db := after.(mainTip := hash);
    }

    method PopMain(numbBlocks: nat)
      requires Inv() && numbBlocks < |db.MainChain()|
      modifies this`db, cache
      ensures Inv()
      ensures db.MainChain() == old(db.MainChain())[..|old(db.MainChain())| - numbBlocks]
    {
      var after := PopDatabase(db, numbBlocks);
      RollBack(cache, numbBlocks, db.MainChain(), after.MainChain());
      db := after;
    }

    method ClearAltCache()
      requires Inv()
      modifies alts
      ensures Inv() && alts.altCacheMap == map[]
    {
      alts.Clear();
    }

    method PopBlocks(numbBlocks: nat)
      requires Inv() && numbBlocks < |db.MainChain()|
      modifies this`db, cache, alts
      ensures Inv() && alts.altCacheMap == map[]
      ensures db.MainChain() == old(db.MainChain())[..|old(db.MainChain())| - numbBlocks]
    {
      PopMain(numbBlocks);
      ClearAltCache();
    }

    /** An alternative block; one that is already known is skipped. */
    method AltArrival(parent: Hash, height: nat, hash: Hash, timestamp: nat, hf: HardFork, accepted: bool)
      requires Inv()
      modifies this`db, alts
      ensures Inv() && db.MainChain() == old(db.MainChain())
      ensures hash !in old(db).tree ==>
                (hash in db.tree <==> parent in old(db).tree && height == old(db).tree[parent].height + 1 && accepted)
    {
      if hash !in db.tree {
        var ok := AltBlock(parent, height, hash, timestamp, hf, accepted);
        if ok { WithAltBlockValid(old(db), hash, parent, db.tree[hash].header); }
      }
    }

    /** A main-chain block; a known one must be a child of the tip with the header the cache asks for. */
    method MainArrival(hash: Hash, timestamp: nat, hf: HardFork)
      requires Inv()
      modifies this`db, cache
      ensures Inv()
      ensures hash !in old(db).tree ==> db.mainTip == hash && old(db.MainChain()) < db.MainChain()
      ensures db.mainTip != old(db).mainTip ==> db.mainTip == hash
    {
      MainUsable();
      var header := NextHeader(cache.View(), timestamp, hf);
      var promoted := hash in db.tree && hash != db.genesis && db.tree[hash].parent == db.mainTip;
      if hash !in db.tree || (promoted && db.tree[hash].header == header) {
        MainBlock(hash, header, hf);
      }
    }

    /** One event; one that cannot happen in the current state is skipped. */
    method Step(e: Event)
      requires Inv()
      modifies this`db, cache, alts
      ensures Inv()
      ensures e.AltArrived? ==> db.MainChain() == old(db.MainChain())
      ensures e.AltArrived? && e.hash !in old(db).tree ==>
                (e.hash in db.tree <==>
                   e.parent in old(db).tree && e.height == old(db).tree[e.parent].height + 1 && e.accepted)
      ensures e.MainArrived? && e.hash !in old(db).tree ==>
                db.mainTip == e.hash && old(db.MainChain()) < db.MainChain()
      ensures e.PopWanted? && e.numbBlocks < |old(db.MainChain())| ==>
                db.MainChain() == old(db.MainChain())[..|old(db.MainChain())| - e.numbBlocks]
      ensures e.ClearWanted? ==> db == old(db) && alts.altCacheMap == map[]
    {
      match e {
        case AltArrived(parent, height, hash, timestamp, hf, accepted) =>
          AltArrival(parent, height, hash, timestamp, hf, accepted);
        case MainArrived(hash, timestamp, hf) => MainArrival(hash, timestamp, hf);
        case PopWanted(n) => if n < |db.MainChain()| { PopBlocks(n); }
        case ClearWanted => ClearAltCache();
      }
    }

    method Steps(events: seq<Event>)
      requires Inv()
      modifies this`db, cache, alts
      ensures Inv()
    {
      for i := 0 to |events|
        invariant Inv()
      {
        Step(events[i]);
      }
    }
  }

  datatype Event =
    | AltArrived(parent: Hash, height: nat, hash: Hash, timestamp: nat, hf: HardFork, accepted: bool)
    | MainArrived(hash: Hash, timestamp: nat, hf: HardFork)
    | PopWanted(numbBlocks: nat)
    | ClearWanted

  /**
    After any run of events the main cache is what a rebuild would give, each cache of the map is
    stored under its own tip, each built difficulty cache is the window of its tip's ancestry, and
    every block has the work its own ancestry asks for.
  */
  method Run(db: Database, config: Config, events: seq<Event>) returns (task: ContextTask)
    requires db.Valid() && AllEarned(db.tree, db.genesis, config)
    ensures fresh(task) && task.Inv() && task.cache.config == config
    ensures AllEarned(task.db.tree, task.db.genesis, config)
    ensures task.cache.View() == Window(task.db.tree, task.db.genesis, task.db.mainTip, task.cache.config)
    ensures forall k :: k in task.alts.altCacheMap ==>
              var c := task.alts.altCacheMap[k];
              && k == c.topHash && k in task.db.tree
              && (c.difficultyCache.Some? ==>
                  c.difficultyCache.value == Window(task.db.tree, task.db.genesis, k, task.cache.config))
  {
    task := new ContextTask(db, config);
    task.Steps(events);
  }
}
