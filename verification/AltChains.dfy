/**
  The context caches of alternative chains (`consensus/context/src/alt_chains.rs`).

  Blocks form a tree by parent hash. The database knows the tree, the tip of the main chain, and
  for every other block the tip of some alternative chain that contains it.
*/
module AltChains {
  import opened Wrappers
  import opened Difficulty
  import opened DifficultyCaching

  type Hash = nat

  datatype Block = Block(parent: Hash, height: nat, header: Header)

  type Tree = map<Hash, Block>

  datatype Result<+T> = Ok(value: T) | PreviousIDIncorrect

  // ----- The block tree -----

  ghost predicate IsTree(tree: Tree, genesis: Hash) {
    && genesis in tree
    && forall h :: h in tree ==>
         && (tree[h].height == 0 <==> h == genesis)
         && (h != genesis ==> tree[h].parent in tree && tree[tree[h].parent].height + 1 == tree[h].height)
  }

  /** The headers from genesis to `tip`, along the tip's own ancestry. */
  function Path(tree: Tree, genesis: Hash, tip: Hash): (p: Chain)
    requires IsTree(tree, genesis) && tip in tree
    ensures |p| == tree[tip].height + 1
    decreases tree[tip].height
  {
    if tip == genesis then [tree[tip].header]
    else Path(tree, genesis, tree[tip].parent) + [tree[tip].header]
  }

  predicate IsAncestor(tree: Tree, genesis: Hash, a: Hash, tip: Hash)
    requires IsTree(tree, genesis) && tip in tree
    decreases tree[tip].height
  {
    a == tip || (tip != genesis && IsAncestor(tree, genesis, a, tree[tip].parent))
  }

  lemma {:induction false} PathOfAncestor(tree: Tree, genesis: Hash, a: Hash, tip: Hash)
    requires IsTree(tree, genesis) && tip in tree && IsAncestor(tree, genesis, a, tip)
    ensures a in tree && tree[a].height <= tree[tip].height
    ensures Path(tree, genesis, a) == Path(tree, genesis, tip)[..tree[a].height + 1]
    decreases tree[tip].height
  {
    if a != tip {
      PathOfAncestor(tree, genesis, a, tree[tip].parent);
    }
  }

  /** New blocks do not change the ancestry of old ones. */
  lemma {:induction false} PathKept(tree: Tree, genesis: Hash, larger: Tree, tip: Hash)
    requires IsTree(tree, genesis) && IsTree(larger, genesis) && tip in tree
    requires forall h :: h in tree ==> h in larger && larger[h] == tree[h]
    ensures Path(larger, genesis, tip) == Path(tree, genesis, tip)
    decreases tree[tip].height
  {
    if tip != genesis {
      PathKept(tree, genesis, larger, tree[tip].parent);
    }
  }

  // ----- The database -----

  datatype ChainRef = Main | Alt(tip: Hash)

  datatype Database = Database(tree: Tree, genesis: Hash, mainTip: Hash, altTips: map<Hash, Hash>) {

    ghost predicate Valid() {
      && IsTree(tree, genesis)
      && mainTip in tree
      && forall h :: h in tree && !IsAncestor(tree, genesis, h, mainTip) ==>
           h in altTips && altTips[h] in tree && IsAncestor(tree, genesis, h, altTips[h])
    }

    function MainChain(): Chain
      requires Valid()
    {
      Path(tree, genesis, mainTip)
    }

    function FindBlock(h: Hash): Option<(ChainRef, nat)>
      requires Valid()
    {
      if h !in tree then None
      else if IsAncestor(tree, genesis, h, mainTip) then Some((Main, tree[h].height))
      else Some((Alt(altTips[h]), tree[h].height))
    }

    /** The headers of a chain, from which ranges are requested. */
    function Headers(chain: ChainRef): Chain
      requires Valid() && (chain.Alt? ==> chain.tip in tree)
    {
      Path(tree, genesis, if chain.Main? then mainTip else chain.tip)
    }
  }

  /** The window computed from scratch along the ancestry of `tip`. */
  function Window(tree: Tree, genesis: Hash, tip: Hash, config: Config): State
    requires IsTree(tree, genesis) && tip in tree
  {
    CacheAt(Path(tree, genesis, tip), tree[tip].height + 1, config)
  }

  // ----- Caches of alternative chains -----

  datatype AltCache = AltCache(
    difficultyCache: Option<State>, chainHeight: nat, topHash: Hash, parentChain: ChainRef)

  /** The cache speaks of a known tip, and a built difficulty cache is the tip's own window. */
  ghost predicate IsTrue(c: AltCache, tree: Tree, genesis: Hash, config: Config)
    requires IsTree(tree, genesis)
  {
    && c.topHash in tree
    && c.chainHeight == tree[c.topHash].height + 1
    && (c.difficultyCache.Some? ==> c.difficultyCache.value == Window(tree, genesis, c.topHash, config))
  }

  lemma WindowGrows(tree: Tree, genesis: Hash, hash: Hash, config: Config)
    requires IsTree(tree, genesis) && hash in tree && hash != genesis
    ensures var b := tree[hash];
            Window(tree, genesis, hash, config)
            == NewBlock(Window(tree, genesis, b.parent, config), b.header.timestamp, b.header.cumulativeDifficulty)
  {
    NewBlockIsRebuild(Path(tree, genesis, tree[hash].parent), tree[hash].header, config);
  }

  /** `add_new_block` for the block that was put on top of the cache's tip. */
  method AddNewBlock(c: AltCache, height: nat, hash: Hash, h: Header,
                     ghost tree: Tree, ghost genesis: Hash, ghost config: Config)
    returns (d: AltCache)
    requires IsTree(tree, genesis) && hash in tree && hash != genesis
    requires tree[hash] == Block(c.topHash, height, h) && height == c.chainHeight
    requires IsTrue(c, tree, genesis, config)
    ensures IsTrue(d, tree, genesis, config) && d.topHash == hash
    ensures d.difficultyCache.Some? <==> c.difficultyCache.Some?
    ensures d.chainHeight == c.chainHeight + 1 && d.parentChain == c.parentChain
  {
    d := c;
    if c.difficultyCache.Some? {
      WindowGrows(tree, genesis, hash, config);
      d := d.(difficultyCache := Some(NewBlock(c.difficultyCache.value, h.timestamp, h.cumulativeDifficulty)));
    }
    d := d.(chainHeight := c.chainHeight + 1, topHash := hash);
  }

  class AltChainMap {
    var altCacheMap: map<Hash, AltCache>

    ghost predicate Valid(tree: Tree, genesis: Hash, config: Config)
      requires IsTree(tree, genesis)
      reads this
    {
      forall k :: k in altCacheMap ==> altCacheMap[k].topHash == k && IsTrue(altCacheMap[k], tree, genesis, config)
    }

    constructor ()
      ensures altCacheMap == map[]
    {
      altCacheMap := map[];
    }

    method Clear()
      modifies this
      ensures altCacheMap == map[]
    {
      altCacheMap := map[];
    }

    method AddAltCache(c: AltCache)
      modifies this
      ensures altCacheMap == old(altCacheMap)[c.topHash := c]
    {
      altCacheMap := altCacheMap[c.topHash := c];
    }

    /** Takes the cache out of the map, or starts one at the block the database knows. */
    method GetAltChainContext(prevId: Hash, db: Database, ghost config: Config) returns (r: Result<AltCache>)
      requires db.Valid() && Valid(db.tree, db.genesis, config)
      modifies this
      ensures Valid(db.tree, db.genesis, config)
      ensures altCacheMap == old(altCacheMap) - {prevId}
      ensures r.Ok? <==> prevId in db.tree
      ensures r.Ok? ==> r.value.topHash == prevId && IsTrue(r.value, db.tree, db.genesis, config)
      ensures prevId in old(altCacheMap) ==> r == Ok(old(altCacheMap)[prevId])
      ensures prevId !in old(altCacheMap) && r.Ok? ==>
                && r.value.difficultyCache.None?
                && db.FindBlock(prevId) == Some((r.value.parentChain, r.value.chainHeight - 1))
    {
      if prevId in altCacheMap {
        r := Ok(altCacheMap[prevId]);
        altCacheMap := altCacheMap - {prevId};
      } else {
        var found := db.FindBlock(prevId);
        match found
        case None => r := PreviousIDIncorrect;
        case Some((chain, height)) => r := Ok(AltCache(None, height + 1, prevId, chain));
      }
    }
  }

  /** The fast path: a clone of the main-chain cache, rolled back. */
  method RolledBack(main: DifficultyCache, height: nat, mainChain: Chain) returns (s: State)
    requires main.Tracks(mainChain) && height < |mainChain|
    ensures s == CacheAt(mainChain[..height + 1], height + 1, main.config)
  {
    var cache := new DifficultyCache.Clone(main.View());
    cache.PopBlocksMainChain(cache.lastAccountedHeight - height, mainChain, mainChain);
    s := cache.View();
  }

  method Rebuilt(config: Config, height: nat, chain: Chain) returns (s: State)
    requires height < |chain|
    ensures s == CacheAt(chain[..height + 1], height + 1, config)
  {
    var cache := new DifficultyCache.InitFromChainHeight(height + 1, config, chain);
    s := cache.View();
  }

  /** A block's window is that of any chain through it, cut off at the block. */
  lemma WindowOnChain(tree: Tree, genesis: Hash, hash: Hash, tip: Hash, config: Config, path: Chain)
    requires IsTree(tree, genesis) && tip in tree && IsAncestor(tree, genesis, hash, tip)
    requires path == Path(tree, genesis, tip)
    ensures hash in tree && tree[hash].height < |path|
    ensures Window(tree, genesis, hash, config) == CacheAt(path[..tree[hash].height + 1], tree[hash].height + 1, config)
  {
    PathOfAncestor(tree, genesis, hash, tip);
  }

  /** Clone and pop when the parent is on the main chain, rebuild otherwise: the same window either way. */
  method CacheOnChain(main: DifficultyCache, onMain: bool, height: nat, headers: Chain) returns (s: State)
    requires height < |headers| && (onMain ==> main.Tracks(headers))
    ensures s == CacheAt(headers[..height + 1], height + 1, main.config)
  {
    if onMain {
      s := RolledBack(main, height, headers);
    } else {
      s := Rebuilt(main.config, height, headers);
    }
  }

  /** Whatever chain the parent is on, the cache built for it is the parent's own window. */
  method GetAltChainDifficultyCache(prevId: Hash, main: DifficultyCache, db: Database) returns (r: Result<State>)
    requires db.Valid() && main.Tracks(db.MainChain())
    ensures r.Ok? <==> prevId in db.tree
    ensures r.Ok? ==> r.value == Window(db.tree, db.genesis, prevId, main.config)
  {
    var found := db.FindBlock(prevId);
    if found.None? { return PreviousIDIncorrect; }
    var (chain, height) := found.value;
    var headers := db.Headers(chain);
    WindowOnChain(db.tree, db.genesis, prevId, if chain.Main? then db.mainTip else chain.tip, main.config, headers);
    var s := CacheOnChain(main, chain.Main?, height, headers);
    r := Ok(s);
  }
}
