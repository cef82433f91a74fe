/** The mutable difficulty cache of `consensus/context/src/difficulty.rs`. */
module DifficultyCaching {
  import opened Difficulty

  class DifficultyCache {
    var timestamps: seq<nat>
    var cumulativeDifficulties: seq<nat>
    var lastAccountedHeight: nat
    const config: Config

    function View(): State
      reads this
    {
      State(timestamps, cumulativeDifficulties, lastAccountedHeight, config)
    }

    /** Field by field, the cache a rebuild from the headers of `chain` gives. */
    ghost predicate Tracks(chain: Chain)
      reads this
    {
      |chain| >= 1 && View() == CacheAt(chain, |chain|, config)
    }

    constructor InitFromChainHeight(chainHeight: nat, config: Config, database: Chain)
      requires 1 <= chainHeight <= |database|
      ensures this.config == config
      ensures Tracks(database[..chainHeight])
    {
      var blockStart := SaturatingSub(chainHeight, config.TotalBlockCount());
      if blockStart == 0 { blockStart := 1; }
      var blocks := database[blockStart..chainHeight];
      this.timestamps := Timestamps(blocks);
      this.cumulativeDifficulties := Cumulatives(blocks);
      this.lastAccountedHeight := chainHeight - 1;
      this.config := config;
      CacheAtPrefix(database, database[..chainHeight], chainHeight, config);
    }

    constructor Clone(s: State)
      ensures config == s.config && View() == s
    {
      timestamps := s.timestamps;
      cumulativeDifficulties := s.cumulativeDifficulties;
      lastAccountedHeight := s.lastAccountedHeight;
      config := s.config;
    }

    method NewBlockAt(height: nat, timestamp: nat, cumulativeDifficulty: nat)
      requires |timestamps| == |cumulativeDifficulties|
      requires height == lastAccountedHeight + 1
      modifies this
      ensures View() == NewBlock(old(View()), timestamp, cumulativeDifficulty)
    {
      lastAccountedHeight := lastAccountedHeight + 1;
      timestamps := timestamps + [timestamp];
      cumulativeDifficulties := cumulativeDifficulties + [cumulativeDifficulty];
      if |timestamps| > config.TotalBlockCount() {
        timestamps := timestamps[1..];
        cumulativeDifficulties := cumulativeDifficulties[1..];
      }
    }

    /** A new block on a tracked chain. */
    method Extend(h: Header, ghost chain: Chain)
      requires Tracks(chain)
      modifies this
      ensures Tracks(chain + [h])
    {
      NewBlockIsRebuild(chain, h, config);
      NewBlockAt(lastAccountedHeight + 1, h.timestamp, h.cumulativeDifficulty);
    }

    /**
      Removes the top `numbBlocks` blocks. The database only has to agree with the old chain below
      the new height: it may still hold the removed blocks, or their replacements.
    */
    method PopBlocksMainChain(numbBlocks: nat, database: Chain, ghost chain: Chain)
      requires Tracks(chain) && numbBlocks < |chain|
      requires |chain| - numbBlocks <= |database|
      requires database[..|chain| - numbBlocks] == chain[..|chain| - numbBlocks]
      modifies this
      ensures Tracks(chain[..|chain| - numbBlocks])
    {
      if |timestamps| < numbBlocks {
        Rebuild(lastAccountedHeight - numbBlocks + 1, database);
      } else {
        Refetch(numbBlocks, database, chain);
      }
    }

    /** All blocks of the window are gone: build it anew. */
    method Rebuild(height: nat, database: Chain)
      requires 1 <= height <= |database|
      modifies this
      ensures Tracks(database[..height])
    {
      var fresh' := new DifficultyCache.InitFromChainHeight(height, config, database);
      timestamps := fresh'.timestamps;
      cumulativeDifficulties := fresh'.cumulativeDifficulties;
      lastAccountedHeight := fresh'.lastAccountedHeight;
    }

    /** Some are left: fetch the blocks below them. */
    method Refetch(numbBlocks: nat, database: Chain, ghost chain: Chain)
      requires Tracks(chain) && numbBlocks < |chain| && numbBlocks <= |timestamps|
      requires |chain| - numbBlocks <= |database|
      requires database[..|chain| - numbBlocks] == chain[..|chain| - numbBlocks]
      modifies this
      ensures Tracks(chain[..|chain| - numbBlocks])
    {
      var retained := |timestamps| - numbBlocks;
      var currentHeight := lastAccountedHeight + 1;
      var newStart := SaturatingSub(SaturatingSub(currentHeight, config.TotalBlockCount()), numbBlocks);
      if newStart == 0 { newStart := 1; }
      var blocks := database[newStart..currentHeight - |timestamps|];
      PoppedWindow(chain, database, config, numbBlocks);
      assert newStart == WindowStart(|chain| - numbBlocks, config);
      timestamps := Timestamps(blocks) + timestamps[..retained];
      cumulativeDifficulties := Cumulatives(blocks) + cumulativeDifficulties[..retained];
      lastAccountedHeight := lastAccountedHeight - numbBlocks;
    }
  }

  /** The refetched blocks followed by the retained ones are the window at the lower height. */
  lemma PoppedWindow(chain: Chain, database: Chain, config: Config, n: nat)
    requires n < |chain| && |chain| - n <= |database|
    requires database[..|chain| - n] == chain[..|chain| - n]
    requires n <= |chain| - WindowStart(|chain|, config)
    ensures var before, after := CacheAt(chain, |chain|, config), CacheAt(chain[..|chain| - n], |chain| - n, config);
            var start, next := WindowStart(|chain|, config), WindowStart(|chain| - n, config);
            && next <= start <= |chain| - n
            && after.timestamps == Timestamps(database[next..start]) + before.timestamps[..|chain| - n - start]
            && after.cumulativeDifficulties ==
               Cumulatives(database[next..start]) + before.cumulativeDifficulties[..|chain| - n - start]
  {
    var top, start, next := |chain| - n, WindowStart(|chain|, config), WindowStart(|chain| - n, config);
    var window := chain[start..|chain|];
    SliceOfPrefix(database, chain, top, next, start);
    SplitWindow(chain, next, start, top);
    MapsOfConcat(chain[next..start], window[0..top - start]);
    MapsOfSlice(window, 0, top - start);
  }

  lemma SliceOfPrefix(a: Chain, b: Chain, top: nat, from: nat, to: nat)
    requires from <= to <= top <= |a| && top <= |b| && a[..top] == b[..top]
    ensures a[from..to] == b[from..to]
  {
    forall k | 0 <= k < to - from
      ensures a[from..to][k] == b[from..to][k]
    {
      assert a[..top][from + k] == b[..top][from + k];
    }
  }

  lemma SplitWindow(chain: Chain, next: nat, start: nat, top: nat)
    requires next <= start <= top <= |chain|
    ensures chain[..top][next..top] == chain[next..start] + chain[start..|chain|][0..top - start]
  {}

  // ----- Runs -----

  /** A block on top, or a reorganisation that removes blocks while the database may have moved on. */
  datatype Step = Add(header: Header) | Pop(numbBlocks: nat, database: Chain)

  predicate Possible(chain: Chain, step: Step) {
    match step
    case Add(_) => |chain| >= 1
    case Pop(n, database) =>
      && n < |chain|
      && |chain| - n <= |database|
      && database[..|chain| - n] == chain[..|chain| - n]
  }

  function After(chain: Chain, step: Step): Chain
    requires Possible(chain, step)
  {
    match step
    case Add(header) => chain + [header]
    case Pop(n, _) => chain[..|chain| - n]
  }

  predicate PossibleRun(chain: Chain, steps: seq<Step>)
    decreases steps
  {
    steps == [] || (Possible(chain, steps[0]) && PossibleRun(After(chain, steps[0]), steps[1..]))
  }

  function AfterRun(chain: Chain, steps: seq<Step>): Chain
    requires PossibleRun(chain, steps)
    decreases steps
  {
    if steps == [] then chain else AfterRun(After(chain, steps[0]), steps[1..])
  }

  method Apply(cache: DifficultyCache, step: Step, ghost chain: Chain)
    requires cache.Tracks(chain) && Possible(chain, step)
    modifies cache
    ensures cache.Tracks(After(chain, step))
  {
    match step
    case Add(h) => cache.Extend(h, chain);
    case Pop(n, database) => cache.PopBlocksMainChain(n, database, chain);
  }

  /** Any interleaving of additions and removals leaves the cache a rebuild would give. */
  method Replay(cache: DifficultyCache, steps: seq<Step>, ghost chain: Chain)
    requires cache.Tracks(chain) && PossibleRun(chain, steps)
    modifies cache
    ensures cache.Tracks(AfterRun(chain, steps))
  {
    ghost var current := chain;
    for i := 0 to |steps|
      invariant cache.Tracks(current)
      invariant PossibleRun(current, steps[i..]) && AfterRun(current, steps[i..]) == AfterRun(chain, steps)
    {
      assert steps[i..][0] == steps[i] && steps[i..][1..] == steps[i + 1..];
      Apply(cache, steps[i], current);
      current := After(current, steps[i]);
    }
  }
}
