/**
  The difficulty cache as a value (`consensus/context/src/difficulty.rs`): the window a chain
  determines, and what adding and removing blocks does to it.
*/
module Difficulty {
  import opened Wrappers

  datatype Config = Config(window: nat, cut: nat, lag: nat, fixedDifficulty: Option<nat>) {
    function TotalBlockCount(): nat { window + lag }
  }

  datatype Header = Header(timestamp: nat, cumulativeDifficulty: nat)

  /** A chain of block headers, indexed by height; index 0 is the genesis block. */
  type Chain = seq<Header>

  datatype State = State(
    timestamps: seq<nat>, cumulativeDifficulties: seq<nat>, lastAccountedHeight: nat, config: Config)

  function Timestamps(c: Chain): (t: seq<nat>)
    ensures |t| == |c|
  {
    seq(|c|, i requires 0 <= i < |c| => c[i].timestamp)
  }

  function Cumulatives(c: Chain): (d: seq<nat>)
    ensures |d| == |c|
  {
    seq(|c|, i requires 0 <= i < |c| => c[i].cumulativeDifficulty)
  }

  function SaturatingSub(a: nat, b: nat): nat {
    if a >= b then a - b else 0
  }

  /** The lowest height in the window of a chain of the given height; genesis is never in it. */
  function WindowStart(height: nat, config: Config): (start: nat)
    requires height >= 1
    ensures 1 <= start <= height
  {
    var start := SaturatingSub(height, config.TotalBlockCount());
    if start == 0 then 1 else start
  }

  /** The cache built from scratch from the first `height` blocks of a chain. */
  function CacheAt(chain: Chain, height: nat, config: Config): State
    requires 1 <= height <= |chain|
  {
    var blocks := chain[WindowStart(height, config)..height];
    State(Timestamps(blocks), Cumulatives(blocks), height - 1, config)
  }

  function NewBlock(s: State, timestamp: nat, cumulativeDifficulty: nat): State {
    var t, d := s.timestamps + [timestamp], s.cumulativeDifficulties + [cumulativeDifficulty];
    var full := |t| > s.config.TotalBlockCount();
    State(if full then t[1..] else t, if full then d[1..] else d, s.lastAccountedHeight + 1, s.config)
  }

  lemma MapsOfAppend(c: Chain, h: Header)
    ensures Timestamps(c + [h]) == Timestamps(c) + [h.timestamp]
    ensures Cumulatives(c + [h]) == Cumulatives(c) + [h.cumulativeDifficulty]
  {}

  lemma MapsOfConcat(c: Chain, d: Chain)
    ensures Timestamps(c + d) == Timestamps(c) + Timestamps(d)
    ensures Cumulatives(c + d) == Cumulatives(c) + Cumulatives(d)
  {}

  lemma MapsOfSlice(c: Chain, from: nat, to: nat)
    requires from <= to <= |c|
    ensures Timestamps(c[from..to]) == Timestamps(c)[from..to]
    ensures Cumulatives(c[from..to]) == Cumulatives(c)[from..to]
  {}

  /** The window holds the last `window + lag` blocks, or all but genesis if there are not that many. */
  lemma WindowHolds(chain: Chain, height: nat, config: Config, k: nat)
    requires 1 <= height <= |chain|
    ensures var s := CacheAt(chain, height, config);
            var size := if height - 1 <= config.window + config.lag then height - 1 else config.window + config.lag;
            && |s.timestamps| == |s.cumulativeDifficulties| == size
            && (k < size ==>
                  && s.timestamps[k] == chain[height - size + k].timestamp
                  && s.cumulativeDifficulties[k] == chain[height - size + k].cumulativeDifficulty)
            && s.lastAccountedHeight == height - 1 && s.config == config
  {}

  /** The window moves by one block exactly when it is full. */
  lemma WindowStartMoves(height: nat, config: Config)
    requires height >= 1
    ensures var start, next := WindowStart(height, config), WindowStart(height + 1, config);
            next == if height + 1 - start > config.TotalBlockCount() then start + 1 else start
  {}

  lemma SliceGrows(chain: Chain, h: Header, start: nat)
    requires start <= |chain|
    ensures (chain + [h])[start..|chain| + 1] == chain[start..|chain|] + [h]
  {}

  lemma SliceMoves(chain: Chain, start: nat, end: nat)
    requires start < end <= |chain|
    ensures Timestamps(chain[start + 1..end]) == Timestamps(chain[start..end])[1..]
    ensures Cumulatives(chain[start + 1..end]) == Cumulatives(chain[start..end])[1..]
  {}

  /** A new block advances the window exactly as a rebuild would. */
  lemma NewBlockIsRebuild(chain: Chain, h: Header, config: Config)
    requires |chain| >= 1
    ensures NewBlock(CacheAt(chain, |chain|, config), h.timestamp, h.cumulativeDifficulty)
            == CacheAt(chain + [h], |chain| + 1, config)
  {
    var start := WindowStart(|chain|, config);
    WindowStartMoves(|chain|, config);
    SliceGrows(chain, h, start);
    MapsOfAppend(chain[start..|chain|], h);
    SliceMoves(chain + [h], start, |chain| + 1);
  }

  /** The cache only depends on the first `height` blocks. */
  lemma CacheAtPrefix(a: Chain, b: Chain, height: nat, config: Config)
    requires 1 <= height <= |a| && height <= |b| && a[..height] == b[..height]
    ensures CacheAt(a, height, config) == CacheAt(b, height, config)
  {
    var start := WindowStart(height, config);
    assert a[start..height] == a[..height][start..] == b[start..height];
  }
}
