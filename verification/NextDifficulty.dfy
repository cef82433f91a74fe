/** The difficulty of the next block, and of several next blocks (`consensus/context/src/difficulty.rs`). */
module NextDifficulty {
  import opened Wrappers
  import opened HardForks
  import opened Difficulty

  // ----- Order statistics -----

  function Insert(x: nat, s: seq<nat>): (r: seq<nat>)
    ensures |r| == |s| + 1
    ensures multiset(r) == multiset(s) + multiset{x}
  {
    if s == [] then [x]
    else if x <= s[0] then [x] + s
    else
      assert s == [s[0]] + s[1..];
      [s[0]] + Insert(x, s[1..])
  }

  function Sort(s: seq<nat>): (r: seq<nat>)
    ensures |r| == |s|
    ensures multiset(r) == multiset(s)
  {
    if s == [] then []
    else
      assert s == [s[0]] + s[1..];
      Insert(s[0], Sort(s[1..]))
  }

  predicate NonDecreasing(s: seq<nat>) {
    forall i, j :: 0 <= i <= j < |s| ==> s[i] <= s[j]
  }

  lemma {:induction false} InsertBounded(b: nat, x: nat, s: seq<nat>)
    requires b <= x && forall i :: 0 <= i < |s| ==> b <= s[i]
    ensures forall i :: 0 <= i < |s| + 1 ==> b <= Insert(x, s)[i]
  {
    if s != [] && s[0] < x {
      InsertBounded(b, x, s[1..]);
    }
  }

  lemma ConsSorted(x: nat, s: seq<nat>)
    requires NonDecreasing(s) && forall i :: 0 <= i < |s| ==> x <= s[i]
    ensures NonDecreasing([x] + s)
  {}

  lemma {:induction false} InsertSorted(x: nat, s: seq<nat>)
    requires NonDecreasing(s)
    ensures NonDecreasing(Insert(x, s))
  {
    if s != [] && s[0] < x {
      InsertSorted(x, s[1..]);
      InsertBounded(s[0], x, s[1..]);
      ConsSorted(s[0], Insert(x, s[1..]));
    } else {
      ConsSorted(x, s);
    }
  }

  lemma {:induction false} SortSorts(s: seq<nat>)
    ensures NonDecreasing(Sort(s))
  {
    if s != [] {
      SortSorts(s[1..]);
      InsertSorted(s[0], Sort(s[1..]));
    }
  }

  /** What `select_nth_unstable(k)` returns: the `k`-th smallest element. */
  function OrderStatistic(s: seq<nat>, k: nat): nat
    requires k < |s|
  {
    Sort(s)[k]
  }

  lemma OrderStatisticMonotone(s: seq<nat>, j: nat, k: nat)
    requires j <= k < |s|
    ensures OrderStatistic(s, j) <= OrderStatistic(s, k)
  {
    SortSorts(s);
  }

  lemma HeadIsLeast(a: seq<nat>, b: seq<nat>)
    requires NonDecreasing(b) && multiset(a) == multiset(b) && a != [] && b != []
    ensures b[0] <= a[0]
  {
    assert a[0] in multiset(b);
    var j :| 0 <= j < |b| && b[j] == a[0];
  }

  /** Two sorted sequences with the same elements are equal. */
  lemma {:induction false} SortedUnique(a: seq<nat>, b: seq<nat>)
    requires NonDecreasing(a) && NonDecreasing(b) && multiset(a) == multiset(b)
    ensures a == b
  {
    assert |multiset(a)| == |a| && |multiset(b)| == |b|;
    if a != [] {
      HeadIsLeast(a, b);
      HeadIsLeast(b, a);
      TailElements(a);
      TailElements(b);
      SortedUnique(a[1..], b[1..]);
    }
  }

  lemma TailElements(a: seq<nat>)
    requires a != []
    ensures multiset(a[1..]) == multiset(a) - multiset{a[0]}
    ensures a == [a[0]] + a[1..]
  {
    assert a == [a[0]] + a[1..];
  }

  /** Selecting reorders its slice; a later selection on the reordered slice is not affected. */
  lemma OrderStatisticOfPermutation(s: seq<nat>, t: seq<nat>, k: nat)
    requires k < |s| && |s| == |t| && multiset(s) == multiset(t)
    ensures OrderStatistic(s, k) == OrderStatistic(t, k)
  {
    SortSorts(s);
    SortSorts(t);
    SortedUnique(Sort(s), Sort(t));
  }

  // ----- Counting -----

  function CountBelow(s: seq<nat>, v: nat): (n: nat)
    ensures n <= |s|
  {
    if s == [] then 0 else (if s[0] < v then 1 else 0) + CountBelow(s[1..], v)
  }

  /** `v` is the value with `k` of the others before it: at most `k` are smaller, and more than `k` are no larger. */
  predicate IsRanked(s: seq<nat>, k: nat, v: nat) {
    v in s && CountBelow(s, v) <= k < CountBelow(s, v + 1)
  }

  lemma {:induction false} CountMonotone(s: seq<nat>, v: nat, w: nat)
    requires v <= w
    ensures CountBelow(s, v) <= CountBelow(s, w)
  {
    if s != [] { CountMonotone(s[1..], v, w); }
  }

  /** There is only one such value. */
  lemma RankedUnique(s: seq<nat>, k: nat, v: nat, w: nat)
    requires IsRanked(s, k, v) && IsRanked(s, k, w)
    ensures v == w
  {
    if v < w { CountMonotone(s, v + 1, w); }
    if w < v { CountMonotone(s, w + 1, v); }
  }

  lemma {:induction false} CountInsert(x: nat, s: seq<nat>, v: nat)
    ensures CountBelow(Insert(x, s), v) == CountBelow(s, v) + if x < v then 1 else 0
  {
    if s == [] || x <= s[0] {
      assert ([x] + s)[1..] == s;
    } else {
      CountInsert(x, s[1..], v);
      assert ([s[0]] + Insert(x, s[1..]))[1..] == Insert(x, s[1..]);
    }
  }

  lemma {:induction false} CountSort(s: seq<nat>, v: nat)
    ensures CountBelow(Sort(s), v) == CountBelow(s, v)
  {
    if s != [] {
      CountSort(s[1..], v);
      CountInsert(s[0], Sort(s[1..]), v);
    }
  }

  /** In a sorted sequence the elements below `v` are the first ones. */
  lemma {:induction false} CountSorted(s: seq<nat>, k: nat, v: nat)
    requires NonDecreasing(s) && k <= |s|
    ensures (forall i :: k <= i < |s| ==> s[i] >= v) ==> CountBelow(s, v) <= k
    ensures (forall i :: 0 <= i < k ==> s[i] < v) ==> CountBelow(s, v) >= k
  {
    if s != [] {
      var rest := s[1..];
      assert forall i :: 0 <= i < |rest| ==> rest[i] == s[i + 1];
      CountSorted(rest, if k == 0 then 0 else k - 1, v);
    }
  }

  lemma OrderStatisticIsRanked(s: seq<nat>, k: nat)
    requires k < |s|
    ensures IsRanked(s, k, OrderStatistic(s, k))
  {
    var v := OrderStatistic(s, k);
    SortSorts(s);
    CountSort(s, v);
    CountSort(s, v + 1);
    RankedOfSorted(s, Sort(s), k);
  }

  lemma RankedOfSorted(s: seq<nat>, t: seq<nat>, k: nat)
    requires NonDecreasing(t) && multiset(s) == multiset(t) && k < |t|
    requires CountBelow(s, t[k]) == CountBelow(t, t[k]) && CountBelow(s, t[k] + 1) == CountBelow(t, t[k] + 1)
    ensures IsRanked(s, k, t[k])
  {
    CountSorted(t, k, t[k]);
    CountSorted(t, k + 1, t[k] + 1);
    assert t[k] in multiset(t);
  }

  // ----- One difficulty -----

  function DivCeil(a: nat, b: nat): nat
    requires b > 0
  {
    (a + b - 1) / b
  }

  /** The part of the window that is accounted for: outliers are cut evenly, one more at the low end. */
  function WindowStartAndEnd(windowLen: nat, accounted: nat, window: nat): (r: (nat, nat))
    ensures var n := if windowLen > window then window else windowLen;
            && r.0 <= r.1 <= n
            && r.1 - r.0 == (if n <= accounted then n else accounted)
            && 0 <= r.0 - (n - r.1) <= 1
  {
    var n := if windowLen > window then window else windowLen;
    if n <= accounted then (0, n)
    else
      var start := DivCeil(n - accounted, 2);
      (start, start + accounted)
  }

  predicate StrictlyIncreasing(s: seq<nat>) {
    forall i, j :: 0 <= i < j < |s| ==> s[i] < s[j]
  }

  /** The configurations and windows for which no subtraction below underflows. */
  predicate Usable(config: Config, timestamps: seq<nat>, cumulatives: seq<nat>) {
    && |timestamps| == |cumulatives|
    && (config.fixedDifficulty == None ==> 2 * config.cut < config.window && NonDecreasing(cumulatives))
  }

  function AccountedWindow(config: Config): nat
    requires 2 * config.cut <= config.window
  {
    config.window - 2 * config.cut
  }

  function Next(config: Config, timestamps: seq<nat>, cumulatives: seq<nat>, hf: HardFork): nat
    requires Usable(config, timestamps, cumulatives)
  {
    if config.fixedDifficulty.Some? then config.fixedDifficulty.value
    else if |timestamps| <= 1 then 1
    else
      var slice := if |timestamps| > config.window then timestamps[..config.window] else timestamps;
      var (start, end) := WindowStartAndEnd(|slice|, AccountedWindow(config), config.window);
      OrderStatisticMonotone(slice, start, end - 1);
      var span := OrderStatistic(slice, end - 1) - OrderStatistic(slice, start);
      var work := cumulatives[end - 1] - cumulatives[start];
      DivCeil(work * BlockTime(hf), if span == 0 then 1 else span)
  }

  function NextOf(s: State, hf: HardFork): nat
    requires Usable(s.config, s.timestamps, s.cumulativeDifficulties)
  {
    Next(s.config, s.timestamps, s.cumulativeDifficulties, hf)
  }

  /** `cumulative_difficulty`: the genesis block has a difficulty of 1. */
  function CumulativeDifficulty(s: State): nat {
    if s.cumulativeDifficulties == [] then 1 else s.cumulativeDifficulties[|s.cumulativeDifficulties| - 1]
  }

  /** It is the work of the top block, as long as the window holds it. */
  lemma CumulativeOfTop(chain: Chain, height: nat, config: Config)
    requires 1 <= height <= |chain| && config.window > 0
    ensures CumulativeDifficulty(CacheAt(chain, height, config)) ==
            if height == 1 then 1 else chain[height - 1].cumulativeDifficulty
  {
    var size := |CacheAt(chain, height, config).timestamps|;
    WindowHolds(chain, height, config, if size == 0 then 0 else size - 1);
  }

  /** The quotient is the least number of spans that cover the work. */
  lemma DivCeilIsLeast(a: nat, b: nat)
    requires b > 0
    ensures a <= DivCeil(a, b) * b
    ensures forall q: nat :: a <= q * b ==> DivCeil(a, b) <= q
  {
    var r := DivCeil(a, b);
    DivisionBounds(a + b - 1, b);
    forall q: nat | q < r
      ensures q * b < a
    {
      TooFew(q, r, a, b);
    }
  }

  lemma DivisionBounds(x: nat, b: nat)
    requires b > 0
    ensures x / b * b <= x < x / b * b + b
  {
    assert x == x / b * b + x % b;
  }

  lemma TooFew(q: nat, r: nat, a: nat, b: nat)
    requires b > 0 && q < r && r * b < a + b
    ensures q * b < a
  {
    assert (q + 1) * b <= r * b;
  }

  lemma DivCeilPositive(a: nat, b: nat)
    requires b > 0
    ensures DivCeil(a, b) >= 1 <==> a >= 1
  {}

  /** The accounted part of a window of `n` blocks: as long as allowed, and in the middle, later if uneven. */
  predicate IsAccountedPart(n: nat, accounted: nat, start: nat, end: nat) {
    && start <= end <= n
    && end - start == (if n <= accounted then n else accounted)
    && 0 <= start - (n - end) <= 1
  }

  /** Without a window to speak of: the fixed difficulty, or 1. */
  lemma NextEarly(config: Config, timestamps: seq<nat>, cumulatives: seq<nat>, hf: HardFork)
    requires Usable(config, timestamps, cumulatives)
    ensures config.fixedDifficulty.Some? ==> Next(config, timestamps, cumulatives, hf) == config.fixedDifficulty.value
    ensures config.fixedDifficulty.None? && |timestamps| <= 1 ==> Next(config, timestamps, cumulatives, hf) == 1
  {}

  lemma NextIs(config: Config, timestamps: seq<nat>, cumulatives: seq<nat>, hf: HardFork,
               slice: seq<nat>, start: nat, end: nat)
    requires Usable(config, timestamps, cumulatives)
    requires config.fixedDifficulty.None? && |timestamps| >= 2
    requires slice == if |timestamps| > config.window then timestamps[..config.window] else timestamps
    requires (start, end) == WindowStartAndEnd(|slice|, AccountedWindow(config), config.window)
    ensures start < end <= |slice| && cumulatives[start] <= cumulatives[end - 1]
    ensures var lo, hi := OrderStatistic(slice, start), OrderStatistic(slice, end - 1);
            && lo <= hi
            && Next(config, timestamps, cumulatives, hf) ==
               DivCeil((cumulatives[end - 1] - cumulatives[start]) * BlockTime(hf), if lo == hi then 1 else hi - lo)
  {
    OrderStatisticMonotone(slice, start, end - 1);
  }

  /**
    Otherwise: the least difficulty at which the work of the accounted part, at one block per target
    time, covers the time it took. That time is the difference of two ranked timestamps of the window.
  */
  lemma NextIsLeast(config: Config, timestamps: seq<nat>, cumulatives: seq<nat>, hf: HardFork)
    returns (start: nat, end: nat, lo: nat, hi: nat)
    requires Usable(config, timestamps, cumulatives)
    requires config.fixedDifficulty.None? && |timestamps| >= 2
    ensures var n := if |timestamps| > config.window then config.window else |timestamps|;
            && IsAccountedPart(n, config.window - 2 * config.cut, start, end) && start < end
            && IsRanked(timestamps[..n], start, lo) && IsRanked(timestamps[..n], end - 1, hi) && lo <= hi
    ensures end <= |cumulatives| && cumulatives[start] <= cumulatives[end - 1]
    ensures var q := Next(config, timestamps, cumulatives, hf);
            var work := (cumulatives[end - 1] - cumulatives[start]) * if hf == 1 then 60 else 120;
            var span := if lo == hi then 1 else hi - lo;
            work <= q * span && forall p: nat :: work <= p * span ==> q <= p
  {
    var n := if |timestamps| > config.window then config.window else |timestamps|;
    var slice := timestamps[..n];
    assert |timestamps| <= config.window ==> slice == timestamps;
    var (s, e) := WindowStartAndEnd(n, AccountedWindow(config), config.window);
    start, end := s, e;
    lo, hi := OrderStatistic(slice, start), OrderStatistic(slice, end - 1);
    OrderStatisticMonotone(slice, start, end - 1);
    OrderStatisticIsRanked(slice, start);
    OrderStatisticIsRanked(slice, end - 1);
    NextIs(config, timestamps, cumulatives, hf, slice, start, end);
    DivCeilIsLeast((cumulatives[end - 1] - cumulatives[start]) * BlockTime(hf), if lo == hi then 1 else hi - lo);
  }

  /** With strictly increasing work, the difficulty is positive exactly when at least two blocks count. */
  lemma PositiveExactly(config: Config, timestamps: seq<nat>, cumulatives: seq<nat>, hf: HardFork)
    requires Usable(config, timestamps, cumulatives)
    requires config.fixedDifficulty == None && |timestamps| >= 2
    requires StrictlyIncreasing(cumulatives)
    ensures Next(config, timestamps, cumulatives, hf) >= 1 <==> AccountedWindow(config) >= 2
  {
    var slice := if |timestamps| > config.window then timestamps[..config.window] else timestamps;
    var (start, end) := WindowStartAndEnd(|slice|, AccountedWindow(config), config.window);
    NextIs(config, timestamps, cumulatives, hf, slice, start, end);
    var span := OrderStatistic(slice, end - 1) - OrderStatistic(slice, start);
    DivCeilPositive((cumulatives[end - 1] - cumulatives[start]) * BlockTime(hf), if span == 0 then 1 else span);
  }

  /** A window of three that leaves out one block at each end accounts for one block, and asks for nothing. */
  lemma NarrowWindowAsksNothing(hf: HardFork)
    ensures Next(Config(3, 1, 0, None), [0, 120, 240], [10, 20, 30], hf) == 0
  {
    PositiveExactly(Config(3, 1, 0, None), [0, 120, 240], [10, 20, 30], hf);
  }

  // ----- Several difficulties -----

  /** The blocks of a batch: timestamp, and the hard fork of the block after it. */
  type Batch = seq<(nat, HardFork)>

  predicate UsableState(s: State) {
    Usable(s.config, s.timestamps, s.cumulativeDifficulties)
  }

  /** The fork that applies to the block after the first blocks of a batch. */
  function ForkAfter(current: HardFork, blocks: Batch): HardFork {
    if blocks == [] then current else blocks[|blocks| - 1].1
  }

  /** Block admission: the new cumulative difficulty adds the difficulty the cache asks for. */
  function Admit(s: State, hf: HardFork, timestamp: nat): (r: State)
    requires UsableState(s)
    ensures UsableState(r)
  {
    var cumulative := CumulativeDifficulty(s) + NextOf(s, hf);
    NewBlock(s, timestamp, cumulative)
  }

  function AdmitAll(s: State, current: HardFork, blocks: Batch): (r: State)
    requires UsableState(s)
    ensures UsableState(r)
  {
    if blocks == [] then s
    else
      var front := blocks[..|blocks| - 1];
      Admit(AdmitAll(s, current, front), ForkAfter(current, front), blocks[|blocks| - 1].0)
  }

  lemma AdmitAllStep(s: State, current: HardFork, blocks: Batch, k: nat)
    requires UsableState(s) && k < |blocks|
    ensures AdmitAll(s, current, blocks[..k + 1]) ==
            Admit(AdmitAll(s, current, blocks[..k]), ForkAfter(current, blocks[..k]), blocks[k].0)
    ensures ForkAfter(current, blocks[..k + 1]) == blocks[k].1
  {
    assert blocks[..k + 1][..k] == blocks[..k];
  }

  type NextFunction = (seq<nat>, seq<nat>, HardFork) -> nat

  /** `t` is `s` after admitting a block at the difficulty `next` gives. */
  predicate StepsTo(next: NextFunction, s: State, hf: HardFork, timestamp: nat, t: State) {
    && |s.timestamps| == |s.cumulativeDifficulties|
    && t == NewBlock(s, timestamp, CumulativeDifficulty(s) + next(s.timestamps, s.cumulativeDifficulties, hf))
  }

  /** One speculative block on copies of the deques. */
  method Slide(config: Config, timestamps: seq<nat>, cumulatives: seq<nat>, timestamp: nat, difficulty: nat,
               ghost g: State)
    returns (t: seq<nat>, c: seq<nat>)
    requires g.config == config && g.timestamps == timestamps && g.cumulativeDifficulties == cumulatives
    requires |timestamps| == |cumulatives|
    ensures var r := NewBlock(g, timestamp, CumulativeDifficulty(g) + difficulty);
            t == r.timestamps && c == r.cumulativeDifficulties
  {
    t := timestamps + [timestamp];
    var last := if cumulatives == [] then 1 else cumulatives[|cumulatives| - 1];
    c := cumulatives + [last + difficulty];
    if |t| > config.TotalBlockCount() {
      t, c := t[1..], c[1..];
    }
  }

  /** The forks that apply along a batch, starting with the current one. */
  predicate AreForks(forks: seq<HardFork>, current: HardFork, blocks: Batch) {
    && |forks| == |blocks| + 1 && forks[0] == current
    && forall k :: 0 <= k < |blocks| ==> forks[k + 1] == blocks[k].1
  }

  /** The loop over copies, for any difficulty function, against the states of a real run. */
  method Speculate(next: NextFunction, s: State, blocks: Batch, current: HardFork,
                   ghost states: seq<State>, ghost forks: seq<HardFork>)
    returns (difficulties: seq<nat>)
    requires |states| == |blocks| + 1 && states[0] == s && AreForks(forks, current, blocks)
    requires forall k :: 0 <= k < |blocks| ==> StepsTo(next, states[k], forks[k], blocks[k].0, states[k + 1])
    ensures |difficulties| == |blocks| + 1
    ensures forall i :: 0 <= i <= |blocks| ==>
              difficulties[i] == next(states[i].timestamps, states[i].cumulativeDifficulties, forks[i])
  {
    var timestamps, cumulatives := s.timestamps, s.cumulativeDifficulties;
    difficulties := [next(timestamps, cumulatives, current)];
    for k := 0 to |blocks|
      invariant |difficulties| == k + 1
      invariant timestamps == states[k].timestamps && cumulatives == states[k].cumulativeDifficulties
      invariant states[k].config == s.config
      invariant forall i :: 0 <= i <= k ==>
                  difficulties[i] == next(states[i].timestamps, states[i].cumulativeDifficulties, forks[i])
    {
      assert StepsTo(next, states[k], forks[k], blocks[k].0, states[k + 1]);
      timestamps, cumulatives := Slide(s.config, timestamps, cumulatives, blocks[k].0, difficulties[k], states[k]);
      difficulties := difficulties + [next(timestamps, cumulatives, blocks[k].1)];
    }
  }

  function NextUnder(config: Config): NextFunction {
    (t, c, hf) => if Usable(config, t, c) then Next(config, t, c, hf) else 0
  }

  /** The states after each prefix of the batch has really been applied. */
  function Applied(s: State, current: HardFork, blocks: Batch): (states: seq<State>)
    requires UsableState(s)
    ensures |states| == |blocks| + 1
    ensures forall i :: 0 <= i <= |blocks| ==> states[i] == AdmitAll(s, current, blocks[..i])
  {
    seq(|blocks| + 1, i requires 0 <= i <= |blocks| => AdmitAll(s, current, blocks[..i]))
  }

  lemma {:induction false} AdmitAllConfig(s: State, current: HardFork, blocks: Batch)
    requires UsableState(s)
    ensures AdmitAll(s, current, blocks).config == s.config
  {
    if blocks != [] { AdmitAllConfig(s, current, blocks[..|blocks| - 1]); }
  }

  lemma AdmitSteps(s: State, hf: HardFork, timestamp: nat)
    requires UsableState(s)
    ensures StepsTo(NextUnder(s.config), s, hf, timestamp, Admit(s, hf, timestamp))
  {}

  /** What `next_difficulties` returns is what really applying the blocks one by one would ask for. */
  method NextDifficulties(s: State, blocks: Batch, current: HardFork) returns (difficulties: seq<nat>)
    requires UsableState(s)
    ensures |difficulties| == |blocks| + 1
    ensures forall i :: 0 <= i <= |blocks| ==>
              difficulties[i] == NextOf(AdmitAll(s, current, blocks[..i]), ForkAfter(current, blocks[..i]))
  {
    ghost var states := Applied(s, current, blocks);
    ghost var forks := seq(|blocks| + 1, i requires 0 <= i <= |blocks| => ForkAfter(current, blocks[..i]));
    ghost var next := NextUnder(s.config);
    forall k | 0 <= k < |blocks|
      ensures StepsTo(next, states[k], forks[k], blocks[k].0, states[k + 1]) && forks[k + 1] == blocks[k].1
    {
      AdmitAllStep(s, current, blocks, k);
      AdmitAllConfig(s, current, blocks[..k]);
      AdmitSteps(states[k], forks[k], blocks[k].0);
    }
    difficulties := Speculate(NextUnder(s.config), s, blocks, current, states, forks);
    forall i | 0 <= i <= |blocks|
      ensures difficulties[i] == NextOf(AdmitAll(s, current, blocks[..i]), ForkAfter(current, blocks[..i]))
    {
      AdmitAllConfig(s, current, blocks[..i]);
      NextUnderIs(states[i], forks[i]);
    }
  }

  lemma NextUnderIs(s: State, hf: HardFork)
    requires UsableState(s)
    ensures NextUnder(s.config)(s.timestamps, s.cumulativeDifficulties, hf) == NextOf(s, hf)
  {}

  // ----- Whole runs -----

  /** Every difficulty along a run of admitted blocks is positive and the work keeps growing. */
  lemma {:induction false} RunStaysPositive(s: State, current: HardFork, blocks: Batch)
    requires UsableState(s) && s.config.fixedDifficulty == None && AccountedWindow(s.config) >= 2
    requires StrictlyIncreasing(s.cumulativeDifficulties)
    ensures var r := AdmitAll(s, current, blocks);
            && r.config == s.config
            && StrictlyIncreasing(r.cumulativeDifficulties)
            && NextOf(r, ForkAfter(current, blocks)) >= 1
  {
    var r := AdmitAll(s, current, blocks);
    if blocks != [] {
      var front := blocks[..|blocks| - 1];
      RunStaysPositive(s, current, front);
    }
    if |r.timestamps| >= 2 {
      PositiveExactly(r.config, r.timestamps, r.cumulativeDifficulties, ForkAfter(current, blocks));
    }
  }
}
