/**
  What phase one of `random_math_init` does with each draw, in terms of the program built so far, and
  the run of draws that results. Nothing here refers to the tables the generator keeps.
*/
module RandomMathRun {
  import opened Bytes
  import opened RandomMathProgram
  import opened RandomMathSchedule
  import opened RandomMathStream

  // ----- The fate of one draw -----

  /** Both redundancy tests let the instruction through (lines 203-219). */
  ghost predicate Passes(p: Program, i: Instruction)
    requires AllWellFormed(p) && WellFormed(i)
  {
    var w := LastWriter(p, i.dst);
    w >= 0 ==>
      && !(IsRotation(i.opcode) && IsRotation(p[w].opcode))
      && !(p[w].opcode == i.opcode != Mul && (SameSource(p + [i], w, |p|) || Aliases(p, w, p[w].src, i.src)))
  }

  /** ALU `alu` can start the instruction in this cycle. */
  ghost predicate CanStart(p: Program, slots: seq<Slot>, i: Instruction, cycle: nat, alu: nat)
    requires |p| == |slots|
  {
    && alu < OpAlus(i.opcode)
    && (IsRotation(i.opcode) ==> 2 * Rotations(p) <= cycle)
    && forall k :: 0 <= k < |p| ==> !Clash(p[k], slots[k], i, Slot(cycle, alu))
  }

  ghost predicate SomeCanStart(p: Program, slots: seq<Slot>, i: Instruction, cycle: nat)
    requires |p| == |slots|
  {
    exists alu :: CanStart(p, slots, i, cycle, alu)
  }

  /** The first cycle, once both operands are ready, in which some ALU can start it; 45 if there is none. */
  ghost predicate FirstStart(p: Program, slots: seq<Slot>, i: Instruction, cycle: nat)
    requires |p| == |slots|
  {
    && ReadyAt(p, slots, i.dst) <= cycle && ReadyAt(p, slots, i.src) <= cycle <= TOTAL_LATENCY
    && (forall c: nat :: ReadyAt(p, slots, i.dst) <= c && ReadyAt(p, slots, i.src) <= c < cycle ==>
          !SomeCanStart(p, slots, i, c))
    && (cycle < TOTAL_LATENCY ==> SomeCanStart(p, slots, i, cycle))
  }

  /** Skipped: refused as redundant, or its register would idle for too long. Late: no room left before the end. */
  datatype Placement = Skipped | Late | At(slot: Slot)

  /** What a first possible cycle means for an instruction that passes the filters. */
  ghost predicate Decides(p: Program, slots: seq<Slot>, i: Instruction, cycle: nat, r: Placement)
    requires |p| == |slots|
  {
    match r
    case Skipped => cycle > ReadyAt(p, slots, i.dst) + 7
    case Late => cycle <= ReadyAt(p, slots, i.dst) + 7 && cycle + OpLatency(i.opcode) > TOTAL_LATENCY
    case At(s) =>
      && cycle <= ReadyAt(p, slots, i.dst) + 7 && cycle + OpLatency(i.opcode) <= TOTAL_LATENCY
      && s.start == cycle && CanStart(p, slots, i, cycle, s.alu)
      && forall alu :: s.alu < alu ==> !CanStart(p, slots, i, cycle, alu)
  }

  /** What becomes of a draw: exactly one of the three. */
  ghost predicate Fate(p: Program, slots: seq<Slot>, i: Instruction, r: Placement)
    requires AllWellFormed(p) && WellFormed(i) && |p| == |slots|
  {
    if Passes(p, i) then exists c :: FirstStart(p, slots, i, c) && Decides(p, slots, i, c, r) else r == Skipped
  }

  lemma FirstStartUnique(p: Program, slots: seq<Slot>, i: Instruction, c: nat, d: nat)
    requires |p| == |slots| && FirstStart(p, slots, i, c) && FirstStart(p, slots, i, d)
    ensures c == d
  {}

  lemma FateUnique(p: Program, slots: seq<Slot>, i: Instruction, r: Placement, s: Placement)
    requires AllWellFormed(p) && WellFormed(i) && |p| == |slots|
    requires Fate(p, slots, i, r) && Fate(p, slots, i, s)
    ensures r == s
  {
    if Passes(p, i) {
      var c :| FirstStart(p, slots, i, c) && Decides(p, slots, i, c, r);
      var d :| FirstStart(p, slots, i, d) && Decides(p, slots, i, d, s);
      FirstStartUnique(p, slots, i, c, d);
      if r.At? && s.At? {
        assert !(r.slot.alu < s.slot.alu) && !(s.slot.alu < r.slot.alu);
      }
    }
  }

  // ----- Runs -----

  /** Where phase one stands: the stream, the program and its schedule, late draws and all draws. */
  datatype Progress = Progress(at: Position, p: Program, slots: seq<Slot>, late: nat, draws: nat)

  predicate IsProgress(x: Progress) {
    IsPosition(x.at) && |x.p| == |x.slots| && AllWellFormed(x.p)
  }

  function Started(at: Position): Progress {
    Progress(at, [], [], 0, 0)
  }

  predicate AllBusy(r0: nat, r1: nat, r2: nat, r3: nat) {
    r0 >= TOTAL_LATENCY && r1 >= TOTAL_LATENCY && r2 >= TOTAL_LATENCY && r3 >= TOTAL_LATENCY
  }

  /** One of the four reasons to stop: all registers busy to the end, 60 instructions, 64 late draws, 256 draws. */
  predicate Done(x: Progress)
    requires |x.p| == |x.slots|
  {
    || AllBusy(
         ReadyAt(x.p, x.slots, 0), ReadyAt(x.p, x.slots, 1), ReadyAt(x.p, x.slots, 2), ReadyAt(x.p, x.slots, 3))
    || |x.p| >= NUM_INSTRUCTIONS_MIN
    || x.late >= 64
    || x.draws >= 256
  }

  function Moved(blake: Blake, x: Progress, r: Placement): (y: Progress)
    requires DigestsTo32(blake) && IsProgress(x)
    ensures IsProgress(y)
  {
    var (i, at) := DrawnAt(blake, x.at);
    match r
    case Skipped => x.(at := at, draws := x.draws + 1)
    case Late => x.(at := at, draws := x.draws + 1, late := x.late + 1)
    case At(s) =>
      var (kept, after) := Completed(blake, i, at);
      Progress(after, x.p + [kept], x.slots + [s], x.late, x.draws + 1)
  }

  ghost predicate StepsTo(blake: Blake, x: Progress, y: Progress)
    requires DigestsTo32(blake) && IsProgress(x)
  {
    exists r :: Fate(x.p, x.slots, DrawnAt(blake, x.at).0, r) && y == Moved(blake, x, r)
  }

  ghost predicate StepAt(blake: Blake, run: seq<Progress>, k: nat)
    requires DigestsTo32(blake) && k + 1 < |run|
  {
    IsProgress(run[k]) && !Done(run[k]) && StepsTo(blake, run[k], run[k + 1])
  }

  /** Draws in turn, none of them after a reason to stop. */
  ghost predicate IsRun(blake: Blake, run: seq<Progress>)
    requires DigestsTo32(blake)
  {
    && |run| > 0 && IsProgress(run[|run| - 1])
    && forall k {:trigger StepAt(blake, run, k)} :: 0 <= k < |run| - 1 ==> StepAt(blake, run, k)
  }

  /** A run from `at` that has come to `x`. */
  ghost predicate ReachedBy(blake: Blake, at: Position, run: seq<Progress>, x: Progress)
    requires DigestsTo32(blake)
  {
    IsRun(blake, run) && run[0] == Started(at) && run[|run| - 1] == x
  }

  /** A whole phase one that starts reading at `at` and ends in `x`. */
  ghost predicate IsPhaseOne(blake: Blake, at: Position, run: seq<Progress>, x: Progress)
    requires DigestsTo32(blake)
  {
    ReachedBy(blake, at, run, x) && Done(x)
  }

  lemma RunExtended(blake: Blake, run: seq<Progress>, y: Progress)
    requires DigestsTo32(blake) && IsRun(blake, run)
    requires !Done(run[|run| - 1]) && StepsTo(blake, run[|run| - 1], y)
    ensures IsRun(blake, run + [y])
  {
    var longer := run + [y];
    var x := run[|run| - 1];
    var r :| Fate(x.p, x.slots, DrawnAt(blake, x.at).0, r) && y == Moved(blake, x, r);
    forall k | 0 <= k < |longer| - 1
      ensures StepAt(blake, longer, k)
    {
      if k < |run| - 1 {
        assert StepAt(blake, run, k);
      }
    }
  }

  lemma StepUnique(blake: Blake, x: Progress, y: Progress, z: Progress)
    requires DigestsTo32(blake) && IsProgress(x) && StepsTo(blake, x, y) && StepsTo(blake, x, z)
    ensures y == z
  {
    var i := DrawnAt(blake, x.at).0;
    var r :| Fate(x.p, x.slots, i, r) && y == Moved(blake, x, r);
    var s :| Fate(x.p, x.slots, i, s) && z == Moved(blake, x, s);
    FateUnique(x.p, x.slots, i, r, s);
  }

  /** The bytes decide everything: there is only one phase one from a given position. */
  lemma PhaseOneUnique(
      blake: Blake, at: Position, run: seq<Progress>, x: Progress, other: seq<Progress>, y: Progress)
    requires DigestsTo32(blake) && IsPhaseOne(blake, at, run, x) && IsPhaseOne(blake, at, other, y)
    ensures run == other && x == y
  {
    var n := if |run| <= |other| then |run| - 1 else |other| - 1;
    forall k | 0 <= k <= n
      ensures run[k] == other[k]
    {
      RunsAgree(blake, run, other, k);
    }
    StopsWhenDone(blake, run, n);
    StopsWhenDone(blake, other, n);
  }

  lemma StopsWhenDone(blake: Blake, run: seq<Progress>, n: nat)
    requires DigestsTo32(blake) && IsRun(blake, run) && n < |run| && |run[n].p| == |run[n].slots|
    ensures Done(run[n]) ==> n == |run| - 1
  {
    assert n < |run| - 1 ==> StepAt(blake, run, n);
  }

  lemma {:induction false} RunsAgree(blake: Blake, run: seq<Progress>, other: seq<Progress>, n: nat)
    requires DigestsTo32(blake) && IsRun(blake, run) && IsRun(blake, other) && run[0] == other[0]
    requires n < |run| && n < |other|
    ensures run[n] == other[n]
  {
    if n > 0 {
      RunsAgree(blake, run, other, n - 1);
      NextAgrees(blake, run, other, n - 1);
    }
  }

  lemma NextAgrees(blake: Blake, run: seq<Progress>, other: seq<Progress>, n: nat)
    requires DigestsTo32(blake) && IsRun(blake, run) && IsRun(blake, other)
    requires n + 1 < |run| && n + 1 < |other| && run[n] == other[n]
    ensures run[n + 1] == other[n + 1]
  {
    assert StepAt(blake, run, n) && StepAt(blake, other, n);
    StepUnique(blake, run[n], run[n + 1], other[n + 1]);
  }
}
