/**
  The CryptoNight-R program generator (`random_math_init` in `cryptonight/src/hash_v4.rs`).

  Phase one draws instructions from a hash-driven byte stream and schedules them on three ALUs;
  phase two lengthens the program until an ideal circuit needs enough cycles for it. The tables
  the generator keeps are related to the program built so far by `Describes`, whose parts are
  defined without reference to the generator.
*/
module RandomMathGenerator {
  import opened Wrappers
  import opened Bytes
  import opened RandomMathProgram
  import opened RandomMathSchedule
  import opened RandomMathStream
  import opened RandomMathRun

  // ----- Finding an ALU -----

  predicate IsBusyTable(busy: seq<seq<bool>>) {
    |busy| == TOTAL_LATENCY + 1 && forall c :: 0 <= c < |busy| ==> |busy[c]| == ALU_COUNT
  }

  predicate Free(busy: seq<seq<bool>>, op: Opcode, rotateCount: nat, cycle: nat, alu: nat)
    requires IsBusyTable(busy) && cycle < TOTAL_LATENCY && alu < ALU_COUNT
  {
    && !busy[cycle][alu]
    && !(op == Add && busy[cycle + 1][alu])
    && !(IsRotation(op) && cycle < rotateCount * OpLatency(op))
  }

  /** The first cycle with a free ALU, and the highest-numbered ALU free in it. */
  method FindSlot(busy: seq<seq<bool>>, op: Opcode, rotateCount: nat, from: nat) returns (cycle: nat, alu: int)
    requires IsBusyTable(busy) && from <= TOTAL_LATENCY
    ensures from <= cycle <= TOTAL_LATENCY
    ensures alu == -1 <==> cycle == TOTAL_LATENCY
    ensures alu != -1 ==>
              && 0 <= alu < OpAlus(op)
              && Free(busy, op, rotateCount, cycle, alu)
              && forall j :: alu < j < OpAlus(op) ==> !Free(busy, op, rotateCount, cycle, j)
    ensures forall c, j :: from <= c < cycle && 0 <= j < OpAlus(op) ==> !Free(busy, op, rotateCount, c, j)
  {
    cycle, alu := from, -1;
    while cycle < TOTAL_LATENCY
      invariant from <= cycle <= TOTAL_LATENCY
      invariant alu == -1
      invariant forall c, j :: from <= c < cycle && 0 <= j < OpAlus(op) ==> !Free(busy, op, rotateCount, c, j)
    {
      var i := OpAlus(op);
      while i > 0
        invariant 0 <= i <= OpAlus(op)
        invariant alu == -1
        invariant forall j :: i <= j < OpAlus(op) ==> !Free(busy, op, rotateCount, cycle, j)
      {
        i := i - 1;
        if Free(busy, op, rotateCount, cycle, i) {
          alu := i;
          break;
        }
      }
      if alu >= 0 { break; }
      cycle := cycle + 1;
    }
  }

  // ----- The tables and the program they describe -----

  datatype Tables = Tables(
    latency: seq<nat>, asic: seq<nat>, instData: seq<nat>, busy: seq<seq<bool>>,
    rotated: seq<bool>, rotateCount: nat, r8Used: bool)

  ghost predicate LatencyDescribes(latency: seq<nat>, p: Program, slots: seq<Slot>)
    requires |p| == |slots|
  {
    |latency| == 9 && forall r :: 0 <= r < 9 ==> latency[r] == ReadyAt(p, slots, r)
  }

  /** Every entry is the length of the longest dependency chain into its register. */
  ghost predicate AsicDescribes(asic: seq<nat>, p: Program) {
    |asic| == 9 && forall r :: 0 <= r < 9 ==> asic[r] == LongestChain(p, r)
  }

  ghost predicate BusyDescribes(busy: seq<seq<bool>>, p: Program, slots: seq<Slot>)
    requires |p| == |slots|
  {
    && IsBusyTable(busy)
    && forall c, a :: 0 <= c < |busy| && 0 <= a < ALU_COUNT ==>
         (busy[c][a] <==> exists k :: 0 <= k < |p| && Occupies(p[k], slots[k], c, a))
  }

  predicate LastIsRotation(p: Program, r: nat) {
    LastWriter(p, r) >= 0 && IsRotation(p[LastWriter(p, r)].opcode)
  }

  ghost predicate RotatedDescribes(rotated: seq<bool>, p: Program) {
    |rotated| == 4 && forall r :: 0 <= r < 4 ==> (rotated[r] <==> LastIsRotation(p, r))
  }

  predicate ReadsR8(p: Program) {
    exists k :: 0 <= k < |p| && p[k].src == 8
  }

  ghost predicate TablesDescribe(t: Tables, p: Program, slots: seq<Slot>)
    requires |p| == |slots|
  {
    && LatencyDescribes(t.latency, p, slots)
    && AsicDescribes(t.asic, p)
    && PacksAll(t.instData, p)
    && BusyDescribes(t.busy, p, slots)
    && RotatedDescribes(t.rotated, p)
    && t.rotateCount == Rotations(p)
    && (t.r8Used <==> ReadsR8(p))
  }

  /** What phase one promises of its programs, whatever the random bytes were. */
  ghost predicate IsPhaseOneProgram(p: Program, slots: seq<Slot>) {
    && |p| <= NUM_INSTRUCTIONS_MIN
    && AllWellFormed(p)
    && ValidSchedule(p, slots)
    && NonRedundant(p)
  }

  ghost predicate Describes(t: Tables, p: Program, slots: seq<Slot>) {
    IsPhaseOneProgram(p, slots) && TablesDescribe(t, p, slots)
  }

  function InitialTables(): Tables {
    Tables(
      [0, 0, 0, 0, 0, 0, 0, 0, 0],
      [0, 0, 0, 0, 0, 0, 0, 0, 0],
      [0, 1, 2, 3, 0xFF_FFFF, 0xFF_FFFF, 0xFF_FFFF, 0xFF_FFFF, 0xFF_FFFF],
      seq(TOTAL_LATENCY + 1, _ => [false, false, false]),
      [false, false, false, false], 0, false)
  }

  lemma InitialDescribes()
    ensures Describes(InitialTables(), [], [])
  {}

  function MarkBusy(busy: seq<seq<bool>>, op: Opcode, s: Slot): (marked: seq<seq<bool>>)
    requires IsBusyTable(busy) && s.start < TOTAL_LATENCY && s.alu < ALU_COUNT
    ensures IsBusyTable(marked)
  {
    var first := busy[s.start := busy[s.start][s.alu := true]];
    if op == Add then first[s.start + 1 := first[s.start + 1][s.alu := true]] else first
  }

  /** The updates of lines 262-291 for instruction number `size`. */
  function Place(t: Tables, i: Instruction, s: Slot, size: nat): Tables
    requires |t.latency| == |t.asic| == |t.instData| == 9 && |t.rotated| == 4 && IsBusyTable(t.busy)
    requires i.dst < 4 && i.src < 9 && s.start < TOTAL_LATENCY && s.alu < ALU_COUNT
  {
    Tables(
      t.latency[i.dst := s.start + OpLatency(i.opcode)],
      t.asic[i.dst := Max(t.asic[i.dst], t.asic[i.src]) + AsicLatency(i.opcode)],
      t.instData[i.dst := size + Code(i.opcode) * 0x100 + t.instData[i.src] % 0x100 * 0x1_0000],
      MarkBusy(t.busy, i.opcode, s),
      t.rotated[i.dst := IsRotation(i.opcode)],
      t.rotateCount + if IsRotation(i.opcode) then 1 else 0,
      t.r8Used || i.src == 8)
  }

  lemma PlaceLatency(latency: seq<nat>, p: Program, slots: seq<Slot>, i: Instruction, s: Slot)
    requires |p| == |slots| && i.dst < 4
    requires LatencyDescribes(latency, p, slots)
    ensures LatencyDescribes(latency[i.dst := Finish(i, s)], p + [i], slots + [s])
  {
    forall r: nat | r < 9
      ensures ReadyAt(p + [i], slots + [s], r) == if r == i.dst then Finish(i, s) else ReadyAt(p, slots, r)
    {
      LastWriterAppend(p, i, r);
    }
  }

  lemma PlaceAsic(asic: seq<nat>, p: Program, i: Instruction)
    requires i.dst < 9 && i.src < 9
    requires AsicDescribes(asic, p)
    ensures AsicDescribes(asic[i.dst := Max(asic[i.dst], asic[i.src]) + AsicLatency(i.opcode)], p + [i])
  {
    forall r: nat | r < 9
      ensures LongestChain(p + [i], r) ==
              if r == i.dst then Max(asic[i.dst], asic[i.src]) + AsicLatency(i.opcode) else asic[r]
    {
      LongestChainAppend(p, i, r);
    }
  }

  lemma PlacePacked(instData: seq<nat>, p: Program, i: Instruction)
    requires |p| <= 0xFF && i.dst < 4 && i.src < 9
    requires PacksAll(instData, p)
    ensures PacksAll(
              instData[i.dst := |p| + Code(i.opcode) * 0x100 + instData[i.src] % 0x100 * 0x1_0000], p + [i])
  {
    var q := p + [i];
    PackedBytes(p, i.src);
    assert q[..|p|] == p;
    forall r: nat | r < 9
      ensures r == i.dst ==> Packed(q, r) == |p| + Code(i.opcode) * 0x100 + ValueId(p, i.src) * 0x1_0000
      ensures r != i.dst ==> Packed(q, r) == Packed(p, r)
    {
      LastWriterAppend(p, i, r);
      var w := LastWriter(p, r);
      if r != i.dst && w >= 0 { assert q[..w] == p[..w]; }
    }
  }

  lemma PlaceBusy(busy: seq<seq<bool>>, p: Program, slots: seq<Slot>, i: Instruction, s: Slot)
    requires |p| == |slots| && s.start < TOTAL_LATENCY && s.alu < ALU_COUNT
    requires BusyDescribes(busy, p, slots)
    ensures BusyDescribes(MarkBusy(busy, i.opcode, s), p + [i], slots + [s])
  {
    var marked, q, u := MarkBusy(busy, i.opcode, s), p + [i], slots + [s];
    forall c, a | 0 <= c < |marked| && 0 <= a < ALU_COUNT
      ensures marked[c][a] <==> exists k :: 0 <= k < |q| && Occupies(q[k], u[k], c, a)
    {
      assert marked[c][a] <==> busy[c][a] || Occupies(i, s, c, a);
      if busy[c][a] {
        var k :| 0 <= k < |p| && Occupies(p[k], slots[k], c, a);
        assert Occupies(q[k], u[k], c, a);
      }
      if Occupies(i, s, c, a) {
        assert Occupies(q[|p|], u[|p|], c, a);
      }
      if k :| 0 <= k < |q| && Occupies(q[k], u[k], c, a) {
        if k < |p| { assert Occupies(p[k], slots[k], c, a); }
      }
    }
  }

  lemma PlaceRotated(rotated: seq<bool>, p: Program, i: Instruction)
    requires i.dst < 4 && RotatedDescribes(rotated, p)
    ensures RotatedDescribes(rotated[i.dst := IsRotation(i.opcode)], p + [i])
  {
    forall r: nat | r < 4
      ensures LastIsRotation(p + [i], r) <==> if r == i.dst then IsRotation(i.opcode) else LastIsRotation(p, r)
    {
      LastWriterAppend(p, i, r);
    }
  }

  lemma ReadsR8Append(p: Program, i: Instruction)
    ensures ReadsR8(p + [i]) <==> ReadsR8(p) || i.src == 8
  {
    var q := p + [i];
    assert q[|p|] == i;
    if k :| 0 <= k < |p| && p[k].src == 8 { assert q[k].src == 8; }
  }

  /** The ALU table answers for the program: an ALU is free exactly when it can start the instruction. */
  lemma FreeExactly(t: Tables, p: Program, slots: seq<Slot>, i: Instruction, cycle: nat, alu: nat)
    requires |p| == |slots| && TablesDescribe(t, p, slots) && cycle < TOTAL_LATENCY && alu < OpAlus(i.opcode)
    ensures Free(t.busy, i.opcode, t.rotateCount, cycle, alu) <==> CanStart(p, slots, i, cycle, alu)
  {
    var s := Slot(cycle, alu);
    if Free(t.busy, i.opcode, t.rotateCount, cycle, alu) {
      forall k | 0 <= k < |p|
        ensures !Clash(p[k], slots[k], i, s)
      {
        FreeMeansNoClash(t.busy, p, slots, i, s, k);
      }
    }
    if t.busy[cycle][alu] {
      BusyMeansClash(t.busy, p, slots, i, s, cycle);
    }
    if i.opcode == Add && t.busy[cycle + 1][alu] {
      BusyMeansClash(t.busy, p, slots, i, s, cycle + 1);
    }
  }

  lemma BusyMeansClash(busy: seq<seq<bool>>, p: Program, slots: seq<Slot>, i: Instruction, s: Slot, cycle: nat)
    requires |p| == |slots| && BusyDescribes(busy, p, slots) && cycle <= TOTAL_LATENCY && s.alu < ALU_COUNT
    requires busy[cycle][s.alu] && Occupies(i, s, cycle, s.alu)
    ensures exists k :: 0 <= k < |p| && Clash(p[k], slots[k], i, s)
  {
    var k :| 0 <= k < |p| && Occupies(p[k], slots[k], cycle, s.alu);
    assert Clash(p[k], slots[k], i, s);
  }

  /** A draw that is placed gets a slot the schedule allows. */
  lemma PlacedIsValid(p: Program, slots: seq<Slot>, i: Instruction, cycle: nat, s: Slot)
    requires |p| == |slots| && FirstStart(p, slots, i, cycle) && Decides(p, slots, i, cycle, At(s))
    ensures ValidNext(p, slots, i, s)
  {}

  lemma FreeMeansNoClash(
      busy: seq<seq<bool>>, p: Program, slots: seq<Slot>, i: Instruction, s: Slot, k: nat)
    requires |p| == |slots| && BusyDescribes(busy, p, slots) && k < |p|
    requires s.start < TOTAL_LATENCY && s.alu < ALU_COUNT
    requires !busy[s.start][s.alu] && !(i.opcode == Add && busy[s.start + 1][s.alu])
    ensures !Clash(p[k], slots[k], i, s)
  {
    forall cycle: nat, alu: nat | Occupies(i, s, cycle, alu)
      ensures !Occupies(p[k], slots[k], cycle, alu)
    {
      assert !busy[cycle][alu];
    }
  }

  lemma PlaceTables(t: Tables, p: Program, slots: seq<Slot>, i: Instruction, s: Slot)
    requires |p| == |slots| && TablesDescribe(t, p, slots) && |p| < NUM_INSTRUCTIONS_MIN
    requires i.dst < 4 && i.src < 9 && s.start < TOTAL_LATENCY && s.alu < ALU_COUNT
    ensures TablesDescribe(Place(t, i, s, |p|), p + [i], slots + [s])
  {
    PlaceLatency(t.latency, p, slots, i, s);
    PlaceAsic(t.asic, p, i);
    PlacePacked(t.instData, p, i);
    PlaceBusy(t.busy, p, slots, i, s);
    PlaceRotated(t.rotated, p, i);
    ReadsR8Append(p, i);
    assert (p + [i])[..|p|] == p;
  }

  /** An instruction that passes both filters and gets a valid slot keeps the promises of phase one. */
  lemma PlaceProgram(t: Tables, p: Program, slots: seq<Slot>, i: Instruction, s: Slot)
    requires Describes(t, p, slots) && |p| < NUM_INSTRUCTIONS_MIN
    requires WellFormed(i) && ValidNext(p, slots, i, s)
    requires !(IsRotation(i.opcode) && t.rotated[i.dst])
    requires !Refuses(t.instData, i.opcode, i.dst, i.src)
    ensures IsPhaseOneProgram(p + [i], slots + [s])
  {
    ValidScheduleAppend(p, slots, i, s);
    FilterIsSound(t.instData, p, t.rotated[i.dst], i);
    NonRedundantAppend(p, i);
  }

  lemma PlaceDescribes(t: Tables, p: Program, slots: seq<Slot>, drawn: Instruction, i: Instruction, s: Slot)
    requires Describes(t, p, slots) && |p| < NUM_INSTRUCTIONS_MIN
    requires WellFormed(drawn) && ValidNext(p, slots, drawn, s) && i == drawn.(c := i.c)
    requires !(IsRotation(i.opcode) && t.rotated[i.dst])
    requires !Refuses(t.instData, i.opcode, i.dst, i.src)
    ensures Describes(Place(t, i, s, |p|), p + [i], slots + [s])
  {
    ConstantIrrelevant(p, slots, drawn, i, s);
    PlaceProgram(t, p, slots, i, s);
    PlaceTables(t, p, slots, i, s);
  }

  // ----- Phase one -----

  /** Commits a scheduled instruction, reading the constant of an ADD from the stream. */
  method Commit(stream: ByteStream, t: Tables, drawn: Instruction, s: Slot, size: nat,
                ghost p: Program, ghost slots: seq<Slot>)
    returns (u: Tables, i: Instruction)
    requires stream.Valid()
    requires |p| == size < NUM_INSTRUCTIONS_MIN && Describes(t, p, slots)
    requires WellFormed(drawn) && ValidNext(p, slots, drawn, s)
    requires PassesFilters(t, drawn)
    modifies stream
    ensures stream.Valid()
    ensures (i, stream.At()) == Completed(stream.blake, drawn, old(stream.At()))
    ensures Describes(u, p + [i], slots + [s])
  {
    i := drawn;
    if i.opcode == Add {
      var word := stream.Next(4);
      i := i.(c := WordFromLittleEndian(word));
    }
    PlaceDescribes(t, p, slots, drawn, i, s);
    u := Place(t, i, s, size);
  }

  lemma ConstantIrrelevant(p: Program, slots: seq<Slot>, i: Instruction, j: Instruction, s: Slot)
    requires |p| == |slots| && ValidNext(p, slots, i, s) && j == i.(c := j.c)
    ensures ValidNext(p, slots, j, s)
  {
    forall k | 0 <= k < |p|
      ensures !Clash(p[k], slots[k], j, s)
    {
      assert !Clash(p[k], slots[k], i, s);
      assert forall cycle, alu :: Occupies(j, s, cycle, alu) <==> Occupies(i, s, cycle, alu);
    }
  }

  /** The search finds the first cycle in which the schedule so far lets the instruction start. */
  lemma FoundIsFirst(t: Tables, p: Program, slots: seq<Slot>, i: Instruction, cycle: nat, alu: int)
    requires Describes(t, p, slots) && WellFormed(i)
    requires Max(t.latency[i.dst], t.latency[i.src]) <= cycle <= TOTAL_LATENCY
    requires alu == -1 <==> cycle == TOTAL_LATENCY
    requires alu != -1 ==> 0 <= alu < OpAlus(i.opcode) && Free(t.busy, i.opcode, t.rotateCount, cycle, alu)
    requires alu != -1 ==> forall j :: alu < j < OpAlus(i.opcode) ==> !Free(t.busy, i.opcode, t.rotateCount, cycle, j)
    requires forall c, j :: Max(t.latency[i.dst], t.latency[i.src]) <= c < cycle && 0 <= j < OpAlus(i.opcode) ==>
               !Free(t.busy, i.opcode, t.rotateCount, c, j)
    ensures FirstStart(p, slots, i, cycle)
    ensures alu != -1 ==> CanStart(p, slots, i, cycle, alu) && forall j :: alu < j ==> !CanStart(p, slots, i, cycle, j)
  {
    forall c: nat | Max(t.latency[i.dst], t.latency[i.src]) <= c < cycle
      ensures !SomeCanStart(p, slots, i, c)
    {
      forall j: nat
        ensures !CanStart(p, slots, i, c, j)
      {
        if j < OpAlus(i.opcode) { FreeExactly(t, p, slots, i, c, j); }
      }
    }
    if alu != -1 {
      FreeExactly(t, p, slots, i, cycle, alu);
      forall j: nat | alu < j
        ensures !CanStart(p, slots, i, cycle, j)
      {
        if j < OpAlus(i.opcode) { FreeExactly(t, p, slots, i, cycle, j); }
      }
    }
  }

  method Schedule(t: Tables, i: Instruction, ghost p: Program, ghost slots: seq<Slot>)
    returns (r: Placement, ghost cycle: nat)
    requires Describes(t, p, slots) && WellFormed(i)
    ensures FirstStart(p, slots, i, cycle) && Decides(p, slots, i, cycle, r)
  {
    LatencyBounded(t, p, slots);
    var found, alu := FindSlot(t.busy, i.opcode, t.rotateCount, Max(t.latency[i.dst], t.latency[i.src]));
    FoundIsFirst(t, p, slots, i, found, alu);
    cycle := found;
    if found > t.latency[i.dst] + 7 { return Skipped, cycle; }
    if found + OpLatency(i.opcode) > TOTAL_LATENCY { return Late, cycle; }
    return At(Slot(found, alu)), cycle;
  }

  /** Neither a second rotation in a row nor a repetition of the last write (lines 203-219). */
  predicate PassesFilters(t: Tables, i: Instruction)
    requires |t.rotated| == 4 && |t.instData| == 9 && i.dst < 4 && i.src < 9
  {
    !(IsRotation(i.opcode) && t.rotated[i.dst]) && !Refuses(t.instData, i.opcode, i.dst, i.src)
  }

  /** The tables' tests are those of the program. */
  lemma FiltersAgree(t: Tables, p: Program, slots: seq<Slot>, i: Instruction)
    requires Describes(t, p, slots) && WellFormed(i)
    ensures PassesFilters(t, i) <==> Passes(p, i)
  {
    FilterExactly(t.instData, p, i);
  }

  /** Draws an instruction and decides what becomes of it. */
  method DrawAndSchedule(stream: ByteStream, t: Tables, ghost p: Program, ghost slots: seq<Slot>)
    returns (i: Instruction, r: Placement)
    requires stream.Valid() && Describes(t, p, slots)
    modifies stream
    ensures stream.Valid() && (i, stream.At()) == DrawnAt(stream.blake, old(stream.At()))
    ensures Fate(p, slots, i, r)
    ensures r.At? ==> PassesFilters(t, i) && ValidNext(p, slots, i, r.slot)
  {
    i := Draw(stream);
    FiltersAgree(t, p, slots, i);
    if !PassesFilters(t, i) { return i, Skipped; }
    ghost var cycle;
    r, cycle := Schedule(t, i, p, slots);
    if r.At? { PlacedIsValid(p, slots, i, cycle, r.slot); }
  }

  method Emit(code: array<Instruction>, size: nat, i: Instruction, ghost p: Program)
    requires size < code.Length && p == code[..size]
    modifies code
    ensures code[..size + 1] == p + [i]
  {
    code[size] := i;
  }

  /** One draw: the tables, the program and the run move on together. */
  method OneDraw(code: array<Instruction>, stream: ByteStream, t: Tables, size: nat,
                 ghost run: seq<Progress>, ghost x: Progress)
    returns (u: Tables, r: Placement, ghost longer: seq<Progress>, ghost y: Progress)
    requires code.Length == NUM_INSTRUCTIONS_MAX + 1 && stream.Valid() && size < NUM_INSTRUCTIONS_MIN
    requires x.at == stream.At() && x.p == code[..size] && Describes(t, x.p, x.slots) && !Done(x)
    requires run != [] && ReachedBy(stream.blake, run[0].at, run, x)
    modifies code, stream
    ensures stream.Valid() && y.at == stream.At() && Describes(u, y.p, y.slots)
    ensures ReachedBy(stream.blake, run[0].at, longer, y)
    ensures y.p == code[..if r.At? then size + 1 else size]
    ensures y.late == x.late + (if r.Late? then 1 else 0) && y.draws == x.draws + 1
  {
    var i;
    i, r := DrawAndSchedule(stream, t, x.p, x.slots);
    u, y := t, Moved(stream.blake, x, r);
    longer := run + [y];
    RunExtended(stream.blake, run, y);
    if r.At? {
      u, i := Commit(stream, t, i, r.slot, size, x.p, x.slots);
      Emit(code, size, i, x.p);
    }
  }

  /** Draws instructions until all four registers are busy for the whole latency, or a limit is hit. */
  method PhaseOne(code: array<Instruction>, stream: ByteStream)
    returns (t: Tables, size: nat, ghost run: seq<Progress>, ghost x: Progress)
    requires code.Length == NUM_INSTRUCTIONS_MAX + 1 && stream.Valid()
    modifies code, stream
    ensures stream.Valid()
    ensures size <= NUM_INSTRUCTIONS_MIN
    ensures IsPhaseOne(stream.blake, old(stream.At()), run, x)
    ensures x.at == stream.At() && x.p == code[..size] && Describes(t, x.p, x.slots)
  {
    InitialDescribes();
    t, size, run, x := DrawUntilDone(code, stream, InitialTables(), Started(stream.At()));
  }

  method DrawUntilDone(code: array<Instruction>, stream: ByteStream, start: Tables, ghost first: Progress)
    returns (t: Tables, size: nat, ghost run: seq<Progress>, ghost x: Progress)
    requires code.Length == NUM_INSTRUCTIONS_MAX + 1 && stream.Valid()
    requires first == Started(stream.At()) && Describes(start, first.p, first.slots)
    modifies code, stream
    ensures stream.Valid()
    ensures size <= NUM_INSTRUCTIONS_MIN
    ensures ReachedBy(stream.blake, first.at, run, x) && Done(x)
    ensures x.at == stream.At() && x.p == code[..size] && Describes(t, x.p, x.slots)
  {
    t, size, x := start, 0, first;
    run := [x];
    var numRetries, totalIterations := 0, 0;
    while !AllBusy(t.latency[0], t.latency[1], t.latency[2], t.latency[3]) && numRetries < 64
      invariant stream.Valid() && size < NUM_INSTRUCTIONS_MIN
      invariant x.at == stream.At() && x.p == code[..size] && Describes(t, x.p, x.slots)
      invariant x.late == numRetries && x.draws == totalIterations <= 256
      invariant ReachedBy(stream.blake, first.at, run, x)
      decreases 256 - totalIterations
    {
      totalIterations := totalIterations + 1;
      if totalIterations > 256 { break; }
      BusyAgrees(t, x);
      var r;
      t, r, run, x := OneDraw(code, stream, t, size, run, x);
      if r.Late? { numRetries := numRetries + 1; }
      if r.At? {
        size := size + 1;
        if size >= NUM_INSTRUCTIONS_MIN { break; }
      }
    }
    BusyAgrees(t, x);
  }

  lemma BusyAgrees(t: Tables, x: Progress)
    requires Describes(t, x.p, x.slots)
    ensures AllBusy(t.latency[0], t.latency[1], t.latency[2], t.latency[3]) <==>
            AllBusy(ReadyAt(x.p, x.slots, 0), ReadyAt(x.p, x.slots, 1),
                    ReadyAt(x.p, x.slots, 2), ReadyAt(x.p, x.slots, 3))
  {}

  lemma LatencyBounded(t: Tables, p: Program, slots: seq<Slot>)
    requires Describes(t, p, slots)
    ensures forall r :: 0 <= r < 9 ==> t.latency[r] <= TOTAL_LATENCY
  {
    forall r | 0 <= r < 9
      ensures t.latency[r] <= TOTAL_LATENCY
    {
      var w := LastWriter(p, r);
      if w >= 0 { assert ValidNext(p[..w], slots[..w], p[w], slots[w]); }
    }
  }

  // ----- Phase two -----

  /** The first of R0-R3 that ends a chain no longer than any other's. */
  predicate EndsShortestChain(p: Program, r: nat) {
    && r < 4
    && forall q :: 0 <= q < 4 ==>
         LongestChain(p, r) <= LongestChain(p, q) && (q < r ==> LongestChain(p, r) != LongestChain(p, q))
  }

  /** The first of R0-R3 that ends a chain no shorter than any other's. */
  predicate EndsLongestChain(p: Program, r: nat) {
    && r < 4
    && forall q :: 0 <= q < 4 ==>
         LongestChain(p, q) <= LongestChain(p, r) && (q < r ==> LongestChain(p, q) != LongestChain(p, r))
  }

  predicate HasLongChain(p: Program) {
    exists r :: 0 <= r < 4 && LongestChain(p, r) >= TOTAL_LATENCY
  }

  function Pattern(k: nat): Opcode {
    if k % 3 == 0 then Ror else Mul
  }

  /** Instruction `k`, with phase two starting at `first`, lets the shortest chain continue the longest. */
  ghost predicate IsPhaseTwoInstruction(p: Program, k: nat, first: nat)
    requires first <= k < |p|
  {
    && !HasLongChain(p[..k])
    && p[k].opcode == Pattern(k - first) && p[k].c == 0
    && EndsShortestChain(p[..k], p[k].dst)
    && EndsLongestChain(p[..k], p[k].src)
  }

  /** The length of the longest chain of the whole program grows by this much in `n` steps. */
  function PatternLatency(n: nat): nat {
    if n == 0 then 0 else PatternLatency(n - 1) + AsicLatency(Pattern(n - 1))
  }

  function Longest(asic: seq<nat>): nat
    requires |asic| == 9
  {
    Max(Max(asic[0], asic[1]), Max(asic[2], asic[3]))
  }

  /** The first least and the first greatest of the first four entries. */
  predicate AreExtremes(asic: seq<nat>, lo: nat, hi: nat)
    requires |asic| == 9
  {
    && lo < 4 && hi < 4
    && (forall r :: 0 <= r < 4 ==> asic[lo] <= asic[r] <= asic[hi])
    && (forall r :: 0 <= r < lo ==> asic[lo] < asic[r]) && forall r :: 0 <= r < hi ==> asic[r] < asic[hi]
  }

  method Extremes(asic: seq<nat>) returns (lo: nat, hi: nat)
    requires |asic| == 9
    ensures AreExtremes(asic, lo, hi)
  {
    lo, hi := 0, 0;
    for i := 1 to 4
      invariant lo < i && hi < i
      invariant forall r :: 0 <= r < i ==> asic[lo] <= asic[r] <= asic[hi]
      invariant (forall r :: 0 <= r < lo ==> asic[lo] < asic[r]) && forall r :: 0 <= r < hi ==> asic[r] < asic[hi]
    {
      if asic[i] < asic[lo] { lo := i; }
      if asic[i] > asic[hi] { hi := i; }
    }
  }

  ghost predicate LengthenedBy(p: Program, first: nat) {
    forall k :: first <= k < |p| ==> IsPhaseTwoInstruction(p, k, first)
  }

  lemma LengthenedAppend(p: Program, first: nat, i: Instruction)
    requires first <= |p| && LengthenedBy(p, first)
    requires i.opcode == Pattern(|p| - first) && i.c == 0 && !HasLongChain(p)
    requires EndsShortestChain(p, i.dst) && EndsLongestChain(p, i.src)
    ensures LengthenedBy(p + [i], first)
  {
    var q := p + [i];
    forall k | first <= k < |q|
      ensures IsPhaseTwoInstruction(q, k, first)
    {
      if k < |p| {
        assert IsPhaseTwoInstruction(p, k, first) && q[..k] == p[..k];
      } else {
        assert q[..k] == p;
      }
    }
  }

  /** The program after some steps of phase two, started from a longest chain of length `base`. */
  ghost predicate Lengthening(p: Program, asic: seq<nat>, first: nat, base: nat) {
    && first <= |p|
    && AllWellFormed(p)
    && LengthenedBy(p, first)
    && AsicDescribes(asic, p)
    && Longest(asic) == base + PatternLatency(|p| - first)
  }

  lemma LengtheningStep(p: Program, asic: seq<nat>, first: nat, base: nat, lo: nat, hi: nat, i: Instruction)
    requires Lengthening(p, asic, first, base)
    requires AreExtremes(asic, lo, hi) && forall r :: 0 <= r < 4 ==> asic[r] < TOTAL_LATENCY
    requires i == Instruction(Pattern(|p| - first), lo, hi, 0)
    ensures Lengthening(p + [i], asic[lo := asic[hi] + AsicLatency(i.opcode)], first, base)
  {
    LongestGrows(asic, lo, hi, AsicLatency(i.opcode));
    assert EndsShortestChain(p, lo) && EndsLongestChain(p, hi);
    LengthenedAppend(p, first, i);
    PlaceAsic(asic, p, i);
    assert |p + [i]| - first == |p| - first + 1;
  }

  lemma LongestGrows(asic: seq<nat>, lo: nat, hi: nat, extra: nat)
    requires |asic| == 9 && lo < 4 && hi < 4
    requires forall r :: 0 <= r < 4 ==> asic[lo] <= asic[r] <= asic[hi]
    ensures Max(asic[lo], asic[hi]) == asic[hi]
    ensures Longest(asic[lo := asic[hi] + extra]) == Longest(asic) + extra
  {}

  /** `q` is what phase two makes of `p`: it stops at the first chain of 45 cycles, or when full. */
  ghost predicate IsLengthened(q: Program, p: Program) {
    && p <= q && |q| <= NUM_INSTRUCTIONS_MAX
    && LengthenedBy(q, |p|)
    && (|q| == NUM_INSTRUCTIONS_MAX || HasLongChain(q))
  }

  /** Phase two leaves no choice. */
  lemma LengthenedUnique(p: Program, q: Program, q': Program)
    requires IsLengthened(q, p) && IsLengthened(q', p)
    ensures q == q'
  {
    var n := if |q| <= |q'| then |q| else |q'|;
    LengthenedAgree(p, q, q', n);
    assert q[..|q|] == q && q'[..|q'|] == q';
    StopsInTime(p, q, q');
    StopsInTime(p, q', q);
  }

  /** A program that goes on after `q` did not have `q` before it. */
  lemma StopsInTime(p: Program, q: Program, longer: Program)
    requires IsLengthened(q, p) && IsLengthened(longer, p)
    ensures |q| < |longer| ==> longer[..|q|] != q
  {
    assert |q| < |longer| ==> IsPhaseTwoInstruction(longer, |q|, |p|);
  }

  lemma {:induction false} LengthenedAgree(p: Program, q: Program, q': Program, n: nat)
    requires IsLengthened(q, p) && IsLengthened(q', p) && |p| <= n && n <= |q| && n <= |q'|
    ensures q[..n] == q'[..n]
  {
    if n > |p| {
      LengthenedAgree(p, q, q', n - 1);
      assert IsPhaseTwoInstruction(q, n - 1, |p|) && IsPhaseTwoInstruction(q', n - 1, |p|);
      SameExtremes(q[..n - 1], q[n - 1], q'[n - 1]);
    }
  }

  lemma SameExtremes(p: Program, i: Instruction, j: Instruction)
    requires EndsShortestChain(p, i.dst) && EndsShortestChain(p, j.dst)
    requires EndsLongestChain(p, i.src) && EndsLongestChain(p, j.src)
    ensures i.dst == j.dst && i.src == j.src
  {}

  /** Appends ROR, MUL, MUL, ... until some register ends a chain of 45 cycles or the program is full. */
  method PhaseTwo(code: array<Instruction>, startAsic: seq<nat>, first: nat) returns (asic: seq<nat>, size: nat)
    requires code.Length == NUM_INSTRUCTIONS_MAX + 1 && first <= NUM_INSTRUCTIONS_MAX
    requires AllWellFormed(code[..first]) && AsicDescribes(startAsic, code[..first])
    modifies code
    ensures size <= NUM_INSTRUCTIONS_MAX && IsLengthened(code[..size], old(code[..first]))
    ensures Lengthening(code[..size], asic, first, Longest(startAsic))
  {
    asic, size := startAsic, first;
    ghost var start := code[..first];
    ghost var p := start;
    while size < NUM_INSTRUCTIONS_MAX && forall r :: 0 <= r < 4 ==> asic[r] < TOTAL_LATENCY
      invariant first <= size <= NUM_INSTRUCTIONS_MAX
      invariant p == code[..size] && start <= p
      invariant Lengthening(p, asic, first, Longest(startAsic))
    {
      var lo, hi := Extremes(asic);
      var i := Instruction(Pattern(size - first), lo, hi, 0);
      LengtheningStep(p, asic, first, Longest(startAsic), lo, hi, i);
      asic := asic[lo := asic[hi] + AsicLatency(i.opcode)];
      Emit(code, size, i, p);
      p := p + [i];
      size := size + 1;
    }
    LongChainSeen(p, asic);
  }

  lemma LongChainSeen(p: Program, asic: seq<nat>)
    requires AsicDescribes(asic, p)
    ensures (exists r :: 0 <= r < 4 && asic[r] >= TOTAL_LATENCY) <==> HasLongChain(p)
  {
    if r :| 0 <= r < 4 && asic[r] >= TOTAL_LATENCY { assert LongestChain(p, r) >= TOTAL_LATENCY; }
    if r :| 0 <= r < 4 && LongestChain(p, r) >= TOTAL_LATENCY { assert asic[r] >= TOTAL_LATENCY; }
  }

  // ----- The whole generator -----

  /** What holds of every accepted program, whose first `m` instructions come from phase one. */
  ghost predicate IsAccepted(p: Program, m: nat, slots: seq<Slot>) {
    && NUM_INSTRUCTIONS_MIN <= |p| <= NUM_INSTRUCTIONS_MAX
    && AllWellFormed(p)
    && m <= |p|
    && IsPhaseOneProgram(p[..m], slots)
    && LengthenedBy(p, m)
    && ReadsR8(p)
    && (|p| == NUM_INSTRUCTIONS_MAX || HasLongChain(p))
  }

  const RETURN := Instruction(Ret, 0, 0, 0)

  /** The test that ends the retries: `q` is phase two's result for the phase-one program `p`. */
  predicate IsKept(p: Program, q: Program) {
    ReadsR8(p) && NUM_INSTRUCTIONS_MIN <= |q| <= NUM_INSTRUCTIONS_MAX
  }

  /** Phase two's result for where phase one ended, kept and with everything an accepted program has. */
  ghost predicate IsResult(q: Program, x: Progress) {
    IsLengthened(q, x.p) && IsKept(x.p, q) && IsAccepted(q, |x.p|, x.slots)
  }

  ghost predicate IsRejected(p: Program) {
    exists q :: IsLengthened(q, p) && !IsKept(p, q)
  }

  /** One attempt: the run of its phase one and where that ended. */
  datatype Attempted = Attempted(run: seq<Progress>, end: Progress)

  /** Where reading goes on after some attempts. */
  function ReadingAt(start: Position, tried: seq<Attempted>): Position {
    if tried == [] then start else tried[|tried| - 1].end.at
  }

  /** Every attempt starts reading where the one before it stopped. */
  ghost predicate AreAttempts(blake: Blake, start: Position, tried: seq<Attempted>)
    requires DigestsTo32(blake)
  {
    forall k :: 0 <= k < |tried| ==> IsPhaseOne(blake, ReadingAt(start, tried[..k]), tried[k].run, tried[k].end)
  }

  /** The first `n` attempts ended in a rejected program. */
  ghost predicate AllRejected(tried: seq<Attempted>, n: nat)
    requires n <= |tried|
  {
    forall k :: 0 <= k < n ==> IsRejected(tried[k].end.p)
  }

  lemma AttemptsExtended(blake: Blake, start: Position, tried: seq<Attempted>, a: Attempted)
    requires DigestsTo32(blake) && AreAttempts(blake, start, tried)
    requires IsPhaseOne(blake, ReadingAt(start, tried), a.run, a.end)
    ensures AreAttempts(blake, start, tried + [a])
  {
    var longer := tried + [a];
    forall k | 0 <= k < |longer|
      ensures IsPhaseOne(blake, ReadingAt(start, longer[..k]), longer[k].run, longer[k].end)
    {
      assert longer[..k] == tried[..k];
      assert tried[..|tried|] == tried;
    }
  }

  /**
    Attempts are repeated until one is accepted; `attempts` bounds how many are made here. They are
    those of the byte stream in turn, and the program is that of the first one that is kept.
  */
  method RandomMathInit(code: array<Instruction>, height: nat, blake: Blake, attempts: nat)
    returns (size: Option<nat>, ghost tried: seq<Attempted>)
    requires code.Length == NUM_INSTRUCTIONS_MAX + 1
    requires height < 0x1_0000_0000_0000_0000 && DigestsTo32(blake)
    modifies code
    ensures AreAttempts(blake, Position(Seed(height), 32), tried)
    ensures size.None? ==> |tried| == attempts && AllRejected(tried, attempts)
    ensures size.Some? ==> 0 < |tried| <= attempts && AllRejected(tried, |tried| - 1)
    ensures size.Some? ==> size.value <= NUM_INSTRUCTIONS_MAX && code[size.value] == RETURN
    ensures size.Some? ==> IsResult(code[..size.value], tried[|tried| - 1].end)
  {
    var stream := new ByteStream(height, blake);
    ghost var start := stream.At();
    size, tried := None, [];
    for attempt := 0 to attempts
      invariant stream.Valid() && fresh(stream) && stream.blake == blake && size.None? && |tried| == attempt
      invariant AreAttempts(blake, start, tried) && AllRejected(tried, attempt)
      invariant stream.At() == ReadingAt(start, tried)
    {
      ghost var a;
      size, a := Attempt(code, stream);
      AttemptsExtended(blake, start, tried, a);
      tried := tried + [a];
      if size.Some? {
        Terminate(code, size.value);
        return;
      }
    }
  }

  method Terminate(code: array<Instruction>, size: nat)
    requires size < code.Length
    modifies code
    ensures code[size] == RETURN && code[..size] == old(code[..size])
  {
    code[size] := RETURN;
  }

  /** Both phases once, and the test whether to keep the program. */
  method Attempt(code: array<Instruction>, stream: ByteStream) returns (size: Option<nat>, ghost a: Attempted)
    requires code.Length == NUM_INSTRUCTIONS_MAX + 1 && stream.Valid()
    modifies code, stream
    ensures stream.Valid()
    ensures IsPhaseOne(stream.blake, old(stream.At()), a.run, a.end) && a.end.at == stream.At()
    ensures size.None? ==> IsRejected(a.end.p)
    ensures size.Some? ==> size.value <= NUM_INSTRUCTIONS_MAX && IsResult(code[..size.value], a.end)
  {
    var t, first;
    ghost var run, x;
    t, first, run, x := PhaseOne(code, stream);
    a := Attempted(run, x);
    size := LengthenAndJudge(code, t, first, x);
  }

  method LengthenAndJudge(code: array<Instruction>, t: Tables, first: nat, ghost x: Progress)
    returns (size: Option<nat>)
    requires code.Length == NUM_INSTRUCTIONS_MAX + 1 && first <= NUM_INSTRUCTIONS_MIN
    requires x.p == code[..first] && Describes(t, x.p, x.slots)
    modifies code
    ensures size.None? ==> IsRejected(x.p)
    ensures size.Some? ==> size.value <= NUM_INSTRUCTIONS_MAX && IsResult(code[..size.value], x)
  {
    var asic, n := PhaseTwo(code, t.asic, first);
    ghost var q := code[..n];
    size := None;
    if t.r8Used && NUM_INSTRUCTIONS_MIN <= n <= NUM_INSTRUCTIONS_MAX {
      AcceptedProgram(q, x, t);
      size := Some(n);
    } else {
      assert !IsKept(x.p, q);
    }
  }

  lemma AcceptedProgram(q: Program, x: Progress, t: Tables)
    requires Describes(t, x.p, x.slots) && IsLengthened(q, x.p) && IsKept(x.p, q) && AllWellFormed(q)
    ensures IsAccepted(q, |x.p|, x.slots)
  {
    assert q[..|x.p|] == x.p;
    var k :| 0 <= k < |x.p| && x.p[k].src == 8;
    assert q[k].src == 8;
  }
}
