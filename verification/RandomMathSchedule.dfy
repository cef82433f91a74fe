/**
  Schedules for the abstract three-ALU processor that phase one of the CryptoNight-R generator
  fills, and the redundancy the generator promises to leave out.
*/
module RandomMathSchedule {
  import opened RandomMathProgram

  // ----- Schedules -----

  datatype Slot = Slot(start: nat, alu: nat)

  /** ALUs are pipelined: an instruction holds its ALU for one cycle, ADD for two. */
  function BusyCycles(op: Opcode): nat {
    if op == Add then 2 else 1
  }

  predicate Occupies(i: Instruction, s: Slot, cycle: nat, alu: nat) {
    s.alu == alu && s.start <= cycle < s.start + BusyCycles(i.opcode)
  }

  function Finish(i: Instruction, s: Slot): nat {
    s.start + OpLatency(i.opcode)
  }

  /** The first cycle in which the value that `p` leaves in register `r` can be read. */
  function ReadyAt(p: Program, slots: seq<Slot>, r: nat): nat
    requires |p| == |slots|
  {
    var w := LastWriter(p, r);
    if w < 0 then 0 else Finish(p[w], slots[w])
  }

  function Rotations(p: Program): nat {
    if p == [] then 0
    else Rotations(p[..|p| - 1]) + if IsRotation(p[|p| - 1].opcode) then 1 else 0
  }

  ghost predicate Clash(i: Instruction, s: Slot, j: Instruction, t: Slot) {
    exists cycle, alu :: Occupies(i, s, cycle, alu) && Occupies(j, t, cycle, alu)
  }

  /** What one more instruction may do after `p` has been scheduled. */
  ghost predicate ValidNext(p: Program, slots: seq<Slot>, i: Instruction, s: Slot)
    requires |p| == |slots|
  {
    && s.alu < OpAlus(i.opcode)
    && Finish(i, s) <= TOTAL_LATENCY
    && ReadyAt(p, slots, i.dst) <= s.start <= ReadyAt(p, slots, i.dst) + 7
    && ReadyAt(p, slots, i.src) <= s.start
    && (IsRotation(i.opcode) ==> 2 * Rotations(p) <= s.start)
    && (forall k :: 0 <= k < |p| ==> !Clash(p[k], slots[k], i, s))
  }

  ghost predicate ValidSchedule(p: Program, slots: seq<Slot>) {
    && |p| == |slots|
    && forall k :: 0 <= k < |p| ==> ValidNext(p[..k], slots[..k], p[k], slots[k])
  }

  lemma ValidScheduleAppend(p: Program, slots: seq<Slot>, i: Instruction, s: Slot)
    requires ValidSchedule(p, slots) && ValidNext(p, slots, i, s)
    ensures ValidSchedule(p + [i], slots + [s])
  {
    var q, t := p + [i], slots + [s];
    forall k | 0 <= k < |q|
      ensures ValidNext(q[..k], t[..k], q[k], t[k])
    {
      if k < |p| {
        assert q[..k] == p[..k] && t[..k] == slots[..k];
      } else {
        assert q[..k] == p && t[..k] == slots;
      }
    }
  }

  /** In a valid schedule no two instructions ever hold one ALU in one cycle. */
  lemma NoSlotUsedTwice(p: Program, slots: seq<Slot>, j: nat, k: nat, cycle: nat, alu: nat)
    requires ValidSchedule(p, slots)
    requires j < |p| && k < |p|
    requires Occupies(p[j], slots[j], cycle, alu) && Occupies(p[k], slots[k], cycle, alu)
    ensures j == k
  {
    if j < k {
      NoClash(p, slots, j, k);
    } else if k < j {
      NoClash(p, slots, k, j);
    }
  }

  lemma NoClash(p: Program, slots: seq<Slot>, j: nat, k: nat)
    requires ValidSchedule(p, slots) && j < k < |p|
    ensures !Clash(p[j], slots[j], p[k], slots[k])
  {
    assert ValidNext(p[..k], slots[..k], p[k], slots[k]);
    assert p[..k][j] == p[j] && slots[..k][j] == slots[j];
  }

  // ----- Redundancy -----

  /** The sources of `j` and `k` hold the same value, or are both constant registers. */
  ghost predicate SameSource(p: Program, j: nat, k: nat)
    requires j < k < |p|
  {
    || (p[j].src >= 4 && p[k].src >= 4)
    || (p[j].src == p[k].src && forall m :: j <= m < k ==> p[m].dst != p[j].src)
  }

  /** Instruction `k` could be folded into `j`, the previous writer of its destination. */
  ghost predicate Foldable(p: Program, j: nat, k: nat)
    requires j < k < |p|
  {
    || (IsRotation(p[j].opcode) && IsRotation(p[k].opcode))
    || (p[j].opcode == p[k].opcode != Mul && SameSource(p, j, k))
  }

  /** No instruction can be folded into the previous writer of its destination. */
  ghost predicate NonRedundant(p: Program) {
    forall k :: 0 <= k < |p| ==> NotFoldable(p, k)
  }

  ghost predicate NotFoldable(p: Program, k: nat)
    requires k < |p|
  {
    var w := LastWriter(p[..k], p[k].dst);
    w >= 0 ==> !Foldable(p, w, k)
  }

  lemma NonRedundantAppend(p: Program, i: Instruction)
    requires NonRedundant(p) && NotFoldable(p + [i], |p|)
    ensures NonRedundant(p + [i])
  {
    var q := p + [i];
    forall k | 0 <= k < |q|
      ensures NotFoldable(q, k)
    {
      if k < |p| {
        assert NotFoldable(p, k) && q[..k] == p[..k];
        var w := LastWriter(p[..k], p[k].dst);
        if w >= 0 && SameSource(q, w, k) && p[w].src < 4 {
          forall m | w <= m < k
            ensures p[m].dst != p[w].src
          {
            assert q[m] == p[m];
          }
        }
      }
    }
  }

  // ----- The packed word the generator keeps for each register -----

  /**
    Byte 0 of the packed word: a name for the value in register `r`. It is the index of the last
    writer; a register not yet written is named by its own number, a constant register by 255.
  */
  function ValueId(p: Program, r: nat): nat {
    var w := LastWriter(p, r);
    if w >= 0 then w else if r < 4 then r else 255
  }

  /** Value name, opcode and name of the source value of the last writer of `r`, packed. */
  function Packed(p: Program, r: nat): nat {
    var w := LastWriter(p, r);
    if w >= 0 then w + Code(p[w].opcode) * 0x100 + ValueId(p[..w], p[w].src) * 0x1_0000
    else if r < 4 then r
    else 0xFF_FFFF
  }

  /** `x & 0xFFFF00`; the packed words have 24 bits (`PackedBytes`). */
  function UpperBytes(x: nat): nat {
    x - x % 0x100
  }

  /** The test of lines 214-216: would `op` on registers `a` and `b` repeat the last write of `a`? */
  predicate Refuses(instData: seq<nat>, op: Opcode, a: nat, b: nat)
    requires a < |instData| && b < |instData|
  {
    op != Mul && UpperBytes(instData[a]) == Code(op) * 0x100 + instData[b] % 0x100 * 0x1_0000
  }

  ghost predicate PacksAll(instData: seq<nat>, p: Program) {
    |instData| == 9 && forall r :: 0 <= r < 9 ==> instData[r] == Packed(p, r)
  }

  lemma ValueIdSmall(p: Program, r: nat)
    requires |p| <= 0xFF
    ensures ValueId(p, r) <= 0xFF
  {}

  lemma PackedBytes(p: Program, r: nat)
    requires |p| <= 0xFF
    ensures Packed(p, r) <= 0xFF_FFFF
    ensures Packed(p, r) % 0x100 == ValueId(p, r)
    ensures var w := LastWriter(p, r);
            && (w >= 0 ==> UpperBytes(Packed(p, r)) ==
                           Code(p[w].opcode) * 0x100 + ValueId(p[..w], p[w].src) * 0x1_0000)
            && (w < 0 && r < 4 ==> UpperBytes(Packed(p, r)) == 0)
  {
    var w := LastWriter(p, r);
    if w >= 0 {
      ValueIdSmall(p[..w], p[w].src);
      ThreeBytes(w, Code(p[w].opcode), ValueId(p[..w], p[w].src));
    }
  }

  lemma ThreeBytes(low: nat, middle: nat, high: nat)
    requires low < 0x100 && middle < 0x100 && high < 0x100
    ensures var x := low + middle * 0x100 + high * 0x1_0000;
            x <= 0xFF_FFFF && x % 0x100 == low && UpperBytes(x) == middle * 0x100 + high * 0x1_0000
  {
    LowByte(low, middle + high * 0x100);
  }

  lemma LowByte(low: nat, rest: nat)
    requires low < 0x100
    ensures (low + rest * 0x100) % 0x100 == low
  {}

  /** The packed test refuses exactly when the last writer has the same opcode and source name. */
  lemma RefusesExactly(instData: seq<nat>, p: Program, op: Opcode, a: nat, b: nat)
    requires PacksAll(instData, p) && |p| <= 0xFF && a < 4 && b < 9
    ensures Refuses(instData, op, a, b) <==>
            var w := LastWriter(p, a);
            && op != Mul
            && w >= 0
            && p[w].opcode == op
            && ValueId(p[..w], p[w].src) == ValueId(p, b)
  {
    PackedBytes(p, a);
    PackedBytes(p, b);
    ValueIdSmall(p, b);
    var w := LastWriter(p, a);
    if w >= 0 {
      ValueIdSmall(p[..w], p[w].src);
      CodeInjective(p[w].opcode, op);
      SamePair(Code(p[w].opcode), ValueId(p[..w], p[w].src), Code(op), ValueId(p, b));
    }
  }

  lemma CodeInjective(o: Opcode, o': Opcode)
    ensures Code(o) == Code(o') <==> o == o'
  {}

  lemma SamePair(m: nat, h: nat, m': nat, h': nat)
    requires m < 0x100 && h < 0x100 && m' < 0x100 && h' < 0x100
    ensures m * 0x100 + h * 0x1_0000 == m' * 0x100 + h' * 0x1_0000 <==> m == m' && h == h'
  {}

  /** Names also collide: a register not yet written shares the name of the instruction with its number. */
  ghost predicate Aliases(p: Program, w: nat, r: nat, b: nat)
    requires w <= |p|
  {
    var v, u := LastWriter(p[..w], r), LastWriter(p, b);
    r < 4 && b < 4 && ((v < 0 <= u == r) || (u < 0 <= v == b))
  }

  /** Two names agree exactly for one value, for two constants, or through a collision. */
  lemma SameIdExactly(p: Program, w: nat, r: nat, b: nat)
    requires AllWellFormed(p) && |p| < 0xFF && w < |p|
    ensures ValueId(p[..w], r) == ValueId(p, b) <==>
            || (r >= 4 && b >= 4)
            || (r < 4 && r == b && forall m :: w <= m < |p| ==> p[m].dst != r)
            || Aliases(p, w, r, b)
  {
    var v, u := LastWriter(p[..w], r), LastWriter(p, b);
    assert v >= 0 ==> p[v].dst == r;
    if r >= 4 { assert v < 0; }
    if b >= 4 { assert u < 0; }
    if r < 4 && r == b && (forall m :: w <= m < |p| ==> p[m].dst != r) {
      forall k | 0 <= k < |p| && v < k
        ensures p[k].dst != r
      {
        if k < w { assert p[..w][k] == p[k]; }
      }
      LastWriterUnique(p, r, v);
    }
    if r < 4 && b < 4 && v == u {
      if v >= 0 {
        assert r == b;
        assert forall m :: w <= m < |p| ==> p[m].dst != r;
      } else {
        assert forall m :: w <= m < |p| ==> p[m].dst != b;
      }
    }
  }

  /** The packed test, in the program's own terms: the same operation on the same value, or a collision. */
  lemma FilterExactly(instData: seq<nat>, p: Program, i: Instruction)
    requires AllWellFormed(p) && WellFormed(i) && |p| < 0xFF
    requires PacksAll(instData, p)
    ensures Refuses(instData, i.opcode, i.dst, i.src) <==>
            var w := LastWriter(p, i.dst);
            && w >= 0
            && p[w].opcode == i.opcode != Mul
            && (SameSource(p + [i], w, |p|) || Aliases(p, w, p[w].src, i.src))
  {
    var q := p + [i];
    var w := LastWriter(p, i.dst);
    RefusesExactly(instData, p, i.opcode, i.dst, i.src);
    if w >= 0 {
      SameIdExactly(p, w, p[w].src, i.src);
      assert forall m :: w <= m < |p| ==> q[m] == p[m];
    }
  }

  /** Passing the rotation test and the packed test is enough for the instruction not to be foldable. */
  lemma FilterIsSound(instData: seq<nat>, p: Program, rotated: bool, i: Instruction)
    requires AllWellFormed(p) && WellFormed(i) && |p| < 0xFF
    requires PacksAll(instData, p)
    requires rotated <==> LastWriter(p, i.dst) >= 0 && IsRotation(p[LastWriter(p, i.dst)].opcode)
    requires !(IsRotation(i.opcode) && rotated)
    requires !Refuses(instData, i.opcode, i.dst, i.src)
    ensures NotFoldable(p + [i], |p|)
  {
    assert (p + [i])[..|p|] == p;
    FilterExactly(instData, p, i);
  }

  /**
    The filter is not complete. R1 is not yet written when the first SUB reads it; instruction 1
    wrote R2, so R2 is named 1 as well, and a SUB of R2 that follows is refused although the two
    sources differ. The program is scheduled and not redundant, and the refused instruction has a slot.
  */
  lemma FilterOverRefuses(instData: seq<nat>, p: Program, i: Instruction, slots: seq<Slot>)
    requires p == [Instruction(Xor, 3, 8, 0), Instruction(Mul, 2, 4, 0), Instruction(Sub, 0, 1, 0)]
    requires i == Instruction(Sub, 0, 2, 0) && slots == [Slot(0, 2), Slot(0, 0), Slot(0, 1)]
    requires PacksAll(instData, p)
    ensures AllWellFormed(p) && ValidSchedule(p, slots) && NonRedundant(p)
    ensures WellFormed(i) && ValidNext(p, slots, i, Slot(3, 2))
    ensures Refuses(instData, i.opcode, i.dst, i.src)
    ensures NotFoldable(p + [i], |p|)
  {
    AllFirstWriters(p, slots);
    LastWriterUnique(p, 0, 2);
    LastWriterUnique(p, 2, 1);
    LastWriterUnique(p[..2], 1, -1);
    RefusesExactly(instData, p, Sub, 0, 2);
    assert (p + [i])[..3] == p;
  }

  /** Three instructions on three ALUs in the first cycle, each the first to write its register. */
  lemma AllFirstWriters(p: Program, slots: seq<Slot>)
    requires p == [Instruction(Xor, 3, 8, 0), Instruction(Mul, 2, 4, 0), Instruction(Sub, 0, 1, 0)]
    requires slots == [Slot(0, 2), Slot(0, 0), Slot(0, 1)]
    ensures ValidSchedule(p, slots) && NonRedundant(p)
  {
    forall k | 0 <= k < |p|
      ensures ValidNext(p[..k], slots[..k], p[k], slots[k]) && NotFoldable(p, k)
    {
      LastWriterUnique(p[..k], p[k].dst, -1);
      LastWriterUnique(p[..k], p[k].src, -1);
    }
  }
}
