/**
  The memory-hard loop of `cn_slow_hash` (`cryptonight/src/slow_hash.rs`), with the steps of
  `hash_v2.rs` and `hash_v4.rs` that its four variants switch on.

  Blocks of the scratchpad and the arithmetic on them are parameters (`Ops`); `SlowHashOps` gives
  the 128-bit instance. This file holds the steps the variants switch on, and one iteration of each
  variant as a definition of its own (`ReferenceStep`). `SlowHashLoop` holds the source's loop, in
  which all variants pass through the same code.
*/
module SlowHash {
  import opened Bytes
  import opened RandomMathProgram
  import opened RandomMathGenerator
  import opened RandomMathInterpreter

  const MEMORY_BLOCKS: nat := 0x2_0000

  datatype Variant = V0 | V1 | V2 | R

  predicate Shuffles(v: Variant) {
    v == V2 || v == R
  }

  /** The operations on blocks `B`; `M` holds the division and square-root results of variant 2. */
  datatype Ops<!B, !M> = Ops(
    index: B -> nat,
    aes: (B, B) -> B,
    xor: (B, B) -> B,
    sum: (B, B) -> B,
    shuffleSum: (B, B) -> B,
    mul: (B, B) -> B,
    tweak1: B -> B,
    tweak2: B -> B,
    divide: (B, B, M) -> (B, M),
    alu: Alu,
    fromSums: (Word, Word, Word, Word) -> B,
    constants: (B, B, B) -> seq<Word>,
    fromRegisters: (Word, Word, Word, Word) -> B)

  /** What the loop needs of the operations: indices in range, and zero registers give a zero block. */
  ghost predicate Lawful<B(!new), M>(ops: Ops<B, M>) {
    && (forall x :: ops.index(x) < MEMORY_BLOCKS)
    && (forall x :: ops.xor(x, ops.fromSums(0, 0, 0, 0)) == x)
    && (forall x :: ops.xor(x, ops.fromRegisters(0, 0, 0, 0)) == x)
    && (forall a, b0, b1 :: |ops.constants(a, b0, b1)| == 5)
  }

  // ----- Lines of four blocks -----

  /** `offset ^ k` for `k` in 1, 2, 3: another block of the same 64-byte line. */
  function Lane(offset: nat, k: nat): (l: nat)
    requires 1 <= k <= 3
    ensures l / 4 == offset / 4 && l != offset
  {
    offset / 4 * 4 + XorLane(offset % 4, k)
  }

  function XorLane(lane: nat, k: nat): (x: nat)
    requires lane < 4 && 1 <= k <= 3
    ensures x < 4
  {
    if k == 1 then if lane % 2 == 0 then lane + 1 else lane - 1
    else if k == 2 then if lane < 2 then lane + 2 else lane - 2
    else 3 - lane
  }

  /** Bit by bit, exclusive or. */
  lemma XorLaneBits(lane: nat, k: nat)
    requires lane < 4 && 1 <= k <= 3
    ensures var x := XorLane(lane, k);
            x % 2 == (lane % 2 + k % 2) % 2 && x / 2 == (lane / 2 + k / 2) % 2
  {}

  lemma LaneInRange(offset: nat, k: nat)
    requires offset < MEMORY_BLOCKS && 1 <= k <= 3
    ensures Lane(offset, k) < MEMORY_BLOCKS
  {}

  /** The line after the shuffle: each of the other three blocks takes a sum with another's old value. */
  function Shuffled<B, M>(ops: Ops<B, M>, ls: seq<B>, j: nat, a: B, b0: B, b1: B): (s: seq<B>)
    requires |ls| == MEMORY_BLOCKS && j < |ls|
    ensures |s| == |ls|
  {
    LaneInRange(j, 1); LaneInRange(j, 2); LaneInRange(j, 3);
    ls[Lane(j, 1) := ops.shuffleSum(ls[Lane(j, 3)], b1)]
      [Lane(j, 3) := ops.shuffleSum(ls[Lane(j, 2)], a)]
      [Lane(j, 2) := ops.shuffleSum(ls[Lane(j, 1)], b0)]
  }

  /** The shuffle touches the other three blocks of the addressed line and nothing else. */
  lemma ShuffleStaysInLine<B, M>(ops: Ops<B, M>, ls: seq<B>, j: nat, a: B, b0: B, b1: B, k: nat)
    requires |ls| == MEMORY_BLOCKS && j < |ls| && k < |ls|
    ensures var s := Shuffled(ops, ls, j, a, b0, b1);
            && (k == j || k / 4 != j / 4 ==> s[k] == ls[k])
            && (k == Lane(j, 1) ==> s[k] == ops.shuffleSum(ls[Lane(j, 3)], b1))
            && (k == Lane(j, 2) ==> s[k] == ops.shuffleSum(ls[Lane(j, 1)], b0))
            && (k == Lane(j, 3) ==> s[k] == ops.shuffleSum(ls[Lane(j, 2)], a))
            && (k / 4 == j / 4 ==> k == j || k == Lane(j, 1) || k == Lane(j, 2) || k == Lane(j, 3))
  {}

  method ShuffleAdd<B, M>(ops: Ops<B, M>, c1: B, a: B, b0: B, b1: B, ls: array<B>, j: nat, v: Variant)
    returns (c: B)
    requires ls.Length == MEMORY_BLOCKS && j < ls.Length
    modifies ls
    ensures ls[..] == if Shuffles(v) then Shuffled(ops, old(ls[..]), j, a, b0, b1) else old(ls[..])
    ensures c == MixedIn(ops, c1, old(ls[..]), j, v)
  {
    if !Shuffles(v) { return c1; }
    var l1, l2, l3 := Lane(j, 1), Lane(j, 2), Lane(j, 3);
    LaneInRange(j, 1); LaneInRange(j, 2); LaneInRange(j, 3);
    var old1, old2, old3 := ls[l1], ls[l2], ls[l3];
    ls[l1] := ops.shuffleSum(old3, b1);
    ls[l3] := ops.shuffleSum(old2, a);
    ls[l2] := ops.shuffleSum(old1, b0);
    c := if v == R then ops.xor(c1, ops.xor(ops.xor(old1, old2), old3)) else c1;
  }

  /** Variant R also mixes the old values of the three blocks into `c1`. */
  function MixedIn<B, M>(ops: Ops<B, M>, c1: B, ls: seq<B>, j: nat, v: Variant): B
    requires |ls| == MEMORY_BLOCKS && j < |ls|
  {
    LaneInRange(j, 1); LaneInRange(j, 2); LaneInRange(j, 3);
    if v == R then ops.xor(c1, ops.xor(ops.xor(ls[Lane(j, 1)], ls[Lane(j, 2)]), ls[Lane(j, 3)])) else c1
  }

  // ----- The random-math step -----

  function Loaded<B, M>(ops: Ops<B, M>, a1: B, b0: B, b1: B, r: seq<Word>): seq<Word>
    requires |r| == REGISTERS
  {
    r[..4] + ops.constants(a1, b0, b1)
  }

  /** Lines 394-408: `a1` and `c2` after the step, and the registers. */
  function RandomMathStep<B, M>(ops: Ops<B, M>, a1: B, c2: B, r: seq<Word>, b0: B, b1: B, code: Program)
    : (B, B, seq<Word>)
    requires |r| == REGISTERS && |ops.constants(a1, b0, b1)| == 5
    requires |code| == NUM_INSTRUCTIONS_MAX + 1 && AllInRange(Live(code))
  {
    var s := Run(ops.alu, Live(code), Loaded(ops, a1, b0, b1, r));
    (ops.xor(a1, ops.fromRegisters(s[2], s[3], s[0], s[1])), ops.xor(c2, ops.fromSums(r[0], r[1], r[2], r[3])), s)
  }

  method LoadConstants<B(!new), M>(ops: Ops<B, M>, a1: B, b0: B, b1: B, r: array<Word>)
    requires Lawful(ops) && r.Length == REGISTERS
    modifies r
    ensures r[..] == Loaded(ops, a1, b0, b1, old(r[..]))
  {
    var k := ops.constants(a1, b0, b1);
    r[4], r[5], r[6], r[7], r[8] := k[0], k[1], k[2], k[3], k[4];
  }

  method RandomMath<B(!new), M>(ops: Ops<B, M>, a1: B, c2: B, r: array<Word>, b0: B, b1: B, code: Program)
    returns (a1': B, c2': B)
    requires Lawful(ops) && r.Length == REGISTERS
    requires |code| == NUM_INSTRUCTIONS_MAX + 1 && AllInRange(Live(code))
    modifies r
    ensures (a1', c2', r[..]) == RandomMathStep(ops, a1, c2, old(r[..]), b0, b1, code)
  {
    c2' := ops.xor(c2, ops.fromSums(r[0], r[1], r[2], r[3]));
    LoadConstants(ops, a1, b0, b1, r);
    Interpret(ops.alu, code, r);
    a1' := ops.xor(a1, ops.fromRegisters(r[2], r[3], r[0], r[1]));
  }

  /** R0-R3 are zero and the program returns at once, as in variants 0, 1 and 2. */
  predicate Idle(r: seq<Word>, code: Program) {
    && |r| == REGISTERS && r[..4] == [0, 0, 0, 0]
    && |code| == NUM_INSTRUCTIONS_MAX + 1 && code[0].opcode == Ret
  }

  lemma IdleMeansNoLive(code: Program)
    requires |code| == NUM_INSTRUCTIONS_MAX + 1 && code[0].opcode == Ret
    ensures Live(code) == []
  {
    StopsOnce(code[..NUM_INSTRUCTIONS_MAX], 0, StopIndex(code[..NUM_INSTRUCTIONS_MAX]));
  }

  /** Then the step changes neither `a1` nor `c2`, and leaves things idle. */
  lemma IdleStep<B(!new), M>(ops: Ops<B, M>, a1: B, c2: B, r: seq<Word>, b0: B, b1: B, code: Program)
    requires Lawful(ops) && Idle(r, code)
    ensures Live(code) == []
    ensures var t := RandomMathStep(ops, a1, c2, r, b0, b1, code);
            t.0 == a1 && t.1 == c2 && Idle(t.2, code)
  {
    IdleMeansNoLive(code);
    assert r[0] == r[..4][0] && r[1] == r[..4][1] && r[2] == r[..4][2] && r[3] == r[..4][3];
    assert Loaded(ops, a1, b0, b1, r)[..4] == r[..4];
  }

  /** `variant4_math_init` in variants 0, 1 and 2: zero registers, default instructions. */
  lemma InitiallyIdle()
    ensures Idle(seq(REGISTERS, _ => 0), seq(NUM_INSTRUCTIONS_MAX + 1, _ => RETURN))
    ensures Live(seq(NUM_INSTRUCTIONS_MAX + 1, _ => RETURN)) == []
  {
    IdleMeansNoLive(seq(NUM_INSTRUCTIONS_MAX + 1, _ => RETURN));
  }

  // ----- The state of the loop -----

  /** Everything an iteration reads and writes. */
  datatype Mix<B, M> = Mix(ls: seq<B>, a: B, b0: B, b1: B, m: M, r: seq<Word>)

  ghost predicate IsMix<B(!new), M>(ops: Ops<B, M>, x: Mix<B, M>, code: Program) {
    && Lawful(ops) && |x.ls| == MEMORY_BLOCKS && |x.r| == REGISTERS
    && |code| == NUM_INSTRUCTIONS_MAX + 1 && AllInRange(Live(code))
  }

  // ----- The plain loop of CNS008 -----

  /** Section 4 of CryptoNote Standard CNS008: scratchpad, `a` and `b` after one iteration. */
  function PlainStep<B(!new), M>(ops: Ops<B, M>, pad: seq<B>, a: B, b: B): (p: (seq<B>, B, B))
    requires Lawful(ops) && |pad| == MEMORY_BLOCKS
    ensures |p.0| == MEMORY_BLOCKS
  {
    var addr := ops.index(a);
    var pad1 := pad[addr := ops.aes(pad[addr], a)];
    var b' := pad1[addr];
    var pad2 := pad1[addr := ops.xor(pad1[addr], b)];
    var addr' := ops.index(b');
    var a' := ops.sum(a, ops.mul(b', pad2[addr']));
    (pad2[addr' := a'], ops.xor(pad2[addr'], a'), b')
  }

  function PlainLoop<B(!new), M>(ops: Ops<B, M>, pad: seq<B>, a: B, b: B, n: nat): (p: (seq<B>, B, B))
    requires Lawful(ops) && |pad| == MEMORY_BLOCKS
    ensures |p.0| == MEMORY_BLOCKS
  {
    if n == 0 then (pad, a, b)
    else
      var (pad', a', b') := PlainLoop(ops, pad, a, b, n - 1);
      PlainStep(ops, pad', a', b')
  }

  // ----- The other variants -----

  /** The pad with the addressed block and the other three blocks of its line replaced. */
  function Rewritten<B>(pad: seq<B>, j: nat, at: B, v1: B, v2: B, v3: B): (p: seq<B>)
    ensures |p| == |pad|
  {
    seq(|pad|, k requires 0 <= k < |pad| =>
      if k == j then at
      else if k == Lane(j, 1) then v1
      else if k == Lane(j, 2) then v2
      else if k == Lane(j, 3) then v3
      else pad[k])
  }

  /** Variant 1: the plain step, with a tweak on each value written. */
  function StepV1<B(!new), M>(ops: Ops<B, M>, x: Mix<B, M>): Mix<B, M>
    requires Lawful(ops) && |x.ls| == MEMORY_BLOCKS
  {
    var addr := ops.index(x.a);
    var c := ops.aes(x.ls[addr], x.a);
    var pad := x.ls[addr := ops.tweak1(ops.xor(c, x.b0))];
    var addr' := ops.index(c);
    var s := ops.sum(x.a, ops.mul(c, pad[addr']));
    x.(ls := pad[addr' := ops.tweak2(s)], a := ops.xor(pad[addr'], s), b0 := c)
  }

  /**
    Variant 2: both accesses shuffle their line. The block read by the second one first goes through the
    division and the square root; the product is mixed with two blocks of the line before the shuffle.
  */
  function StepV2<B(!new), M>(ops: Ops<B, M>, x: Mix<B, M>): Mix<B, M>
    requires Lawful(ops) && |x.ls| == MEMORY_BLOCKS
  {
    var j := ops.index(x.a);
    LaneInRange(j, 1); LaneInRange(j, 2); LaneInRange(j, 3);
    var c := ops.aes(x.ls[j], x.a);
    var pad := Rewritten(x.ls, j, ops.xor(c, x.b0), ops.shuffleSum(x.ls[Lane(j, 3)], x.b1),
                         ops.shuffleSum(x.ls[Lane(j, 1)], x.b0), ops.shuffleSum(x.ls[Lane(j, 2)], x.a));
    var k := ops.index(c);
    LaneInRange(k, 1); LaneInRange(k, 2); LaneInRange(k, 3);
    var (e, m) := ops.divide(pad[k], c, x.m);
    var d := ops.mul(c, e);
    var s := ops.sum(x.a, ops.xor(d, pad[Lane(k, 2)]));
    var pad' := Rewritten(pad, k, s, ops.shuffleSum(pad[Lane(k, 3)], x.b1),
                          ops.shuffleSum(ops.xor(pad[Lane(k, 1)], d), x.b0), ops.shuffleSum(pad[Lane(k, 2)], x.a));
    Mix(pad', ops.xor(e, s), c, x.b0, m, x.r)
  }

  /**
    Variant R: both accesses shuffle their line and mix its old blocks into `c`. The block read by the
    second one and `a` go through the random program, whose registers R0-R3 carry over.
  */
  function StepR<B(!new), M>(ops: Ops<B, M>, x: Mix<B, M>, code: Program): Mix<B, M>
    requires IsMix(ops, x, code)
  {
    var j := ops.index(x.a);
    LaneInRange(j, 1); LaneInRange(j, 2); LaneInRange(j, 3);
    var line := ops.xor(ops.xor(x.ls[Lane(j, 1)], x.ls[Lane(j, 2)]), x.ls[Lane(j, 3)]);
    var c := ops.xor(ops.aes(x.ls[j], x.a), line);
    var pad := Rewritten(x.ls, j, ops.xor(c, x.b0), ops.shuffleSum(x.ls[Lane(j, 3)], x.b1),
                         ops.shuffleSum(x.ls[Lane(j, 1)], x.b0), ops.shuffleSum(x.ls[Lane(j, 2)], x.a));
    var k := ops.index(c);
    LaneInRange(k, 1); LaneInRange(k, 2); LaneInRange(k, 3);
    var e := ops.xor(pad[k], ops.fromSums(x.r[0], x.r[1], x.r[2], x.r[3]));
    var r := Run(ops.alu, Live(code), x.r[..4] + ops.constants(x.a, x.b0, x.b1));
    var a1 := ops.xor(x.a, ops.fromRegisters(r[2], r[3], r[0], r[1]));
    var s := ops.sum(a1, ops.mul(c, e));
    var pad' := Rewritten(pad, k, s, ops.shuffleSum(pad[Lane(k, 3)], x.b1),
                          ops.shuffleSum(pad[Lane(k, 1)], x.b0), ops.shuffleSum(pad[Lane(k, 2)], x.a));
    var line' := ops.xor(ops.xor(pad[Lane(k, 1)], pad[Lane(k, 2)]), pad[Lane(k, 3)]);
    Mix(pad', ops.xor(e, s), ops.xor(c, line'), x.b0, x.m, r)
  }

  /** One iteration of each variant. */
  function ReferenceStep<B(!new), M>(v: Variant, ops: Ops<B, M>, x: Mix<B, M>, code: Program): (y: Mix<B, M>)
    requires IsMix(ops, x, code)
    ensures IsMix(ops, y, code)
  {
    match v
    case V0 => var (pad, a, b) := PlainStep(ops, x.ls, x.a, x.b0); x.(ls := pad, a := a, b0 := b)
    case V1 => StepV1(ops, x)
    case V2 => StepV2(ops, x)
    case R => StepR(ops, x, code)
  }

  function ReferenceLoop<B(!new), M>(v: Variant, ops: Ops<B, M>, x: Mix<B, M>, code: Program, n: nat): (y: Mix<B, M>)
    requires IsMix(ops, x, code)
    ensures IsMix(ops, y, code)
  {
    if n == 0 then x else ReferenceStep(v, ops, ReferenceLoop(v, ops, x, code, n - 1), code)
  }

  /** For variant 0 it is the loop of the standard. */
  lemma {:induction false} Variant0IsPlain<B(!new), M>(ops: Ops<B, M>, x: Mix<B, M>, code: Program, n: nat)
    requires IsMix(ops, x, code)
    ensures var y := ReferenceLoop(V0, ops, x, code, n);
            (y.ls, y.a, y.b0) == PlainLoop(ops, x.ls, x.a, x.b0, n)
  {
    if n > 0 { Variant0IsPlain(ops, x, code, n - 1); }
  }
}
