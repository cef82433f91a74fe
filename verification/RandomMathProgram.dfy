/**
  The programs of CryptoNight-R (`cryptonight/src/hash_v4.rs`): the instruction set, and what
  can be said of a program without looking at the generator: who wrote a register last, how
  long its longest dependency chain is, when it has a schedule, and when it repeats itself.
*/
module RandomMathProgram {
  import opened Bytes

  const TOTAL_LATENCY: nat := 45
  const NUM_INSTRUCTIONS_MIN: nat := 60
  const NUM_INSTRUCTIONS_MAX: nat := 70
  const ALU_COUNT: nat := 3

  datatype Opcode = Mul | Add | Sub | Ror | Rol | Xor | Ret

  datatype Instruction = Instruction(opcode: Opcode, dst: nat, src: nat, c: Word)

  type Program = seq<Instruction>

  function Code(op: Opcode): (n: nat) {
    match op
    case Mul => 0
    case Add => 1
    case Sub => 2
    case Ror => 3
    case Rol => 4
    case Xor => 5
    case Ret => 6
  }

  function OpLatency(op: Opcode): nat {
    match op
    case Mul => 3
    case Add | Ror | Rol => 2
    case Sub | Xor | Ret => 1
  }

  function AsicLatency(op: Opcode): nat {
    if op == Mul then 3 else 1
  }

  function OpAlus(op: Opcode): nat {
    if op == Mul then 1 else ALU_COUNT
  }

  const OP_LATENCY: seq<nat> := [3, 2, 1, 2, 2, 1]
  const ASIC_OP_LATENCY: seq<nat> := [3, 1, 1, 1, 1, 1]
  const OP_ALUS: seq<nat> := [1, 3, 3, 3, 3, 3]

  /** These are the source's tables, indexed by the opcode's number. */
  lemma Tabled(op: Opcode)
    requires op != Ret
    ensures Code(op) < 6
    ensures OpLatency(op) == OP_LATENCY[Code(op)]
    ensures AsicLatency(op) == ASIC_OP_LATENCY[Code(op)] && OpAlus(op) == OP_ALUS[Code(op)]
    ensures IsRotation(op) <==> Code(op) in {3, 4}
  {}

  predicate IsRotation(op: Opcode) {
    op == Ror || op == Rol
  }

  /** Destinations are R0-R3, sources R0-R8, and ADD, SUB and XOR never take one register twice. */
  predicate WellFormed(i: Instruction) {
    && i.opcode != Ret
    && i.dst < 4
    && i.src < 9
    && (i.opcode in {Add, Sub, Xor} ==> i.dst != i.src)
  }

  predicate AllWellFormed(p: Program) {
    forall k :: 0 <= k < |p| ==> WellFormed(p[k])
  }

  // ----- Last writers -----

  /** The last instruction of `p` that writes register `r`, or -1. */
  function LastWriter(p: Program, r: nat): (w: int)
    ensures -1 <= w < |p|
    ensures w >= 0 ==> p[w].dst == r
    ensures forall k :: 0 <= k < |p| && w < k ==> p[k].dst != r
  {
    if p == [] then -1
    else if p[|p| - 1].dst == r then |p| - 1
    else LastWriter(p[..|p| - 1], r)
  }

  lemma LastWriterAppend(p: Program, i: Instruction, r: nat)
    ensures LastWriter(p + [i], r) == if i.dst == r then |p| else LastWriter(p, r)
  {
    assert (p + [i])[..|p|] == p;
  }

  lemma LastWriterUnique(p: Program, r: nat, w: int)
    requires -1 <= w < |p|
    requires w >= 0 ==> p[w].dst == r
    requires forall k :: 0 <= k < |p| && w < k ==> p[k].dst != r
    ensures LastWriter(p, r) == w
  {
    assert LastWriter(p, r) <= w <= LastWriter(p, r);
  }

  // ----- Dependency chains -----

  /** Instruction `k` reads the value instruction `j` left in one of its two operands. */
  ghost predicate DependsOn(p: Program, j: int, k: int)
    requires 0 <= k < |p|
  {
    0 <= j < k && (j == LastWriter(p[..k], p[k].dst) || j == LastWriter(p[..k], p[k].src))
  }

  ghost predicate IsChain(p: Program, chain: seq<int>) {
    && (forall i :: 0 <= i < |chain| ==> 0 <= chain[i] < |p|)
    && (forall i :: 0 < i < |chain| ==> DependsOn(p, chain[i - 1], chain[i]))
  }

  /** A chain whose last value is the one register `r` holds after `p`; the empty chain ends anywhere. */
  ghost predicate IsChainInto(p: Program, chain: seq<int>, r: nat) {
    IsChain(p, chain) && (chain != [] ==> chain[|chain| - 1] == LastWriter(p, r))
  }

  ghost function ChainLatency(p: Program, chain: seq<int>): nat
    requires forall i :: 0 <= i < |chain| ==> 0 <= chain[i] < |p|
  {
    if chain == [] then 0
    else ChainLatency(p, chain[..|chain| - 1]) + AsicLatency(p[chain[|chain| - 1]].opcode)
  }

  /** `length` is the length of the longest dependency chain that ends in register `r`. */
  ghost predicate IsLongestChain(p: Program, r: nat, length: nat) {
    && (exists chain :: IsChainInto(p, chain, r) && ChainLatency(p, chain) == length)
    && (forall chain :: IsChainInto(p, chain, r) ==> ChainLatency(p, chain) <= length)
  }

  lemma {:induction false} ChainLatencyPrefix(p: Program, i: Instruction, chain: seq<int>)
    requires forall k :: 0 <= k < |chain| ==> 0 <= chain[k] < |p|
    ensures ChainLatency(p + [i], chain) == ChainLatency(p, chain)
  {
    if chain != [] {
      ChainLatencyPrefix(p, i, chain[..|chain| - 1]);
    }
  }

  /** Appending an instruction neither breaks nor creates chains among the earlier ones. */
  lemma ChainPrefix(p: Program, i: Instruction, chain: seq<int>)
    requires forall k :: 0 <= k < |chain| ==> 0 <= chain[k] < |p|
    ensures IsChain(p + [i], chain) <==> IsChain(p, chain)
  {
    forall k | 0 <= k < |p|
      ensures (p + [i])[..k] == p[..k] && (p + [i])[k] == p[k]
    {}
    forall j, k | 0 <= k < |p|
      ensures DependsOn(p + [i], j, k) <==> DependsOn(p, j, k)
    {}
  }

  /** A chain that ends at the appended instruction is a chain into one of its operands, plus it. */
  lemma ChainLast(p: Program, i: Instruction, chain: seq<int>) returns (operand: nat)
    requires IsChain(p + [i], chain) && chain != [] && chain[|chain| - 1] == |p|
    ensures operand == i.dst || operand == i.src
    ensures IsChainInto(p, chain[..|chain| - 1], operand)
    ensures ChainLatency(p + [i], chain) == ChainLatency(p, chain[..|chain| - 1]) + AsicLatency(i.opcode)
  {
    var q := p + [i];
    var front := chain[..|chain| - 1];
    assert q[..|p|] == p;
    forall k | 0 <= k < |front|
      ensures 0 <= front[k] < |p|
    {
      ChainIncreasing(q, chain, k, |chain| - 1);
    }
    assert IsChain(q, front);
    ChainPrefix(p, i, front);
    ChainLatencyPrefix(p, i, front);
    operand := i.dst;
    if front != [] {
      assert DependsOn(q, chain[|chain| - 2], chain[|chain| - 1]);
      if front[|front| - 1] != LastWriter(p, i.dst) {
        operand := i.src;
      }
    }
  }

  lemma {:induction false} ChainIncreasing(p: Program, chain: seq<int>, j: nat, k: nat)
    requires IsChain(p, chain) && j < k < |chain|
    ensures chain[j] < chain[k]
  {
    assert DependsOn(p, chain[k - 1], chain[k]);
    if j < k - 1 {
      ChainIncreasing(p, chain, j, k - 1);
    }
  }

  lemma ChainSnoc(p: Program, i: Instruction, chain: seq<int>, operand: nat)
    requires operand == i.dst || operand == i.src
    requires IsChainInto(p, chain, operand)
    ensures IsChainInto(p + [i], chain + [|p|], i.dst)
    ensures ChainLatency(p + [i], chain + [|p|]) == ChainLatency(p, chain) + AsicLatency(i.opcode)
  {
    var q, long := p + [i], chain + [|p|];
    assert q[..|p|] == p && long[..|chain|] == chain;
    ChainPrefix(p, i, chain);
    ChainLatencyPrefix(p, i, chain);
    LastWriterAppend(p, i, i.dst);
    forall k | 0 < k < |long|
      ensures DependsOn(q, long[k - 1], long[k])
    {
      if k < |chain| {
        assert DependsOn(q, chain[k - 1], chain[k]);
      }
    }
  }

  /** The longest chain into each register after one more instruction. */
  lemma LongestChainStep(p: Program, i: Instruction, a: nat, b: nat)
    requires IsLongestChain(p, i.dst, a) && IsLongestChain(p, i.src, b)
    ensures IsLongestChain(p + [i], i.dst, Max(a, b) + AsicLatency(i.opcode))
  {
    var q, m := p + [i], Max(a, b);
    var operand := if a > b then i.dst else i.src;
    assert IsLongestChain(p, operand, m);
    var best :| IsChainInto(p, best, operand) && ChainLatency(p, best) == m;
    ChainSnoc(p, i, best, operand);
    forall chain | IsChainInto(q, chain, i.dst)
      ensures ChainLatency(q, chain) <= m + AsicLatency(i.opcode)
    {
      NoLongerChain(p, i, a, b, chain);
    }
  }

  lemma NoLongerChain(p: Program, i: Instruction, a: nat, b: nat, chain: seq<int>)
    requires IsLongestChain(p, i.dst, a) && IsLongestChain(p, i.src, b)
    requires IsChainInto(p + [i], chain, i.dst)
    ensures ChainLatency(p + [i], chain) <= Max(a, b) + AsicLatency(i.opcode)
  {
    LastWriterAppend(p, i, i.dst);
    if chain != [] {
      var o := ChainLast(p, i, chain);
    }
  }

  lemma LongestChainFrame(p: Program, i: Instruction, r: nat, a: nat)
    requires IsLongestChain(p, r, a) && i.dst != r
    ensures IsLongestChain(p + [i], r, a)
  {
    var q := p + [i];
    LastWriterAppend(p, i, r);
    var best :| IsChainInto(p, best, r) && ChainLatency(p, best) == a;
    ChainPrefix(p, i, best);
    ChainLatencyPrefix(p, i, best);
    forall chain | IsChainInto(q, chain, r)
      ensures ChainLatency(q, chain) <= a
    {
      if chain != [] {
        forall k | 0 <= k < |chain|
          ensures 0 <= chain[k] < |p|
        {
          if k < |chain| - 1 { ChainIncreasing(q, chain, k, |chain| - 1); }
        }
        ChainPrefix(p, i, chain);
        ChainLatencyPrefix(p, i, chain);
      }
    }
  }

  /** The recurrence behind the generator's `asic_latency` table. */
  function LongestChain(p: Program, r: nat): nat {
    if p == [] then 0
    else
      var i, front := p[|p| - 1], p[..|p| - 1];
      if i.dst == r
      then Max(LongestChain(front, i.dst), LongestChain(front, i.src)) + AsicLatency(i.opcode)
      else LongestChain(front, r)
  }

  function Max(a: nat, b: nat): nat {
    if a > b then a else b
  }

  lemma LongestChainAppend(p: Program, i: Instruction, r: nat)
    ensures LongestChain(p + [i], r) ==
            if i.dst == r
            then Max(LongestChain(p, i.dst), LongestChain(p, i.src)) + AsicLatency(i.opcode)
            else LongestChain(p, r)
  {
    assert (p + [i])[..|p|] == p;
  }

  /** The recurrence computes the length of the longest dependency chain into every register. */
  lemma {:induction false} LongestChainIsLongest(p: Program, r: nat)
    ensures IsLongestChain(p, r, LongestChain(p, r))
  {
    if p == [] {
      assert IsChainInto([], [], r) && ChainLatency([], []) == 0;
      forall chain | IsChainInto([], chain, r)
        ensures ChainLatency([], chain) <= 0
      {
        assert |chain| == 0;
      }
    } else {
      var i, front := p[|p| - 1], p[..|p| - 1];
      assert p == front + [i];
      if i.dst == r {
        LongestChainIsLongest(front, i.dst);
        LongestChainIsLongest(front, i.src);
        LongestChainStep(front, i, LongestChain(front, i.dst), LongestChain(front, i.src));
      } else {
        LongestChainIsLongest(front, r);
        LongestChainFrame(front, i, r, LongestChain(front, r));
      }
    }
  }
}
