/** The CryptoNight-R interpreter (`v4_random_math` in `cryptonight/src/hash_v4.rs`). */
module RandomMathInterpreter {
  import opened Bytes
  import opened RandomMathProgram
  import opened RandomMathSchedule
  import opened RandomMathGenerator

  const REGISTERS: nat := 9

  predicate InRange(i: Instruction) {
    i.dst < REGISTERS && i.src < REGISTERS
  }

  predicate AllInRange(p: Program) {
    forall k :: 0 <= k < |p| ==> InRange(p[k])
  }

  // ----- Words, bit by bit -----

  function Pow2(n: nat): nat {
    if n == 0 then 1 else 2 * Pow2(n - 1)
  }

  function Bit(x: nat, i: nat): nat {
    if i == 0 then x % 2 else Bit(x / 2, i - 1)
  }

  /** One place to the right; the lowest bit goes to the top. */
  function RightOnce(x: Word): Word {
    x / 2 + x % 2 * 0x8000_0000
  }

  /** One place to the left; the top bit goes to the bottom. */
  function LeftOnce(x: Word): Word {
    if x < 0x8000_0000 then 2 * x else 2 * (x - 0x8000_0000) + 1
  }

  function RotateRight(x: Word, k: nat): Word {
    if k == 0 then x else RightOnce(RotateRight(x, k - 1))
  }

  function RotateLeft(x: Word, k: nat): Word
    decreases k
  {
    if k == 0 then x else RotateLeft(LeftOnce(x), k - 1)
  }

  /** The low `n` bits of the exclusive or. */
  function XorBits(x: nat, y: nat, n: nat): (z: nat)
    ensures z < Pow2(n)
  {
    if n == 0 then 0 else 2 * XorBits(x / 2, y / 2, n - 1) + (x % 2 + y % 2) % 2
  }

  lemma Pow2Values()
    ensures Pow2(31) == 0x8000_0000 && Pow2(32) == 0x1_0000_0000
  {
    assert Pow2(8) == 0x100;
    assert Pow2(16) == 0x1_0000;
    assert Pow2(24) == 0x100_0000;
  }

  /** What an instruction does to its destination; all arithmetic is modulo 2^32. */
  function Apply(op: Opcode, dst: Word, src: Word, c: Word): Word {
    match op
    case Mul => dst * src % 0x1_0000_0000
    case Add => (dst + src + c) % 0x1_0000_0000
    case Sub => (dst - src) % 0x1_0000_0000
    case Ror => RotateRight(dst, src % 32)
    case Rol => RotateLeft(dst, src % 32)
    case Xor => Pow2Values(); XorBits(dst, src, 32)
    case Ret => dst
  }

  lemma {:induction false} LowBitsKept(y: nat, h: nat, n: nat, i: nat)
    requires i < n
    ensures Bit(y + h * Pow2(n), i) == Bit(y, i)
  {
    assert h * Pow2(n) == 2 * (h * Pow2(n - 1));
    if i > 0 {
      LowBitsKept(y / 2, h, n - 1, i - 1);
      assert (y + h * Pow2(n)) / 2 == y / 2 + h * Pow2(n - 1);
    }
  }

  lemma {:induction false} TopBitAdded(y: nat, b: nat, n: nat)
    requires y < Pow2(n) && b < 2
    ensures Bit(y + b * Pow2(n), n) == b
  {
    if n > 0 {
      assert b * Pow2(n) == 2 * (b * Pow2(n - 1));
      TopBitAdded(y / 2, b, n - 1);
      assert (y + b * Pow2(n)) / 2 == y / 2 + b * Pow2(n - 1);
    }
  }

  lemma RightOnceBit(x: Word, i: nat)
    requires i < 32
    ensures Bit(RightOnce(x), i) == Bit(x, (i + 1) % 32)
  {
    Pow2Values();
    RightOnceBitAt(x, i, 31);
  }

  lemma RightOnceBitAt(x: Word, i: nat, top: nat)
    requires i <= top == 31 && Pow2(top) == 0x8000_0000
    ensures Bit(RightOnce(x), i) == Bit(x, if i < top then i + 1 else 0)
  {
    if i < top {
      LowBitsKept(x / 2, x % 2, top, i);
    } else {
      TopBitAdded(x / 2, x % 2, top);
    }
  }

  /** ROR moves bit `i + k` to place `i`. */
  lemma {:induction false} RotateRightBit(x: Word, k: nat, i: nat)
    requires i < 32
    ensures Bit(RotateRight(x, k), i) == Bit(x, (i + k) % 32)
  {
    if k > 0 {
      RightOnceBit(RotateRight(x, k - 1), i);
      RotateRightBit(x, k - 1, (i + 1) % 32);
      NextPlace(i, k);
    }
  }

  lemma NextPlace(i: nat, k: nat)
    requires i < 32 && k > 0
    ensures ((i + 1) % 32 + (k - 1)) % 32 == (i + k) % 32
  {}

  /** ROR undoes ROL. */
  lemma {:induction false} RightUndoesLeft(x: Word, k: nat)
    ensures RotateRight(RotateLeft(x, k), k) == x
    decreases k
  {
    if k > 0 {
      RightUndoesLeft(LeftOnce(x), k - 1);
      OnceUndone(x);
    }
  }

  lemma OnceUndone(x: Word)
    ensures RightOnce(LeftOnce(x)) == x
  {}

  /** XOR works bit by bit. */
  lemma {:induction false} XorBit(x: nat, y: nat, n: nat, i: nat)
    requires i < n
    ensures Bit(XorBits(x, y, n), i) == if Bit(x, i) == Bit(y, i) then 0 else 1
  {
    if i > 0 {
      XorBit(x / 2, y / 2, n - 1, i - 1);
      assert XorBits(x, y, n) / 2 == XorBits(x / 2, y / 2, n - 1);
    }
  }

  /** ROR takes bit `i + src` to place `i`, ROL takes it back, XOR works bit by bit. */
  lemma ApplyBits(dst: Word, src: Word, c: Word, i: nat)
    requires i < 32
    ensures Bit(Apply(Ror, dst, src, c), i) == Bit(dst, (i + src) % 32)
    ensures Bit(Apply(Rol, dst, src, c), (i + src) % 32) == Bit(dst, i)
    ensures Bit(Apply(Xor, dst, src, c), i) == if Bit(dst, i) == Bit(src, i) then 0 else 1
  {
    assert (i + src % 32) % 32 == (i + src) % 32;
    RotateRightBit(dst, src % 32, i);
    RightUndoesLeft(dst, src % 32);
    RotateRightBit(RotateLeft(dst, src % 32), src % 32, i);
    XorBit(dst, src, 32, i);
  }

  /** ADD brings in its constant and SUB undoes ADD. */
  lemma ApplyAddSub(dst: Word, src: Word, c: Word)
    ensures Apply(Sub, Apply(Add, dst, src, c), src, c) == Apply(Add, dst, c, 0)
    ensures Apply(Add, dst, 0, 0) == dst && Apply(Add, Apply(Add, dst, src, 0), 0, c) == Apply(Add, dst, src, c)
  {
    RestTaken(dst + src + c, src);
    RestAdded(dst + src, c);
  }

  /** MUL is repeated addition. */
  lemma ApplyMul(dst: Word, src: Word, c: Word)
    requires src < 0xFFFF_FFFF
    ensures Apply(Mul, dst, 0, c) == 0 && Apply(Mul, dst, src + 1, c) == Apply(Add, Apply(Mul, dst, src, c), dst, 0)
  {
    assert dst * (src + 1) == dst * src + dst;
    RestAdded(dst * src, dst);
  }

  lemma RestTaken(x: nat, y: nat)
    ensures (x % 0x1_0000_0000 - y) % 0x1_0000_0000 == (x - y) % 0x1_0000_0000
  {}

  lemma RestAdded(x: nat, y: nat)
    ensures (x % 0x1_0000_0000 + y) % 0x1_0000_0000 == (x + y) % 0x1_0000_0000
  {}

  /** What an instruction computes, as a parameter: `Apply` is the one the source uses. */
  type Alu = (Opcode, Word, Word, Word) -> Word

  function Execute(alu: Alu, i: Instruction, r: seq<Word>): (s: seq<Word>)
    requires |r| == REGISTERS && InRange(i)
    ensures |s| == REGISTERS
  {
    r[i.dst := alu(i.opcode, r[i.dst], r[i.src], i.c)]
  }

  /** The registers after the instructions of `p`, in order. */
  function Run(alu: Alu, p: Program, r: seq<Word>): (s: seq<Word>)
    requires |r| == REGISTERS && AllInRange(p)
    ensures |s| == REGISTERS
  {
    if p == [] then r else Execute(alu, p[|p| - 1], Run(alu, p[..|p| - 1], r))
  }

  /** The interpreter stops at the first RET; `StopsAt` names the instructions before it. */
  predicate StopsAt(p: Program, n: nat) {
    && n <= |p|
    && (n < |p| ==> p[n].opcode == Ret)
    && forall k :: 0 <= k < n ==> p[k].opcode != Ret
  }

  lemma StopsOnce(p: Program, m: nat, n: nat)
    requires StopsAt(p, m) && StopsAt(p, n)
    ensures m == n
  {}

  function StopIndex(p: Program): (n: nat)
    ensures StopsAt(p, n)
  {
    if p == [] then 0
    else
      var front := p[..|p| - 1];
      var n := StopIndex(front);
      if n < |front| then n else if p[|p| - 1].opcode == Ret then |front| else |p|
  }

  /** The instructions executed before the interpreter stops: at most 70. */
  function Live(code: Program): Program
    requires |code| == NUM_INSTRUCTIONS_MAX + 1
  {
    code[..StopIndex(code[..NUM_INSTRUCTIONS_MAX])]
  }

  method Interpret(alu: Alu, code: Program, r: array<Word>)
    requires |code| == NUM_INSTRUCTIONS_MAX + 1 && r.Length == REGISTERS
    requires AllInRange(Live(code))
    modifies r
    ensures r[..] == Run(alu, Live(code), old(r[..]))
  {
    ghost var live := Live(code);
    ghost var start := r[..];
    ghost var seen := code[..NUM_INSTRUCTIONS_MAX];
    assert StopsAt(seen, |live|);
    for i := 0 to NUM_INSTRUCTIONS_MAX
      invariant i <= |live|
      invariant AllInRange(live[..i]) && r[..] == Run(alu, live[..i], start)
    {
      var op := code[i];
      assert op == seen[i];
      if op.opcode == Ret {
        assert live[..i] == live;
        return;
      }
      ghost var before := r[..];
      assert op == live[i];
      r[op.dst] := alu(op.opcode, r[op.dst], r[op.src], op.c);
      assert r[..] == Execute(alu, op, before);
      assert live[..i + 1][..i] == live[..i];
    }
    assert live[..NUM_INSTRUCTIONS_MAX] == live;
  }

  method V4RandomMath(code: Program, r: array<Word>)
    requires |code| == NUM_INSTRUCTIONS_MAX + 1 && r.Length == REGISTERS
    requires AllInRange(Live(code))
    modifies r
    ensures r[..] == Run(Apply, Live(code), old(r[..]))
  {
    Interpret(Apply, code, r);
  }

  /** A well-formed program leaves the constant registers R4-R8 alone. */
  lemma {:induction false} RunKeepsConstants(alu: Alu, p: Program, r: seq<Word>)
    requires |r| == REGISTERS && AllWellFormed(p)
    ensures AllInRange(p)
    ensures Run(alu, p, r)[4..] == r[4..]
  {
    if p != [] {
      RunKeepsConstants(alu, p[..|p| - 1], r);
    }
  }

  /**
    Whatever an accepted program leaves behind it in the array, the interpreter executes its `n`
    instructions and no other, and changes only R0-R3.
  */
  lemma AcceptedRunsExactly(alu: Alu, code: Program, n: nat, m: nat, slots: seq<Slot>, r: seq<Word>)
    requires |code| == NUM_INSTRUCTIONS_MAX + 1 && |r| == REGISTERS
    requires n <= NUM_INSTRUCTIONS_MAX && IsAccepted(code[..n], m, slots) && code[n] == RETURN
    ensures Live(code) == code[..n]
    ensures AllInRange(code[..n]) && Run(alu, code[..n], r)[4..] == r[4..]
  {
    var visible := code[..NUM_INSTRUCTIONS_MAX];
    forall k | 0 <= k < n
      ensures visible[k].opcode != Ret
    {
      assert WellFormed(code[..n][k]);
    }
    StopsOnce(visible, StopIndex(visible), n);
    RunKeepsConstants(alu, code[..n], r);
  }

  /** An accepted program is full or contains a dependency chain of at least 45 cycles. */
  lemma AcceptedHasLongChain(p: Program, m: nat, slots: seq<Slot>)
    requires IsAccepted(p, m, slots)
    ensures |p| == NUM_INSTRUCTIONS_MAX ||
            exists r, chain :: r < 4 && IsChainInto(p, chain, r) && ChainLatency(p, chain) >= TOTAL_LATENCY
  {
    if r :| 0 <= r < 4 && LongestChain(p, r) >= TOTAL_LATENCY {
      LongestChainIsLongest(p, r);
      var chain :| IsChainInto(p, chain, r) && ChainLatency(p, chain) == LongestChain(p, r);
      assert r < 4 && IsChainInto(p, chain, r) && ChainLatency(p, chain) >= TOTAL_LATENCY;
    }
  }
}
