/**
  The 128-bit blocks of `cryptonight/src/slow_hash.rs` and `hash_v2.rs` as an instance of
  `SlowHash.Ops`. The AES round and the integer square root are parameters.
*/
module SlowHashOps {
  import opened Bytes
  import opened RandomMathInterpreter
  import opened SlowHash

  type Block = bv128

  const U64_MASK: bv128 := 0xFFFF_FFFF_FFFF_FFFF
  const U32_MASK: bv64 := 0xFFFF_FFFF

  function Low(x: Block): bv64 { (x & U64_MASK) as bv64 }

  function High(x: Block): bv64 { (x >> 64) as bv64 }

  function Join(low: bv64, high: bv64): Block { ((high as bv128) << 64) | low as bv128 }

  function Word32(x: bv64): bv32 { (x & U32_MASK) as bv32 }

  function Low32(x: bv64): Word { Word32(x) as int }

  /** `e2i`: the block a 64-bit address falls in, wrapped to the scratchpad. */
  function Index(a: Block): (j: nat)
    ensures j < MEMORY_BLOCKS
  {
    ((Low(a) / 16) & 0x1FFFF) as bv17 as nat
  }

  /** The four bits below are dropped and 17 are kept. */
  lemma IndexBits(a: Block)
    ensures Index(a) == ((a >> 4) & 0x1FFFF) as bv17 as nat
  {
    assert ((Low(a) / 16) & 0x1FFFF) as bv17 == ((a >> 4) & 0x1FFFF) as bv17;
  }

  function Xor(x: Block, y: Block): Block { x ^ y }

  lemma JoinHalves(low: bv64, high: bv64)
    ensures Low(Join(low, high)) == low && High(Join(low, high)) == high
  {}

  /** `mul`: the 128-bit product of the low halves, with its own halves exchanged. */
  function Multiply(x: Block, y: Block): Block {
    var product := (Low(x) as bv128) * (Low(y) as bv128);
    Join(High(product), Low(product))
  }

  /** A product that fits the low half ends up in the high one. */
  lemma MultiplyByOne(x: Block)
    ensures Multiply(x, 1) == Join(0, Low(x))
  {
    TimesOne(Low(x), Low(1));
  }

  lemma TimesOne(v: bv64, one: bv64)
    requires one == 1
    ensures (v as bv128) * (one as bv128) == Join(v, 0)
  {}

  /** Exchanging the halves is a rotation by 64. */
  lemma JoinExchanges(p: Block)
    ensures Join(High(p), Low(p)) == (p << 64) | (p >> 64)
  {}

  /** `sum_half_blocks`: the halves are added without a carry between them. */
  function SumHalves(x: Block, y: Block): Block {
    Join(Low(x) + Low(y), High(x) + High(y))
  }

  /** The sum of `variant2_shuffle_add`, in 128-bit arithmetic under a mask. */
  function MaskedSum(x: Block, y: Block): Block {
    ((((x >> 64) + (y >> 64)) & U64_MASK) << 64) | ((x + y) & U64_MASK)
  }

  /** Both sums add the halves separately. */
  lemma SumHalvesIs(x: Block, y: Block)
    ensures Low(SumHalves(x, y)) == Low(x) + Low(y) && High(SumHalves(x, y)) == High(x) + High(y)
  {
    JoinHalves(Low(x) + Low(y), High(x) + High(y));
  }

  lemma MaskedSumIs(x: Block, y: Block)
    ensures MaskedSum(x, y) << 64 == (x << 64) + (y << 64)
    ensures MaskedSum(x, y) >> 64 == ((x >> 64) + (y >> 64)) & U64_MASK
  {}

  // ----- Variant 1 -----

  function NewByte11(b: bv8): bv8 {
    var index := (((b >> 3) & 6) | (b & 1)) << 1;
    b ^ (((0x75310 as bv32 >> index) & 0x30) as bv8)
  }

  /** Bits 4 and 5 of the byte are permuted, under the control of bit 0, so nothing is lost. */
  lemma NewByte11Injective(x: bv8, y: bv8)
    requires NewByte11(x) == NewByte11(y)
    ensures x == y
  {}

  function Byte11(x: Block): bv8 { ((x >> 88) & 0xFF) as bv8 }

  function WithByte11(x: Block, b: bv8): Block { (x & !(0xFF as bv128 << 88)) | ((b as bv128) << 88) }

  /** `variant1_1` */
  function TweakByte11(x: Block): Block { WithByte11(x, NewByte11(Byte11(x))) }

  lemma Byte11Replaced(x: Block, b: bv8, c: bv8)
    ensures Byte11(WithByte11(x, b)) == b
    ensures WithByte11(WithByte11(x, b), c) == WithByte11(x, c)
    ensures WithByte11(x, Byte11(x)) == x
  {}

  lemma TweakByte11Injective(x: Block, y: Block)
    requires TweakByte11(x) == TweakByte11(y)
    ensures x == y
  {
    Byte11Replaced(x, NewByte11(Byte11(x)), Byte11(x));
    Byte11Replaced(y, NewByte11(Byte11(y)), Byte11(y));
    NewByte11Injective(Byte11(x), Byte11(y));
  }

  /** `variant1_2` */
  function TweakHigh(tweak: bv64, x: Block): Block {
    x ^ ((tweak as bv128) << 64)
  }

  lemma TweakHighHalves(tweak: bv64, x: Block)
    ensures Low(TweakHigh(tweak, x)) == Low(x) && High(TweakHigh(tweak, x)) == High(x) ^ tweak
  {}

  // ----- Variant 2 -----

  datatype Results = Results(division: bv64, root: bv64)

  const U32: nat := 0x1_0000_0000

  /** The divisor as a number: 31 and 0 are set among the low 32 bits, the 30 between come from the sum. */
  function Divisor(sum: bv64): (d: nat)
    ensures 0x8000_0000 <= d < U32 && d % 2 == 1
  {
    0x8000_0001 + 2 * (((sum >> 1) & 0x3FFF_FFFF) as bv30 as nat)
  }

  /** These are the bits `(sum | 0x80000001) & 0xFFFFFFFF` has. */
  lemma DivisorBits(sum: bv64)
    ensures (sum | 0x8000_0001) & U32_MASK == 0x8000_0000 | (((sum >> 1) & 0x3FFF_FFFF) << 1) | 1
  {}

  /** Two numbers in the two words of one; the first may lose its top bit. */
  function Words(q: nat, r: nat): nat {
    q % U32 + r * U32
  }

  /** Euclidean division by repeated subtraction: quotient and remainder. */
  function QuotRem(a: nat, b: nat): (d: (nat, nat))
    requires b > 0
    ensures a == d.0 * b + d.1 && d.1 < b
  {
    if a < b then (0, a) else var (q, r) := QuotRem(a - b, b); (q + 1, r)
  }

  /** Quotient and remainder, packed. */
  function PackedDivision(dividend: nat, divisor: nat): (x: nat)
    requires 0x8000_0000 <= divisor < U32
    ensures x < 0x1_0000_0000_0000_0000
  {
    var (q, r) := QuotRem(dividend, divisor);
    Words(q, r)
  }

  /** The quotient of a 64-bit number has 33 bits at most. */
  lemma QuotientBound(dividend: nat, divisor: nat)
    requires dividend < 0x1_0000_0000_0000_0000 && 0x8000_0000 <= divisor
    ensures QuotRem(dividend, divisor).0 < 2 * U32
  {
    var q := QuotRem(dividend, divisor).0;
    assert q * 0x8000_0000 <= q * divisor;
  }

  lemma WordsOf(q: nat, r: nat)
    requires q < 2 * U32
    ensures Words(q, r) % U32 == (if q < U32 then q else q - U32) && Words(q, r) / U32 == r
  {
    TwoWords(q % U32, r);
    LowWord(q);
  }

  lemma LowWord(q: nat)
    requires q < 2 * U32
    ensures q % U32 == if q < U32 then q else q - U32
  {}

  lemma TwoWords(low: nat, high: nat)
    requires low < U32
    ensures (low + high * U32) % U32 == low && (low + high * U32) / U32 == high
  {}

  /** Low word: the quotient, less its top bit. High word: the remainder. */
  lemma DivisionExactly(dividend: nat, divisor: nat) returns (q: nat, r: nat)
    requires dividend < 0x1_0000_0000_0000_0000 && 0x8000_0000 <= divisor < U32
    ensures dividend == q * divisor + r && r < divisor && q < 2 * U32
    ensures var x := PackedDivision(dividend, divisor);
            x % U32 == (if q < U32 then q else q - U32) && x / U32 == r
  {
    var d := QuotRem(dividend, divisor);
    q, r := d.0, d.1;
    QuotientBound(dividend, divisor);
    WordsOf(q, r);
  }

  function MixedWith(c2: Block, division: bv64, root: bv64): Block {
    c2 ^ ((division ^ (root << 32)) as bv128)
  }

  /** The last two results go into the low half. */
  lemma MixedWithHalves(c2: Block, division: bv64, root: bv64)
    ensures High(MixedWith(c2, division, root)) == High(c2)
    ensures Low(MixedWith(c2, division, root)) == Low(c2) ^ division ^ (root << 32)
  {}

  /** `variant2_integer_math` */
  function Divide(sqrt: bv64 -> bv64, c2: Block, c1: Block, m: Results): (Block, Results) {
    var c2' := MixedWith(c2, m.division, m.root);
    var divisor := Divisor(Low(c1) + ((m.root << 1) & U32_MASK));
    var division := PackedDivision(High(c1) as nat, divisor) as bv64;
    (c2', Results(division, sqrt(Low(c1) + division)))
  }

  // ----- Variant R -----

  /** A block from its four words, lowest first. */
  function FromWords(w0: bv32, w1: bv32, w2: bv32, w3: bv32): Block {
    (w0 as bv128) | ((w1 as bv128) << 32) | ((w2 as bv128) << 64) | ((w3 as bv128) << 96)
  }

  lemma WordsOfBlock(w0: bv32, w1: bv32, w2: bv32, w3: bv32)
    ensures var x := FromWords(w0, w1, w2, w3);
            && Word32(Low(x)) == w0 && Word32(Low(x) >> 32) == w1
            && Word32(High(x)) == w2 && Word32(High(x) >> 32) == w3
  {}

  function FromSums(r0: Word, r1: Word, r2: Word, r3: Word): Block {
    FromWords(WrappingAdd(r0, r1) as bv32, WrappingAdd(r2, r3) as bv32, 0, 0)
  }

  function Constants(a1: Block, b0: Block, b1: Block): (k: seq<Word>)
    ensures |k| == 5
  {
    [Low32(Low(a1)), Low32(High(a1)), Low32(Low(b0)), Low32(Low(b1)), Low32(High(b1))]
  }

  function FromRegisters(r2: Word, r3: Word, r0: Word, r1: Word): Block {
    FromWords(r2 as bv32, r3 as bv32, r0 as bv32, r1 as bv32)
  }

  /** R4-R8 are words 0 and 2 of `a1`, word 0 of `b0`, and words 0 and 2 of `b1`. */
  lemma ConstantsExactly(a: (bv32, bv32, bv32, bv32), b: (bv32, bv32, bv32, bv32), d: (bv32, bv32, bv32, bv32))
    ensures Constants(FromWords(a.0, a.1, a.2, a.3), FromWords(b.0, b.1, b.2, b.3), FromWords(d.0, d.1, d.2, d.3))
            == [a.0 as int, a.2 as int, b.0 as int, d.0 as int, d.2 as int]
  {
    WordsOfBlock(a.0, a.1, a.2, a.3);
    WordsOfBlock(b.0, b.1, b.2, b.3);
    WordsOfBlock(d.0, d.1, d.2, d.3);
  }

  /** R2, R3, R0 and R1, from the lowest word up; `WordsOfBlock` reads them back. */
  lemma RegistersExactly(r0: Word, r1: Word, r2: Word, r3: Word, w0: bv32, w1: bv32, w2: bv32, w3: bv32)
    requires w0 == r0 as bv32 && w1 == r1 as bv32 && w2 == r2 as bv32 && w3 == r3 as bv32
    ensures FromRegisters(r2, r3, r0, r1) == FromWords(w2, w3, w0, w1)
  {}

  /** The sums of R0 and R1 and of R2 and R3, in the low half. */
  lemma SumsExactly(r0: Word, r1: Word, r2: Word, r3: Word, low: bv32, high: bv32)
    requires low == WrappingAdd(r0, r1) as bv32 && high == WrappingAdd(r2, r3) as bv32
    ensures var x := FromSums(r0, r1, r2, r3);
            && Word32(Low(x)) == low && Word32(Low(x) >> 32) == high
            && Word32(High(x)) == 0 && Word32(High(x) >> 32) == 0
  {
    WordsOfBlock(low, high, 0, 0);
  }

  // ----- The instance -----

  function Instance(aes: (Block, Block) -> Block, tweak: bv64, sqrt: bv64 -> bv64): Ops<Block, Results> {
    Ops(Index, aes, Xor, SumHalves, MaskedSum, Multiply, TweakByte11, x => TweakHigh(tweak, x),
        (c2, c1, m) => Divide(sqrt, c2, c1, m), Apply, FromSums, Constants, FromRegisters)
  }

  lemma XorZero(x: Block)
    ensures Xor(x, FromSums(0, 0, 0, 0)) == x && Xor(x, FromRegisters(0, 0, 0, 0)) == x
  {}

  /** The loop's theorems apply to the source's blocks, whatever the AES round is. */
  lemma InstanceIsLawful(aes: (Block, Block) -> Block, tweak: bv64, sqrt: bv64 -> bv64)
    ensures Lawful(Instance(aes, tweak, sqrt))
  {
    var ops := Instance(aes, tweak, sqrt);
    forall x
      ensures ops.xor(x, ops.fromSums(0, 0, 0, 0)) == x && ops.xor(x, ops.fromRegisters(0, 0, 0, 0)) == x
    {
      XorZero(x);
    }
  }
}
