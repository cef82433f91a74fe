/**
  BLAKE-256 (`cryptonight/src/blake256.rs`): the streaming hasher against the one-pass definition
  of section 2.1 of the BLAKE SHA-3 proposal. The compression function is a parameter, so every
  result holds whatever it computes.
*/
module Blake256 {
  import opened Wrappers
  import opened Bytes

  /** The 64-bit counter as its low and high words. */
  datatype Counter = Counter(t0: Word, t1: Word) {
    function Value(): nat { t0 + WORD * t1 }
  }

  /** New chaining value from the old one, a block, and the counter unless it is left out. */
  type Compression = (seq<Word>, seq<Byte>, Option<nat>) -> seq<Word>

  ghost predicate IsCompression(f: Compression) {
    forall h: seq<Word>, b: seq<Byte>, t: Option<nat> :: |f(h, b, t)| == 8
  }

  const WORD: nat := 0x1_0000_0000
  const DOUBLE_WORD: nat := 0x1_0000_0000_0000_0000

  const IV: seq<Word> := [
    0x6A09E667, 0xBB67AE85, 0x3C6EF372, 0xA54FF53A,
    0x510E527F, 0x9B05688C, 0x1F83D9AB, 0x5BE0CD19]

  function Zeros(n: nat): (z: seq<Byte>)
    ensures |z| == n
  {
    seq(n, _ => 0)
  }

  // ----- The definition -----

  /** The eight big-endian bytes of a number modulo 2^64. */
  function LengthBytes(x: nat): (b: seq<Byte>)
    ensures |b| == 8
  {
    BigEndian(x / WORD % WORD, 4) + BigEndian(x % WORD, 4)
  }

  /** A one bit, `8 * gap + 6` zero bits and a one bit. */
  function Marker(gap: nat): (b: seq<Byte>)
    ensures |b| == gap + 1
  {
    if gap == 0 then [0x81] else [0x80] + Zeros(gap - 1) + [0x01]
  }

  /** The gap that leaves room for exactly the eight length bytes at the end of a block. */
  function Gap(length: nat): (g: nat)
    ensures g < 64 && (length + g + 9) % 64 == 0
  {
    var k := length % 64;
    if k <= 55 then 55 - k else 119 - k
  }

  function Pad(m: seq<Byte>): seq<Byte> {
    m + Marker(Gap(|m|)) + LengthBytes(8 * |m|)
  }

  function Block(p: seq<Byte>, i: nat): (b: seq<Byte>)
    requires 64 * i + 64 <= |p|
    ensures |b| == 64
  {
    p[64 * i..64 * i + 64]
  }

  /** The message bits up to and including block `i`; left out when the block holds none. */
  function BlockCounter(length: nat, i: nat): Option<nat> {
    if length <= 64 * i then None
    else if length < 64 * i + 64 then Some(8 * length % DOUBLE_WORD)
    else Some(512 * (i + 1) % DOUBLE_WORD)
  }

  /** The first `n` blocks of a padded message of `length` bytes, compressed in turn. */
  function Folded(f: Compression, p: seq<Byte>, length: nat, n: nat): seq<Word>
    requires 64 * n <= |p|
  {
    if n == 0 then IV else f(Folded(f, p, length, n - 1), Block(p, n - 1), BlockCounter(length, n - 1))
  }

  function Output(h: seq<Word>): (d: seq<Byte>)
    ensures |d| == 4 * |h|
  {
    if h == [] then [] else Output(h[..|h| - 1]) + BigEndian(h[|h| - 1], 4)
  }

  /** Word `i` of the state is bytes `4 * i` to `4 * i + 3` of the digest. */
  lemma {:induction false} OutputWord(h: seq<Word>, i: nat)
    requires i < |h|
    ensures Output(h)[4 * i..4 * i + 4] == BigEndian(h[i], 4)
  {
    var front := h[..|h| - 1];
    if i < |front| {
      OutputWord(front, i);
      assert Output(h)[4 * i..4 * i + 4] == Output(front)[4 * i..4 * i + 4];
    }
  }

  /** The length bytes stand for the length modulo 2^64. */
  lemma LengthBytesValue(x: nat)
    ensures BigEndianValue(LengthBytes(x)[..4]) * WORD + BigEndianValue(LengthBytes(x)[4..]) == x % DOUBLE_WORD
  {
    WordBytes(x / WORD % WORD);
    WordBytes(x % WORD);
    assert LengthBytes(x)[..4] == BigEndian(x / WORD % WORD, 4);
    assert LengthBytes(x)[4..] == BigEndian(x % WORD, 4);
    TwoWordsOf(x);
  }

  lemma WordBytes(w: Word)
    ensures BigEndianValue(BigEndian(w, 4)) == w
  {
    BigEndianIs(w, 4);
    assert Pow256(4) == WORD;
  }

  lemma TwoWordsOf(x: nat)
    ensures x / WORD % WORD * WORD + x % WORD == x % DOUBLE_WORD
  {}

  function DigestPadded(f: Compression, p: seq<Byte>, length: nat): seq<Byte> {
    Output(Folded(f, p, length, |p| / 64))
  }

  function Digest(f: Compression, m: seq<Byte>): seq<Byte> {
    DigestPadded(f, Pad(m), |m|)
  }

  // ----- Absorbing blocks -----

  /** Chaining value and counter. */
  datatype Chain = Chain(h: seq<Word>, t: Counter)

  function Bump(t: Counter): Counter {
    var t0 := WrappingAdd(t.t0, 512);
    Counter(t0, if t0 == 0 then WrappingAdd(t.t1, 1) else t.t1)
  }

  /** The counter moves first; with `nullt` set the compression does not see it. */
  function AbsorbBlock(f: Compression, c: Chain, nullt: bool, block: seq<Byte>): Chain {
    var t := Bump(c.t);
    Chain(f(c.h, block, if nullt then None else Some(t.Value())), t)
  }

  /** The first `n` blocks of `bytes`, taken in by `step` one after the other. */
  function Fold<C>(step: (C, seq<Byte>) -> C, c: C, bytes: seq<Byte>, n: nat): C
    requires 64 * n <= |bytes|
  {
    if n == 0 then c else step(Fold(step, c, bytes, n - 1), Block(bytes, n - 1))
  }

  lemma {:induction false} FoldPrefix<C>(step: (C, seq<Byte>) -> C, c: C, x: seq<Byte>, y: seq<Byte>, n: nat)
    requires 64 * n <= |x| && 64 * n <= |y| && x[..64 * n] == y[..64 * n]
    ensures Fold(step, c, x, n) == Fold(step, c, y, n)
  {
    if n > 0 {
      assert x[..64 * n][..64 * (n - 1)] == x[..64 * (n - 1)];
      assert y[..64 * n][..64 * (n - 1)] == y[..64 * (n - 1)];
      assert Block(x, n - 1) == x[..64 * n][64 * (n - 1)..] == Block(y, n - 1);
      FoldPrefix(step, c, x, y, n - 1);
    }
  }

  lemma {:induction false} FoldSplit<C>(step: (C, seq<Byte>) -> C, c: C, x: seq<Byte>, n: nat, k: nat)
    requires 64 * (n + k) <= |x|
    ensures Fold(step, c, x, n + k) == Fold(step, Fold(step, c, x, n), x[64 * n..], k)
  {
    if k > 0 {
      FoldSplit(step, c, x, n, k - 1);
      BlockDrop(x, n, k - 1);
    }
  }

  function Absorber(f: Compression, nullt: bool): (Chain, seq<Byte>) -> Chain {
    (c, block) => AbsorbBlock(f, c, nullt, block)
  }

  function Absorb(f: Compression, c: Chain, nullt: bool, bytes: seq<Byte>, n: nat): Chain
    requires 64 * n <= |bytes|
  {
    Fold(Absorber(f, nullt), c, bytes, n)
  }

  lemma BlockDrop(x: seq<Byte>, n: nat, i: nat)
    requires 64 * (n + i) + 64 <= |x|
    ensures Block(x[64 * n..], i) == Block(x, n + i)
  {}

  const START := Chain(IV, Counter(0, 0))

  /** The counter of a chain that has only absorbed whole message blocks. */
  ghost predicate Counts(t: Counter, bits: nat) {
    t.t0 % 512 == 0 && t.Value() == bits % DOUBLE_WORD
  }

  lemma BumpCounts(t: Counter, bits: nat)
    requires Counts(t, bits)
    ensures Counts(Bump(t), bits + 512)
  {
    assert (bits + 512) % DOUBLE_WORD == (t.Value() + 512) % DOUBLE_WORD;
    assert t.t0 + 512 <= WORD;
  }

  /** Absorbing the whole blocks of a message follows the definition, counter included. */
  lemma {:induction false} AbsorbFollowsDefinition(f: Compression, m: seq<Byte>, p: seq<Byte>, n: nat)
    requires 64 * n <= |m| <= |p| && m == p[..|m|]
    ensures var c := Absorb(f, START, false, m, n);
            c.h == Folded(f, p, |m|, n) && Counts(c.t, 512 * n)
  {
    if n > 0 {
      AbsorbFollowsDefinition(f, m, p, n - 1);
      BumpCounts(Absorb(f, START, false, m, n - 1).t, 512 * (n - 1));
      assert Block(m, n - 1) == Block(p, n - 1);
    }
  }
}
