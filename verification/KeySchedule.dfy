/**
  The key schedule of `cryptonight/src/cnaes.rs` against the key expansion of section 5.2 of
  FIPS 197. The S-box is a parameter, so the result holds for every substitution table.

  The recurrence is written once, over any kind of word. The standard's words are four bytes; the
  code's are little-endian 32-bit integers, packed four at a time. A map from one kind of word to
  the other that respects the word operations respects the whole expansion.
*/
module KeySchedule {

  // ----- The recurrence -----

  datatype Algebra<!W> = Algebra(xor: (W, W) -> W, sub: W -> W, rot: W -> W, rcon: nat -> W)

  const NK: nat := 8

  /** What word `i` combines with the word eight before it. */
  function Mixed<W>(alg: Algebra<W>, previous: W, i: nat): W {
    if i % NK == 0 then alg.xor(alg.sub(alg.rot(previous)), alg.rcon(i / NK))
    else if i % NK == 4 then alg.sub(previous)
    else previous
  }

  /** The first `n` words of the expanded key. */
  function Table<W>(alg: Algebra<W>, key: seq<W>, n: nat): (w: seq<W>)
    requires |key| == NK
    ensures |w| == n
  {
    if n <= NK then key[..n]
    else
      var w := Table(alg, key, n - 1);
      w + [alg.xor(Mixed(alg, w[n - 2], n - 1), w[n - 1 - NK])]
  }

  /** The recurrence at word `k`. */
  ghost predicate FollowsAt<W>(alg: Algebra<W>, w: seq<W>, k: nat)
    requires NK <= k < |w|
  {
    w[k] == alg.xor(Mixed(alg, w[k - 1], k), w[k - NK])
  }

  /** `w` starts with the key and follows the recurrence of the standard. */
  ghost predicate IsExpansion<W>(alg: Algebra<W>, key: seq<W>, w: seq<W>) {
    && |key| == NK <= |w|
    && w[..NK] == key
    && forall k :: NK <= k < |w| ==> FollowsAt(alg, w, k)
  }

  lemma {:induction false} TableIsExpansion<W>(alg: Algebra<W>, key: seq<W>, n: nat)
    requires |key| == NK <= n
    ensures IsExpansion(alg, key, Table(alg, key, n))
  {
    if n > NK {
      TableIsExpansion(alg, key, n - 1);
      var w, front := Table(alg, key, n), Table(alg, key, n - 1);
      assert w[..n - 1] == front;
      forall k | NK <= k < n
        ensures FollowsAt(alg, w, k)
      {
        if k < n - 1 { assert FollowsAt(alg, front, k); }
      }
    }
  }

  /** `f` respects the operations; constants are only used up to the tenth. */
  ghost predicate IsHomomorphism<V(!new), W>(f: V -> W, a: Algebra<V>, b: Algebra<W>) {
    && (forall x, y :: f(a.xor(x, y)) == b.xor(f(x), f(y)))
    && (forall x :: f(a.sub(x)) == b.sub(f(x)))
    && (forall x :: f(a.rot(x)) == b.rot(f(x)))
    && (forall n :: 1 <= n <= 10 ==> f(a.rcon(n)) == b.rcon(n))
  }

  function Map<V, W>(f: V -> W, s: seq<V>): (t: seq<W>)
    ensures |t| == |s| && forall i :: 0 <= i < |s| ==> t[i] == f(s[i])
  {
    seq(|s|, i requires 0 <= i < |s| => f(s[i]))
  }

  /** A map that respects the operations takes expansions to expansions. */
  lemma ExpansionRespected<V(!new), W>(f: V -> W, a: Algebra<V>, b: Algebra<W>, key: seq<V>, w: seq<V>)
    requires IsHomomorphism(f, a, b) && IsExpansion(a, key, w) && |w| <= 88
    ensures IsExpansion(b, Map(f, key), Map(f, w))
  {
    var t := Map(f, w);
    forall k | NK <= k < |w|
      ensures FollowsAt(b, t, k)
    {
      assert FollowsAt(a, w, k);
      assert 1 <= k / NK <= 10;
      assert f(Mixed(a, w[k - 1], k)) == Mixed(b, t[k - 1], k);
    }
    assert t[..NK] == Map(f, key);
  }

  // ----- The words of the standard -----

  type Sbox = bv8 -> bv8

  datatype Bytes4 = Bytes4(b0: bv8, b1: bv8, b2: bv8, b3: bv8)

  function Xor(a: Bytes4, b: Bytes4): Bytes4 {
    Bytes4(a.b0 ^ b.b0, a.b1 ^ b.b1, a.b2 ^ b.b2, a.b3 ^ b.b3)
  }

  function SubWord(sbox: Sbox, w: Bytes4): Bytes4 {
    Bytes4(sbox(w.b0), sbox(w.b1), sbox(w.b2), sbox(w.b3))
  }

  function RotWord(w: Bytes4): Bytes4 {
    Bytes4(w.b1, w.b2, w.b3, w.b0)
  }

  /** Multiplication by x in GF(2^8). */
  function XTime(b: bv8): bv8 {
    if b & 0x80 == 0 then b << 1 else (b << 1) ^ 0x1B
  }

  /** `x^(i - 1)`. */
  function Power(i: nat): bv8 {
    if i <= 1 then 1 else XTime(Power(i - 1))
  }

  function Standard(sbox: Sbox): Algebra<Bytes4> {
    Algebra(Xor, w => SubWord(sbox, w), RotWord, i => Bytes4(Power(i), 0, 0, 0))
  }

  // ----- The words of the code -----

  function Little(w: Bytes4): bv32 {
    w.b0 as bv32 | (w.b1 as bv32 << 8) | (w.b2 as bv32 << 16) | (w.b3 as bv32 << 24)
  }

  function Byte0(w: bv32): bv8 { (w & 0xFF) as bv8 }

  function Byte1(w: bv32): bv8 { ((w >> 8) & 0xFF) as bv8 }

  function Byte2(w: bv32): bv8 { ((w >> 16) & 0xFF) as bv8 }

  function Byte3(w: bv32): bv8 { (w >> 24) as bv8 }

  function Split(w: bv32): Bytes4 {
    Bytes4(Byte0(w), Byte1(w), Byte2(w), Byte3(w))
  }

  /** `u32::from_le_bytes`. */
  function FromBytes(b0: bv8, b1: bv8, b2: bv8, b3: bv8): bv32 {
    (b3 as bv32 << 24) | (b2 as bv32 << 16) | (b1 as bv32 << 8) | b0 as bv32
  }

  /** Each byte of the word is replaced in its place. */
  function SubstituteWord(sbox: Sbox, w: bv32): bv32 {
    FromBytes(sbox(Byte0(w)), sbox(Byte1(w)), sbox(Byte2(w)), sbox(Byte3(w)))
  }

  lemma FromBytesIs(b0: bv8, b1: bv8, b2: bv8, b3: bv8)
    ensures FromBytes(b0, b1, b2, b3) == Little(Bytes4(b0, b1, b2, b3))
  {}

  lemma SubstituteLittle(sbox: Sbox, w: Bytes4)
    ensures SubstituteWord(sbox, Little(w)) == Little(SubWord(sbox, w))
  {
    SplitLittle(w);
    FromBytesIs(sbox(w.b0), sbox(w.b1), sbox(w.b2), sbox(w.b3));
  }

  /** `rotate_right(8)`. */
  function RotateByte(w: bv32): bv32 {
    (w >> 8) | (w << 24)
  }

  const ROUND_CONSTS: seq<bv8> := [0x00, 0x01, 0x02, 0x04, 0x08, 0x10, 0x20, 0x40, 0x80, 0x1B, 0x36]

  function RoundConst(i: nat): bv32 {
    if i < |ROUND_CONSTS| then ROUND_CONSTS[i] as bv32 else 0
  }

  function InCode(sbox: Sbox): Algebra<bv32> {
    Algebra((x, y) => x ^ y, w => SubstituteWord(sbox, w), RotateByte, RoundConst)
  }

  lemma SplitLittle(w: Bytes4)
    ensures Split(Little(w)) == w
  {}

  lemma LittleSplit(x: bv32)
    ensures Little(Split(x)) == x
  {}

  lemma RotateSplit(x: bv32)
    ensures Split(RotateByte(x)) == RotWord(Split(x))
  {}

  lemma RotateLittle(w: Bytes4)
    ensures RotateByte(Little(w)) == Little(RotWord(w))
  {
    SplitLittle(w);
    RotateSplit(Little(w));
    LittleSplit(RotateByte(Little(w)));
  }

  lemma XorLittle(a: Bytes4, b: Bytes4)
    ensures Little(a) ^ Little(b) == Little(Xor(a, b))
  {}

  /** The constants of the table are the powers of x. */
  lemma {:induction false} RoundConstsArePowers(k: nat)
    requires 1 <= k <= 10
    ensures ROUND_CONSTS[k] == Power(k)
  {
    if k > 1 {
      RoundConstsArePowers(k - 1);
      assert ROUND_CONSTS[k] == XTime(ROUND_CONSTS[k - 1]);
    }
  }

  lemma LittleLowByte(b: bv8)
    ensures Little(Bytes4(b, 0, 0, 0)) == b as bv32
  {}

  lemma LittleIsHomomorphism(sbox: Sbox)
    ensures IsHomomorphism(Little, Standard(sbox), InCode(sbox))
  {
    var a, b := Standard(sbox), InCode(sbox);
    forall x, y
      ensures Little(a.xor(x, y)) == b.xor(Little(x), Little(y))
    {
      XorLittle(x, y);
    }
    forall x
      ensures Little(a.sub(x)) == b.sub(Little(x))
      ensures Little(a.rot(x)) == b.rot(Little(x))
    {
      SubstituteLittle(sbox, x);
      RotateLittle(x);
    }
    forall n | 1 <= n <= 10
      ensures Little(a.rcon(n)) == b.rcon(n)
    {
      RoundConstsArePowers(n);
      LittleLowByte(Power(n));
    }
  }

  function Pack(w0: bv32, w1: bv32, w2: bv32, w3: bv32): bv128 {
    w0 as bv128 | (w1 as bv128 << 32) | (w2 as bv128 << 64) | (w3 as bv128 << 96)
  }

  function Unpack(k: bv128): Four<bv32> {
    ((k & 0xFFFF_FFFF) as bv32, ((k >> 32) & 0xFFFF_FFFF) as bv32,
     ((k >> 64) & 0xFFFF_FFFF) as bv32, (k >> 96) as bv32)
  }

  lemma UnpackPack(w0: bv32, w1: bv32, w2: bv32, w3: bv32)
    ensures Unpack(Pack(w0, w1, w2, w3)) == (w0, w1, w2, w3)
  {}

  // ----- The schedule -----

  /** The four words of a round. */
  type Four<W> = (W, W, W, W)

  /** Lines 210-230: a round from the last word of the one before and the words of the one before that. */
  function NextRound<W>(alg: Algebra<W>, i: nat, previous: W, pprev: Four<W>): Four<W> {
    var temp := if i % 2 == 0 then alg.xor(alg.sub(alg.rot(previous)), alg.rcon(i * 4 / NK)) else alg.sub(previous);
    var w0 := alg.xor(temp, pprev.0);
    var w1 := alg.xor(w0, pprev.1);
    var w2 := alg.xor(w1, pprev.2);
    var w3 := alg.xor(w2, pprev.3);
    (w0, w1, w2, w3)
  }

  /** Words `4 * i` to `4 * i + 3` of an expanded key. */
  function Round<W>(w: seq<W>, i: nat): Four<W>
    requires 4 * i + 4 <= |w|
  {
    (w[4 * i], w[4 * i + 1], w[4 * i + 2], w[4 * i + 3])
  }

  lemma NextRoundMixes<W>(alg: Algebra<W>, i: nat, p: W, back: Four<W>, r: Four<W>)
    requires r.0 == alg.xor(Mixed(alg, p, 4 * i), back.0)
    requires r.1 == alg.xor(Mixed(alg, r.0, 4 * i + 1), back.1)
    requires r.2 == alg.xor(Mixed(alg, r.1, 4 * i + 2), back.2)
    requires r.3 == alg.xor(Mixed(alg, r.2, 4 * i + 3), back.3)
    ensures NextRound(alg, i, p, back) == r
  {
    Residues(i);
  }

  lemma Residues(i: nat)
    ensures (4 * i) % 8 == if i % 2 == 0 then 0 else 4
    ensures (4 * i + 1) % 8 == (4 * i) % 8 + 1
    ensures (4 * i + 2) % 8 == (4 * i) % 8 + 2
    ensures (4 * i + 3) % 8 == (4 * i) % 8 + 3
  {}

  /** Round by round the code computes the words of the expansion. */
  lemma RoundStep<W>(alg: Algebra<W>, key: seq<W>, w: seq<W>, i: nat)
    requires IsExpansion(alg, key, w) && i >= 2 && 4 * i + 4 <= |w|
    ensures Round(w, i) == NextRound(alg, i, Round(w, i - 1).3, Round(w, i - 2))
  {
    var k := 4 * i;
    assert FollowsAt(alg, w, k) && FollowsAt(alg, w, k + 1) && FollowsAt(alg, w, k + 2) && FollowsAt(alg, w, k + 3);
    NextRoundMixes(alg, i, w[k - 1], Round(w, i - 2), Round(w, i));
  }

  lemma FirstRounds<W>(alg: Algebra<W>, key: seq<W>, w: seq<W>)
    requires IsExpansion(alg, key, w) && |w| >= NK
    ensures |key| == NK
    ensures Round(w, 0) == (key[0], key[1], key[2], key[3]) && Round(w, 1) == (key[4], key[5], key[6], key[7])
  {
    assert forall k :: 0 <= k < NK ==> key[k] == w[..NK][k] == w[k];
  }

  ghost predicate Inverse<X(!new), Y>(pack: X -> Y, unpack: Y -> X) {
    forall x :: unpack(pack(x)) == x
  }

  method NextKey<W(!new), K>(alg: Algebra<W>, pack: Four<W> -> K, unpack: K -> Four<W>, i: nat, previous: W,
        pprev: K, ghost key: seq<W>, ghost w: seq<W>)
    returns (k: K, last: W)
    requires IsExpansion(alg, key, w) && i >= 2 && 4 * i + 4 <= |w| && Inverse(pack, unpack)
    requires previous == Round(w, i - 1).3 && pprev == pack(Round(w, i - 2))
    ensures k == pack(Round(w, i)) && last == Round(w, i).3
  {
    RoundStep(alg, key, w, i);
    var round := NextRound(alg, i, previous, unpack(pprev));
    k, last := pack(round), round.3;
  }

  /** The rounds of the expansion that the loop fills in. */
  ghost function Rounds<W>(w: seq<W>): (rounds: seq<Four<W>>)
    requires |w| == 40
    ensures |rounds| == 10 && forall i :: 0 <= i < 10 ==> rounds[i] == Round(w, i)
  {
    seq(10, i requires 0 <= i < 10 => Round(w, i))
  }

  /** The loop of `key_extend`, for any words and any way of packing four of them into a round key. */
  method ExtendKey<W(!new), K(0)>(alg: Algebra<W>, pack: Four<W> -> K, unpack: K -> Four<W>, first: K, second: K,
                                  ghost key: seq<W>, ghost w: seq<W>)
    returns (expanded: array<K>)
    requires IsExpansion(alg, key, w) && |w| == 40
    requires Inverse(pack, unpack) && first == pack(Round(w, 0)) && second == pack(Round(w, 1))
    ensures fresh(expanded) && expanded.Length == 10
    ensures forall i :: 0 <= i < 10 ==> expanded[i] == pack(Round(w, i))
  {
    expanded := new K[10];
    ghost var rounds := Rounds(w);
    expanded[0] := first;
    expanded[1] := second;
    var previous := unpack(expanded[1]).3;
    for i := 2 to 10
      invariant forall j :: 0 <= j < i ==> expanded[j] == pack(rounds[j])
      invariant previous == rounds[i - 1].3
    {
      var k;
      k, previous := NextKey(alg, pack, unpack, i, previous, expanded[i - 2], key, w);
      expanded[i] := k;
    }
  }

  /** The key's words, as the standard reads them. */
  function KeyWords(key: seq<bv8>): (w: seq<Bytes4>)
    requires |key| == 32
    ensures |w| == NK
  {
    seq(NK, i requires 0 <= i < NK => Bytes4(key[4 * i], key[4 * i + 1], key[4 * i + 2], key[4 * i + 3]))
  }

  function PackFour(r: Four<bv32>): bv128 {
    Pack(r.0, r.1, r.2, r.3)
  }

  /** `u128::from_le_bytes` of sixteen bytes, read as four little-endian words. */
  function Load(b: seq<bv8>): Four<bv32>
    requires |b| == 16
  {
    (FromBytes(b[0], b[1], b[2], b[3]), FromBytes(b[4], b[5], b[6], b[7]),
     FromBytes(b[8], b[9], b[10], b[11]), FromBytes(b[12], b[13], b[14], b[15]))
  }

  lemma LoadIs(b: seq<bv8>, w0: Bytes4, w1: Bytes4, w2: Bytes4, w3: Bytes4)
    requires |b| == 16 && w0 == Bytes4(b[0], b[1], b[2], b[3]) && w1 == Bytes4(b[4], b[5], b[6], b[7])
    requires w2 == Bytes4(b[8], b[9], b[10], b[11]) && w3 == Bytes4(b[12], b[13], b[14], b[15])
    ensures Load(b) == (Little(w0), Little(w1), Little(w2), Little(w3))
  {
    FromBytesIs(b[0], b[1], b[2], b[3]);
    FromBytesIs(b[4], b[5], b[6], b[7]);
    FromBytesIs(b[8], b[9], b[10], b[11]);
    FromBytesIs(b[12], b[13], b[14], b[15]);
  }

  lemma FirstKeys(sbox: Sbox, key: seq<bv8>, w: seq<bv32>)
    requires |key| == 32 && |w| == 40 && IsExpansion(InCode(sbox), Map(Little, KeyWords(key)), w)
    ensures Load(key[..16]) == Round(w, 0) && Load(key[16..]) == Round(w, 1)
  {
    FirstRounds(InCode(sbox), Map(Little, KeyWords(key)), w);
    var k := KeyWords(key);
    LoadIs(key[..16], k[0], k[1], k[2], k[3]);
    LoadIs(key[16..], k[4], k[5], k[6], k[7]);
  }

  /** The ten round keys are the first forty words of the standard's AES-256 key expansion. */
  method KeyExtend(sbox: Sbox, key: seq<bv8>) returns (expanded: array<bv128>)
    requires |key| == 32
    ensures fresh(expanded) && expanded.Length == 10
    ensures var w := Map(Little, Table(Standard(sbox), KeyWords(key), 40));
            forall i :: 0 <= i < 10 ==> expanded[i] == PackFour(Round(w, i))
  {
    ghost var w := Table(Standard(sbox), KeyWords(key), 40);
    TableIsExpansion(Standard(sbox), KeyWords(key), 40);
    LittleIsHomomorphism(sbox);
    ExpansionRespected(Little, Standard(sbox), InCode(sbox), KeyWords(key), w);
    forall r: Four<bv32>
      ensures Unpack(PackFour(r)) == r
    {
      UnpackPack(r.0, r.1, r.2, r.3);
    }
    FirstKeys(sbox, key, Map(Little, w));
    expanded := ExtendKey(InCode(sbox), PackFour, Unpack, PackFour(Load(key[..16])), PackFour(Load(key[16..])),
                          Map(Little, KeyWords(key)), Map(Little, w));
  }
}
