/** The streaming hasher of `cryptonight/src/blake256.rs`, in place. */
module Blake256Hasher {
  import opened Wrappers
  import opened Bytes
  import opened Blake256

  /** The whole 64-byte blocks at the front of `m`. */
  function WholeBlocks(m: seq<Byte>): seq<Byte> {
    m[..|m| - |m| % 64]
  }

  /** What a message becomes when a chunk is added: an empty chunk drops the bytes still buffered. */
  function AddChunk(m: seq<Byte>, chunk: seq<Byte>): seq<Byte> {
    if chunk == [] then WholeBlocks(m) else m + chunk
  }

  class Hasher {
    const compress: Compression
    var h: seq<Word>
    var t0: Word
    var t1: Word
    var buflen: nat
    var nullt: bool
    const buf: array<Byte>

    ghost predicate Valid()
      reads this, buf
    {
      IsCompression(compress) && |h| == 8 && buf.Length == 64 && buflen % 8 == 0 && buflen < 512
    }

    ghost function Pending(): seq<Byte>
      requires Valid()
      reads this, buf
    {
      buf[..buflen / 8]
    }

    ghost function State(): Chain
      reads this
    {
      Chain(h, Counter(t0, t1))
    }

    /** The hasher has taken in exactly the message `m`, which has `n` whole blocks. */
    ghost predicate HoldsBlocks(m: seq<Byte>, n: nat)
      reads this, buf
    {
      && Valid()
      && !nullt
      && 64 * n <= |m| < 64 * n + 64
      && State() == Absorb(compress, START, false, m, n)
      && Pending() == m[64 * n..]
    }

    ghost predicate Holds(m: seq<Byte>)
      reads this, buf
    {
      HoldsBlocks(m, |m| / 64)
    }

    constructor (f: Compression)
      requires IsCompression(f)
      ensures compress == f && Holds([]) && fresh(buf)
    {
      compress := f;
      h := IV;
      t0, t1 := 0, 0;
      buflen := 0;
      nullt := false;
      buf := new Byte[64](_ => 0);
    }

    method CompressBlock(block: seq<Byte>)
      requires Valid() && |block| == 64
      modifies this`h, this`t0, this`t1
      ensures Valid()
      ensures State() == AbsorbBlock(compress, old(State()), nullt, block)
    {
      t0 := WrappingAdd(t0, 512);
      if t0 == 0 { t1 := WrappingAdd(t1, 1); }
      h := compress(h, block, if nullt then None else Some(Counter(t0, t1).Value()));
    }

    method CopyIn(at: nat, data: seq<Byte>)
      requires buf.Length == 64 && at + |data| <= 64
      modifies buf
      ensures buf[..at + |data|] == old(buf[..at]) + data
    {
      forall i | 0 <= i < |data| { buf[at + i] := data[i]; }
    }

    /** The first branch of `update`: complete the buffered block and compress it. */
    method CompleteBuffer(data: seq<Byte>) returns (rest: seq<Byte>)
      requires Valid() && buflen / 8 + |data| >= 64
      modifies this`h, this`t0, this`t1, buf
      ensures Valid()
      ensures State() == AbsorbBlock(compress, old(State()), nullt, (old(Pending()) + data)[..64])
      ensures rest == (old(Pending()) + data)[64..]
    {
      var left := buflen / 8;
      var fill := 64 - left;
      CopyIn(left, data[..fill]);
      assert buf[..] == buf[..64] == (old(Pending()) + data)[..64];
      CompressBlock(buf[..]);
      rest := data[fill..];
    }

    /** The loop of `update`: compress whole blocks straight from the input. */
    method CompressWhole(data: seq<Byte>) returns (rest: seq<Byte>)
      requires Valid()
      modifies this`h, this`t0, this`t1
      ensures Valid()
      ensures State() == Absorb(compress, old(State()), nullt, data, |data| / 64)
      ensures rest == data[64 * (|data| / 64)..]
    {
      rest := data;
      ghost var n := 0;
      while |rest| * 8 >= 512
        invariant 64 * n <= |data| && rest == data[64 * n..]
        invariant Valid()
        invariant State() == Absorb(compress, old(State()), nullt, data, n)
      {
        assert rest[..64] == Block(data, n);
        CompressBlock(rest[..64]);
        rest := rest[64..];
        n := n + 1;
      }
    }

    /** Takes in the buffered bytes followed by `data`, block by block; the rest stays buffered. */
    method Update(data: seq<Byte>)
      requires Valid() && |data| < 0x2000_0000_0000_0000
      modifies this, buf
      ensures Valid() && nullt == old(nullt)
      ensures var bytes := old(Pending()) + data;
              && State() == Absorb(compress, old(State()), nullt, bytes, |bytes| / 64)
              && Pending() == if data == [] then [] else bytes[64 * (|bytes| / 64)..]
    {
      ghost var start, bytes := State(), Pending() + data;
      var rest, left := data, buflen / 8;
      if left != 0 && |data| >= 64 - left {
        rest := CompleteBuffer(data);
        left := 0;
        FirstBlockThenRest(compress, start, nullt, bytes);
      } else if left != 0 {
        assert |bytes| / 64 == 0 && |rest| / 64 == 0;
      } else {
        assert bytes == rest;
      }
      rest := CompressWhole(rest);
      Keep(left, rest);
    }

    /** The end of `update`: what is left goes behind the first `left` buffered bytes. */
    method Keep(left: nat, rest: seq<Byte>)
      requires Valid() && left + |rest| < 64
      modifies this`buflen, buf
      ensures Valid()
      ensures Pending() == if rest == [] then [] else old(buf[..left]) + rest
    {
      if |rest| > 0 {
        CopyIn(left, rest);
        buflen := left * 8 + |rest| * 8;
      } else {
        buflen := 0;
      }
    }

    /** Feeding one chunk, in terms of the message taken in so far. */
    method Feed(data: seq<Byte>, ghost m: seq<Byte>)
      requires Holds(m) && |data| < 0x2000_0000_0000_0000
      modifies this, buf
      ensures Holds(AddChunk(m, data))
    {
      if data == [] { MessageShrinks(compress, m); } else { MessageGrows(compress, m, data); }
      Update(data);
    }

    /** Ready for the length bytes: the counter has been set back by what the last update adds. */
    ghost predicate Padded(m: seq<Byte>, p: seq<Byte>, last: nat)
      reads this, buf
    {
      && Valid()
      && |p| == 64 * last + 64
      && h == Folded(compress, p, |m|, last)
      && Pending() == p[64 * last..64 * last + 56]
      && BlockCounter(|m|, last) == if nullt then None else Some(Bump(Counter(t0, t1)).Value())
    }

    /** An update that stays within the buffer. */
    method Append(data: seq<Byte>)
      requires Valid() && data != [] && |Pending()| + |data| < 64
      modifies this, buf
      ensures Valid() && nullt == old(nullt) && State() == old(State())
      ensures Pending() == old(Pending()) + data
    {
      Update(data);
    }

    /** An update that exactly fills the buffer. */
    method FillBlock(data: seq<Byte>)
      requires Valid() && data != [] && |Pending()| + |data| == 64
      modifies this, buf
      ensures Valid() && nullt == old(nullt)
      ensures State() == AbsorbBlock(compress, old(State()), nullt, old(Pending()) + data)
      ensures Pending() == []
    {
      OneBlock(compress, State(), nullt, Pending() + data);
      Update(data);
    }

    method SetBackBy(bits: nat)
      requires Valid() && bits <= 512
      modifies this`t0
      ensures t0 == WrappingSub(old(t0), bits)
    {
      t0 := WrappingSub(t0, bits);
    }

    method PadOneByte(ghost m: seq<Byte>, ghost p: seq<Byte>, ghost n: nat)
      requires HoldsBlocks(m, n) && buflen == 440
      requires HasShape(p, m, 0)
      modifies this, buf
      ensures Padded(m, p, n)
    {
      ShortShape(compress, m, p, n, 55);
      SetBackCounter(compress, m, n, 55);
      SubAdds(t0, 8, 64);
      SetBackBy(8);
      Append([0x81]);
      SetBackBy(64);
    }

    method PadThisBlock(ghost m: seq<Byte>, ghost p: seq<Byte>, ghost n: nat)
      requires HoldsBlocks(m, n) && buflen < 440
      requires HasShape(p, m, 55 - buflen / 8)
      modifies this, buf
      ensures Padded(m, p, n)
    {
      ghost var k := |Pending()|;
      ShortShape(compress, m, p, n, k);
      if k > 0 { SetBackCounter(compress, m, n, k); }
      if buflen == 0 { nullt := true; }
      AppendMarker();
      SetBackBy(64);
      SubAdds(old(t0), 448 - 8 * k, 64);
    }

    method AppendMarker()
      requires Valid() && buflen < 440
      modifies this, buf
      ensures Valid() && nullt == old(nullt) && h == old(h) && t1 == old(t1)
      ensures Pending() == old(Pending()) + Marker(55 - |old(Pending())|)
      ensures t0 == WrappingSub(old(t0), 448 - 8 * |old(Pending())|)
    {
      ghost var k := |Pending()|;
      SubAdds(t0, 440 - 8 * k, 8);
      PaddingShape(55 - k);
      var zeros := PADDING[..(440 - buflen) / 8];
      SetBackBy(440 - buflen);
      Append(zeros);
      Append([0x01]);
      SetBackBy(8);
    }

    /** The marker starts in the message's last block and ends in one of its own. */
    method PadNextBlock(ghost m: seq<Byte>, ghost p: seq<Byte>, ghost n: nat)
      requires HoldsBlocks(m, n) && buflen > 440
      requires HasShape(p, m, 119 - buflen / 8)
      modifies this, buf
      ensures Padded(m, p, n + 1)
    {
      LongShape(compress, m, p, n, buflen / 8);
      EndMessageBlock(m, n);
      AppendTrailer();
    }

    method AppendTrailer()
      requires Valid() && Pending() == []
      modifies this, buf
      ensures Valid() && nullt && h == old(h)
      ensures Pending() == Zeros(55) + [0x01]
    {
      SetBackBy(440);
      PaddingShape(64);
      Append(PADDING[1..56]);
      nullt := true;
      Append([0x01]);
      SetBackBy(8);
      SetBackBy(64);
    }

    method EndMessageBlock(ghost m: seq<Byte>, ghost n: nat)
      requires HoldsBlocks(m, n) && buflen > 440
      modifies this, buf
      ensures Valid() && Pending() == []
      ensures h == compress(old(h), old(Pending()) + ([0x80] + Zeros(63 - old(buflen) / 8)), BlockCounter(|m|, n))
    {
      ghost var k := |Pending()|;
      SetBackCounter(compress, m, n, k);
      PaddingShape(64 - k);
      var zeros := PADDING[..(512 - buflen) / 8];
      SetBackBy(512 - buflen);
      FillBlock(zeros);
    }

    /** Lines 128-135: the message length in bits, from the counter and the buffer. */
    method EncodeLength(ghost m: seq<Byte>, ghost n: nat) returns (msglen: seq<Byte>)
      requires HoldsBlocks(m, n)
      ensures msglen == LengthBytes(8 * |m|)
    {
      var lo := WrappingAdd(t0, buflen);
      var hi := if lo < buflen then WrappingAdd(t1, 1) else t1;
      MessageLength(compress, m, n);
      msglen := BigEndian(hi, 4) + BigEndian(lo, 4);
    }

    method PadMessage(ghost m: seq<Byte>, ghost p: seq<Byte>, ghost n: nat) returns (ghost last: nat)
      requires HoldsBlocks(m, n)
      requires HasShape(p, m, Gap(|m|))
      modifies this, buf
      ensures Padded(m, p, last)
    {
      GapIs(|m|, n, |Pending()|);
      last := n;
      if buflen == 440 {
        PadOneByte(m, p, n);
      } else if buflen < 440 {
        PadThisBlock(m, p, n);
      } else {
        PadNextBlock(m, p, n);
        last := n + 1;
      }
    }

    /** Ends the message: padding, then its length; the digest is the one the definition gives. */
    method Finalize(ghost m: seq<Byte>) returns (digest: seq<Byte>)
      requires Holds(m)
      modifies this, buf
      ensures digest == Digest(compress, m)
    {
      var msglen := EncodeLength(m, |m| / 64);
      ghost var p := Pad(m);
      PadHasShape(m, p, msglen);
      ghost var last := PadMessage(m, p, |m| / 64);
      AppendLength(msglen, m, p, last);
      DigestIsFold(compress, m, p, last);
      digest := Output(h);
    }

    /** The length completes the last block. */
    method AppendLength(msglen: seq<Byte>, ghost m: seq<Byte>, ghost p: seq<Byte>, ghost last: nat)
      requires Padded(m, p, last) && |msglen| == 8 && p[|p| - 8..] == msglen
      modifies this, buf
      ensures h == Folded(compress, p, |m|, last + 1)
    {
      LastBlock(p, msglen, last);
      FillBlock(msglen);
    }
  }

  /** A message, its marker with the given gap, and eight more bytes. */
  ghost predicate HasShape(p: seq<Byte>, m: seq<Byte>, gap: nat) {
    && |p| == |m| + gap + 9
    && p[..|m|] == m
    && p[|m|..|m| + gap + 1] == Marker(gap)
  }

  lemma GapIs(length: nat, n: nat, k: nat)
    requires length == 64 * n + k && k < 64
    ensures Gap(length) == if k <= 55 then 55 - k else 119 - k
  {}

  const PADDING: seq<Byte> := [0x80] + Zeros(63)

  lemma PaddingShape(n: nat)
    requires 0 < n <= 64
    ensures PADDING[..n] == [0x80] + Zeros(n - 1)
    ensures PADDING[1..56] == Zeros(55)
  {}

  lemma OneBlock(f: Compression, c: Chain, nullt: bool, block: seq<Byte>)
    requires |block| == 64
    ensures Absorb(f, c, nullt, block, 1) == AbsorbBlock(f, c, nullt, block)
  {
    assert Block(block, 0) == block;
    assert Absorb(f, c, nullt, block, 0) == c;
  }

  /** Subtracting before the update that adds 512 leaves the counter of a block with `k` message bytes. */
  lemma SetBack(t: Counter, k: nat)
    requires t.t0 % 512 == 0 && 0 < k < 64
    ensures t.t0 + 8 * k < WORD
    ensures Bump(Counter(WrappingSub(t.t0, 512 - 8 * k), t.t1)) == Counter(t.t0 + 8 * k, t.t1)
  {
    assert t.t0 == 0 || t.t0 >= 512;
    assert t.t0 <= WORD - 512;
  }

  lemma SetBackCounter(f: Compression, m: seq<Byte>, n: nat, k: nat)
    requires |m| == 64 * n + k && 0 < k < 64
    ensures var t := Absorb(f, START, false, m, n).t;
            && Some(Bump(Counter(WrappingSub(t.t0, 512 - 8 * k), t.t1)).Value()) == BlockCounter(|m|, n)
  {
    AbsorbFollowsDefinition(f, m, m, n);
    SetBack(Absorb(f, START, false, m, n).t, k);
    AddToCounter(Absorb(f, START, false, m, n).t, 512 * n, 8 * k);
  }

  lemma SubAdds(t: Word, a: Word, b: Word)
    requires a + b < WORD
    ensures WrappingSub(WrappingSub(t, a), b) == WrappingSub(t, a + b)
  {}

  lemma MessageLength(f: Compression, m: seq<Byte>, n: nat)
    requires 64 * n <= |m| < 64 * n + 64
    ensures var t, rest := Absorb(f, START, false, m, n).t, 8 * (|m| - 64 * n);
            && t.t0 + rest < WORD
            && BigEndian(t.t1, 4) + BigEndian(t.t0 + rest, 4) == LengthBytes(8 * |m|)
  {
    AbsorbFollowsDefinition(f, m, m, n);
    var t, rest := Absorb(f, START, false, m, n).t, 8 * (|m| - 64 * n);
    AddToCounter(t, 512 * n, rest);
    Halves(8 * |m|, t.t0 + rest, t.t1);
  }

  lemma AddToCounter(t: Counter, bits: nat, more: nat)
    requires Counts(t, bits) && more < 512
    ensures t.t0 + more < WORD
    ensures (bits + more) % DOUBLE_WORD == t.t0 + more + WORD * t.t1
  {}

  lemma Halves(x: nat, lo: Word, hi: Word)
    requires x % DOUBLE_WORD == lo + WORD * hi
    ensures x % WORD == lo && x / WORD % WORD == hi
  {
    var q := x / DOUBLE_WORD;
    assert x == (q * WORD + hi) * WORD + lo;
  }

  /** When the marker fits in the block the message ends in. */
  lemma ShortShape(f: Compression, m: seq<Byte>, p: seq<Byte>, n: nat, k: nat)
    requires |m| == 64 * n + k && k <= 55 && HasShape(p, m, 55 - k)
    ensures |p| == 64 * n + 64
    ensures p[64 * n..64 * n + 56] == m[64 * n..] + Marker(55 - k)
    ensures Absorb(f, START, false, m, n).h == Folded(f, p, |m|, n)
    ensures k == 0 ==> BlockCounter(|m|, n) == None
  {
    assert p[64 * n..64 * n + 56] == p[..|m|][64 * n..] + p[|m|..|m| + 56 - k];
    AbsorbFollowsDefinition(f, m, p, n);
  }

  /** When it does not: the message ends in the last block but one, which carries its counter. */
  lemma LongShape(f: Compression, m: seq<Byte>, p: seq<Byte>, n: nat, k: nat)
    requires |m| == 64 * n + k && 55 < k < 64 && HasShape(p, m, 119 - k)
    ensures |p| == 64 * n + 128
    ensures p[64 * n + 64..64 * n + 120] == Zeros(55) + [0x01]
    ensures Folded(f, p, |m|, n + 1) ==
            f(Absorb(f, START, false, m, n).h, m[64 * n..] + ([0x80] + Zeros(63 - k)), BlockCounter(|m|, n))
    ensures BlockCounter(|m|, n + 1) == None
  {
    LongCut(m, p, n, k);
    AbsorbFollowsDefinition(f, m, p, n);
  }

  lemma LongCut(m: seq<Byte>, p: seq<Byte>, n: nat, k: nat)
    requires |m| == 64 * n + k && 55 < k < 64 && HasShape(p, m, 119 - k)
    ensures |p| == 64 * n + 128
    ensures Block(p, n) == m[64 * n..] + ([0x80] + Zeros(63 - k))
    ensures p[64 * n + 64..64 * n + 120] == Zeros(55) + [0x01]
  {
    LongMarker(119 - k, 64 - k);
    CutAround(p, 64 * n, |m|, 64 * n + 64, 64 * n + 120);
  }

  /** The slices of `p` on both sides of a cut at `c`, where `m` ends at `b`. */
  lemma CutAround(p: seq<Byte>, a: nat, b: nat, c: nat, d: nat)
    requires a <= b <= c <= d <= |p|
    ensures p[a..c] == p[..b][a..] + p[b..d][..c - b]
    ensures p[c..d] == p[b..d][c - b..]
  {}

  lemma LongMarker(gap: nat, cut: nat)
    requires 0 < cut <= gap
    ensures Marker(gap)[..cut] == [0x80] + Zeros(cut - 1)
    ensures Marker(gap)[cut..] == Zeros(gap - cut) + [0x01]
  {}

  lemma PadHasShape(m: seq<Byte>, p: seq<Byte>, length: seq<Byte>)
    requires |length| == 8 && p == m + Marker(Gap(|m|)) + length
    ensures HasShape(p, m, Gap(|m|)) && p[|p| - 8..] == length
  {}

  lemma DigestIsFold(f: Compression, m: seq<Byte>, p: seq<Byte>, last: nat)
    requires p == Pad(m) && |p| == 64 * last + 64
    ensures Digest(f, m) == Output(Folded(f, p, |m|, last + 1))
  {}

  lemma LastBlock(p: seq<Byte>, length: seq<Byte>, last: nat)
    requires |p| == 64 * last + 64 && p[|p| - 8..] == length
    ensures p[64 * last..64 * last + 56] + length == Block(p, last)
    ensures |p| / 64 == last + 1
  {
    assert length == p[64 * last + 56..64 * last + 64];
  }

  lemma MessageGrows(f: Compression, m: seq<Byte>, data: seq<Byte>)
    ensures var bytes, longer := m[64 * (|m| / 64)..] + data, m + data;
            && Absorb(f, Absorb(f, START, false, m, |m| / 64), false, bytes, |bytes| / 64)
               == Absorb(f, START, false, longer, |longer| / 64)
            && bytes[64 * (|bytes| / 64)..] == longer[64 * (|longer| / 64)..]
  {
    var n, longer := |m| / 64, m + data;
    var bytes := m[64 * n..] + data;
    var k := |bytes| / 64;
    assert longer[64 * n..] == bytes;
    assert |longer| / 64 == n + k;
    FoldPrefix(Absorber(f, false), START, m, longer, n);
    FoldSplit(Absorber(f, false), START, longer, n, k);
    assert longer[64 * (n + k)..] == bytes[64 * k..];
  }

  lemma MessageShrinks(f: Compression, m: seq<Byte>)
    ensures Absorb(f, START, false, WholeBlocks(m), |WholeBlocks(m)| / 64) == Absorb(f, START, false, m, |m| / 64)
  {
    assert |WholeBlocks(m)| / 64 == |m| / 64;
    FoldPrefix(Absorber(f, false), START, m, WholeBlocks(m), |m| / 64);
  }

  lemma FirstBlockThenRest(f: Compression, c: Chain, nullt: bool, bytes: seq<Byte>)
    requires |bytes| >= 64
    ensures |bytes| / 64 == 1 + |bytes[64..]| / 64
    ensures Absorb(f, c, nullt, bytes, |bytes| / 64) ==
            Absorb(f, AbsorbBlock(f, c, nullt, bytes[..64]), nullt, bytes[64..], |bytes[64..]| / 64)
    ensures bytes[64 * (|bytes| / 64)..] == bytes[64..][64 * (|bytes[64..]| / 64)..]
  {
    FoldSplit(Absorber(f, nullt), c, bytes, 1, |bytes[64..]| / 64);
    assert Block(bytes, 0) == bytes[..64];
    assert Absorb(f, c, nullt, bytes, 0) == c;
  }

  // ----- Messages given in chunks -----

  /** The message a hasher has taken in after a list of updates. */
  function Absorbed(chunks: seq<seq<Byte>>): seq<Byte> {
    if chunks == [] then [] else AddChunk(Absorbed(chunks[..|chunks| - 1]), chunks[|chunks| - 1])
  }

  function Concat(chunks: seq<seq<Byte>>): seq<Byte> {
    if chunks == [] then [] else Concat(chunks[..|chunks| - 1]) + chunks[|chunks| - 1]
  }

  /** Every empty chunk arrives when the buffer is empty. */
  predicate EmptyChunksAligned(chunks: seq<seq<Byte>>) {
    forall i :: 0 <= i < |chunks| && chunks[i] == [] ==> |Concat(chunks[..i])| % 64 == 0
  }

  /** Updates take in their concatenation exactly when no empty chunk meets a partly filled buffer. */
  lemma {:induction false} AbsorbedExactly(chunks: seq<seq<Byte>>)
    ensures Absorbed(chunks) == Concat(chunks) <==> EmptyChunksAligned(chunks)
    ensures |Absorbed(chunks)| <= |Concat(chunks)|
    ensures |Absorbed(chunks)| == |Concat(chunks)| ==> Absorbed(chunks) == Concat(chunks)
  {
    if chunks != [] {
      var front, last := chunks[..|chunks| - 1], chunks[|chunks| - 1];
      AbsorbedExactly(front);
      AlignedSplits(chunks);
      AddChunkIsLossless(Absorbed(front), last);
    }
  }

  lemma AddChunkIsLossless(m: seq<Byte>, chunk: seq<Byte>)
    ensures AddChunk(m, chunk) <= m + chunk
    ensures AddChunk(m, chunk) == m + chunk <==> chunk != [] || |m| % 64 == 0
    ensures |AddChunk(m, chunk)| == |m + chunk| ==> AddChunk(m, chunk) == m + chunk
  {}

  lemma AlignedSplits(chunks: seq<seq<Byte>>)
    requires chunks != []
    ensures var front, last := chunks[..|chunks| - 1], chunks[|chunks| - 1];
            EmptyChunksAligned(chunks) <==> EmptyChunksAligned(front) && (last == [] ==> |Concat(front)| % 64 == 0)
  {
    var front := chunks[..|chunks| - 1];
    assert forall i :: 0 <= i < |front| ==> front[i] == chunks[i] && front[..i] == chunks[..i];
  }

  lemma EmptyChunkDropsBytes(b: Byte)
    ensures Absorbed([[b], []]) == [] && Concat([[b], []]) == [b]
  {
    var chunks := [[b], []];
    assert chunks[..1] == [[b]] && [[b]][..0] == [];
    assert Absorbed([[b]]) == [b] && Concat([[b]]) == [b];
  }

  /** One-shot hashing follows the definition for every message. */
  method DigestOf(f: Compression, data: seq<Byte>) returns (digest: seq<Byte>)
    requires IsCompression(f) && |data| < 0x2000_0000_0000_0000
    ensures digest == Digest(f, data)
  {
    var hasher := new Hasher(f);
    hasher.Feed(data, []);
    assert AddChunk([], data) == data;
    digest := hasher.Finalize(data);
  }

  /** Any number of updates; without a misplaced empty chunk the digest is that of the whole message. */
  method DigestChunks(f: Compression, chunks: seq<seq<Byte>>) returns (digest: seq<Byte>)
    requires IsCompression(f)
    requires forall i :: 0 <= i < |chunks| ==> |chunks[i]| < 0x2000_0000_0000_0000
    ensures digest == Digest(f, Absorbed(chunks))
    ensures EmptyChunksAligned(chunks) ==> digest == Digest(f, Concat(chunks))
  {
    var hasher := new Hasher(f);
    for i := 0 to |chunks|
      invariant hasher.compress == f && fresh(hasher) && fresh(hasher.buf)
      invariant hasher.Holds(Absorbed(chunks[..i]))
    {
      assert chunks[..i + 1][..i] == chunks[..i];
      hasher.Feed(chunks[i], Absorbed(chunks[..i]));
    }
    assert chunks[..|chunks|] == chunks;
    AbsorbedExactly(chunks);
    digest := hasher.Finalize(Absorbed(chunks));
  }
}
