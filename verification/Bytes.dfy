/** Machine integers and byte strings shared by the hashing modules. */
module Bytes {

  type Byte = x: int | 0 <= x < 0x100

  type Word = x: int | 0 <= x < 0x1_0000_0000

  function WrappingAdd(a: Word, b: Word): Word {
    if a + b < 0x1_0000_0000 then a + b else a + b - 0x1_0000_0000
  }

  function WrappingSub(a: Word, b: Word): Word {
    if a >= b then a - b else a - b + 0x1_0000_0000
  }

  /** The low `count` bytes of a number, most significant first. */
  function BigEndian(x: nat, count: nat): (b: seq<Byte>)
    ensures |b| == count
  {
    if count == 0 then [] else BigEndian(x / 0x100, count - 1) + [x % 0x100]
  }

  function Pow256(n: nat): (p: nat)
    ensures p > 0
  {
    if n == 0 then 1 else 0x100 * Pow256(n - 1)
  }

  /** The number a byte string stands for, most significant byte first. */
  function BigEndianValue(b: seq<Byte>): nat {
    if b == [] then 0 else 0x100 * BigEndianValue(b[..|b| - 1]) + b[|b| - 1]
  }

  /** Those bytes stand for the number modulo 256^count. */
  lemma {:induction false} BigEndianIs(x: nat, count: nat)
    ensures BigEndianValue(BigEndian(x, count)) == x % Pow256(count)
  {
    if count > 0 {
      var front := BigEndian(x / 0x100, count - 1);
      BigEndianIs(x / 0x100, count - 1);
      assert (front + [x % 0x100])[..count - 1] == front;
      DigitsOf(x, Pow256(count - 1));
    }
  }

  lemma DigitsOf(x: nat, p: nat)
    requires p > 0
    ensures 0x100 * (x / 0x100 % p) + x % 0x100 == x % (0x100 * p)
  {
    var h := x / 0x100;
    var q, r := h / p, h % p;
    assert x == (0x100 * p) * q + (0x100 * r + x % 0x100) by {
      assert h == p * q + r;
      assert x == 0x100 * h + x % 0x100;
    }
    RemainderIs(x, 0x100 * p, q, 0x100 * r + x % 0x100);
  }

  lemma RemainderIs(x: nat, m: nat, q: nat, r: nat)
    requires x == m * q + r && r < m
    ensures x % m == r
  {
    var d := x / m;
    assert x == m * d + x % m;
    Multiples(m, d, q);
    Multiples(m, q, d);
  }

  lemma Multiples(m: nat, a: nat, b: nat)
    ensures a < b ==> m * a + m <= m * b
  {
    assert a < b ==> m * (a + 1) <= m * b;
  }

  /** The word a little-endian group of four bytes stands for. */
  function WordFromLittleEndian(b: seq<Byte>): (w: Word)
    requires |b| == 4
  {
    (b[0] as int) + 0x100 * (b[1] as int) + 0x1_0000 * (b[2] as int) + 0x100_0000 * (b[3] as int)
  }
}
