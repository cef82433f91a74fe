/** The hash-driven byte stream of `random_math_init` (`cryptonight/src/hash_v4.rs`) and what is drawn from it. */
module RandomMathStream {
  import opened Bytes
  import opened RandomMathProgram

  // ----- The byte stream -----

  type Blake = seq<Byte> -> seq<Byte>

  ghost predicate DigestsTo32(blake: Blake) {
    forall d: seq<Byte> :: |blake(d)| == 32
  }

  /** A 32-byte buffer and the index of its next unread byte. */
  datatype Position = Position(data: seq<Byte>, index: nat)

  /** Where `count` more bytes are read: here, or in the digest of the buffer when it has run dry. */
  function Refilled(blake: Blake, pos: Position, count: nat): Position {
    if pos.index + count > |pos.data| then Position(blake(pos.data), 0) else pos
  }

  function Taken(blake: Blake, pos: Position, count: nat): (b: seq<Byte>)
    requires |pos.data| == 32 && count <= 32 && |blake(pos.data)| == 32
    ensures |b| == count
  {
    var at := Refilled(blake, pos, count);
    at.data[at.index..at.index + count]
  }

  function Advanced(blake: Blake, pos: Position, count: nat): Position {
    var at := Refilled(blake, pos, count);
    at.(index := at.index + count)
  }

  class ByteStream {
    var data: seq<Byte>
    var index: nat
    const blake: Blake

    ghost predicate Valid()
      reads this
    {
      |data| == 32 && index <= 32 && DigestsTo32(blake)
    }

    function At(): Position
      reads this
    {
      Position(data, index)
    }

    constructor (height: nat, blake: Blake)
      requires height < 0x1_0000_0000_0000_0000 && DigestsTo32(blake)
      ensures Valid()
      ensures this.blake == blake
      ensures At() == Position(Seed(height), 32)
    {
      this.data := Seed(height);
      this.index := 32;
      this.blake := blake;
    }

    /** After this call `needed` bytes can be read at `index`. */
    method CheckData(needed: nat)
      requires Valid() && needed <= 32
      modifies this
      ensures Valid()
      ensures index + needed <= 32
      ensures At() == Refilled(blake, old(At()), needed)
    {
      if index + needed > |data| {
        data := blake(data);
        index := 0;
      }
    }

    method Next(count: nat) returns (bytes: seq<Byte>)
      requires Valid() && count <= 32
      modifies this
      ensures Valid()
      ensures bytes == Taken(blake, old(At()), count)
      ensures At() == Advanced(blake, old(At()), count)
    {
      CheckData(count);
      bytes := data[index..index + count];
      index := index + count;
    }
  }

  function LittleEndian(x: nat, count: nat): (b: seq<Byte>)
    ensures |b| == count
  {
    if count == 0 then [] else [x % 0x100] + LittleEndian(x / 0x100, count - 1)
  }

  /** The block height in the first eight bytes, and the seed change at byte 20. */
  function Seed(height: nat): (d: seq<Byte>)
    ensures |d| == 32
  {
    LittleEndian(height, 8) + LittleEndian(0, 12) + [218] + LittleEndian(0, 11)
  }

  /** The number a byte string stands for, least significant byte first. */
  function LittleEndianValue(b: seq<Byte>): nat {
    if b == [] then 0 else b[0] + 0x100 * LittleEndianValue(b[1..])
  }

  lemma {:induction false} LittleEndianIs(x: nat, count: nat)
    ensures LittleEndianValue(LittleEndian(x, count)) == x % Pow256(count)
  {
    if count > 0 {
      assert LittleEndian(x, count)[1..] == LittleEndian(x / 0x100, count - 1);
      LittleEndianIs(x / 0x100, count - 1);
      DigitsOf(x, Pow256(count - 1));
    }
  }

  lemma {:induction false} ZeroBytes(count: nat, i: nat)
    requires i < count
    ensures LittleEndian(0, count)[i] == 0
  {
    if i > 0 {
      ZeroBytes(count - 1, i - 1);
    }
  }

  /** The seed stands for the height, then holds zeros but for byte 20. */
  lemma SeedExactly(height: nat, i: nat)
    requires height < Pow256(8) && 8 <= i < 32
    ensures LittleEndianValue(Seed(height)[..8]) == height
    ensures Seed(height)[i] == if i == 20 then 218 else 0
  {
    LittleEndianIs(height, 8);
    assert Seed(height)[..8] == LittleEndian(height, 8);
    if i < 20 {
      ZeroBytes(12, i - 8);
    } else if i > 20 {
      ZeroBytes(11, i - 21);
    }
  }

  // ----- Decoding -----

  function OpcodeOf(bits: nat, direction: Byte): Opcode
    requires bits < 8
  {
    if bits == 5 then if direction < 128 then Ror else Rol
    else if bits >= 6 then Xor
    else if bits <= 2 then Mul
    else if bits == 3 then Add
    else Sub
  }

  function Decode(c: Byte, direction: Byte): (i: Instruction)
    ensures WellFormed(i) && i.c == 0
  {
    var op := OpcodeOf(c % 8, direction);
    var dst := c / 8 % 4;
    var src := c / 32;
    Instruction(op, dst, if op in {Add, Sub, Xor} && dst == src then 8 else src, 0)
  }

  /** The opcode a byte stands for, and how the byte is rebuilt from the instruction: R8 replaces a repeated operand. */
  lemma DecodeExactly(c: Byte, direction: Byte)
    ensures var i, bits := Decode(c, direction), c % 8;
            && (i.opcode == Mul <==> bits <= 2)
            && (i.opcode == Add <==> bits == 3)
            && (i.opcode == Sub <==> bits == 4)
            && (i.opcode == Ror <==> bits == 5 && direction < 0x80)
            && (i.opcode == Rol <==> bits == 5 && direction >= 0x80)
            && (i.opcode == Xor <==> bits >= 6)
            && c == 32 * (if i.src == 8 then i.dst else i.src) + 8 * i.dst + bits
            && (i.src == 8 <==> i.opcode in {Add, Sub, Xor} && i.dst == c / 32)
  {
    assert c == 32 * (c / 32) + 8 * (c / 8 % 4) + c % 8;
  }

  // ----- Drawing -----

  predicate IsPosition(at: Position) {
    |at.data| == 32 && at.index <= 32
  }

  /** The instruction drawn at a position, and where reading goes on; rotations take a second byte. */
  function DrawnAt(blake: Blake, at: Position): (d: (Instruction, Position))
    requires DigestsTo32(blake) && IsPosition(at)
    ensures WellFormed(d.0) && IsPosition(d.1)
  {
    var c, after := Taken(blake, at, 1)[0], Advanced(blake, at, 1);
    if c % 8 == 5 then (Decode(c, Taken(blake, after, 1)[0]), Advanced(blake, after, 1))
    else (Decode(c, 0), after)
  }

  method Draw(stream: ByteStream) returns (i: Instruction)
    requires stream.Valid()
    modifies stream
    ensures stream.Valid()
    ensures (i, stream.At()) == DrawnAt(stream.blake, old(stream.At()))
  {
    var c := stream.Next(1);
    var direction := [0];
    if c[0] % 8 == 5 {
      direction := stream.Next(1);
    }
    i := Decode(c[0], direction[0]);
  }

  /** A kept ADD takes its constant from the next four bytes. */
  function Completed(blake: Blake, i: Instruction, at: Position): (d: (Instruction, Position))
    requires DigestsTo32(blake) && IsPosition(at)
    ensures IsPosition(d.1) && d.0 == i.(c := d.0.c)
  {
    if i.opcode == Add then (i.(c := WordFromLittleEndian(Taken(blake, at, 4))), Advanced(blake, at, 4)) else (i, at)
  }
}
