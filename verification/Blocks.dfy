/** Disk blocks as bytes, and the two ways objstore.c looks at one: as raw object data and, through a
    pointer cast, as an array of 1024 little-endian 32-bit block numbers (an indirect block). */
module Blocks {

  const BLOCK_SIZE: nat := 4096
  const POINTERS: nat := 1024            // BLOCK_SIZE / 4
  const MAX_OBJECT: nat := 16777216      // four indirect blocks
  const DATA_BLOCKS_START: nat := 17808  // sizeof(struct super_object) / BLOCK_SIZE

  type Byte = x: int | 0 <= x < 256
  type Block = b: seq<Byte> | |b| == BLOCK_SIZE witness seq(BLOCK_SIZE, _ => 0)
  type Int32 = x: int | -0x8000_0000 <= x < 0x8000_0000
  type Pointers = p: seq<Int32> | |p| == POINTERS witness seq(POINTERS, _ => 0)

  /** Byte number j of the two's complement representation of x. */
  function ByteOf(x: Int32, j: int): Byte
    requires 0 <= j < 4
  {
    var u := if x < 0 then x + 0x1_0000_0000 else x;
    if j == 0 then u % 256
    else if j == 1 then u / 256 % 256
    else if j == 2 then u / 256 / 256 % 256
    else u / 256 / 256 / 256
  }

  function Word(b0: Byte, b1: Byte, b2: Byte, b3: Byte): Int32 {
    var u := b0 + 256 * (b1 + 256 * (b2 + 256 * b3));
    if u >= 0x8000_0000 then u - 0x1_0000_0000 else u
  }

  lemma WordOfBytes(x: Int32)
    ensures Word(ByteOf(x, 0), ByteOf(x, 1), ByteOf(x, 2), ByteOf(x, 3)) == x
  {
  }

  function WordAt(b: Block, i: nat): Int32
    requires i < POINTERS
  {
    Word(b[4 * i], b[4 * i + 1], b[4 * i + 2], b[4 * i + 3])
  }

  /** p is what the bytes of b mean as an array of block numbers. */
  ghost predicate IsDecoded(b: Block, p: Pointers) {
    forall i {:trigger WordAt(b, i)} | 0 <= i < POINTERS :: p[i] == WordAt(b, i)
  }

  lemma DecodedExists(b: Block)
    ensures exists p: Pointers :: IsDecoded(b, p)
  {
    var p: Pointers := seq(POINTERS, i requires 0 <= i < POINTERS => WordAt(b, i));
    assert IsDecoded(b, p);
  }

  lemma DecodedUnique(b: Block, p: Pointers, p': Pointers)
    requires IsDecoded(b, p) && IsDecoded(b, p')
    ensures p == p'
  {
    assert forall i | 0 <= i < POINTERS :: p[i] == WordAt(b, i) == p'[i];
  }

  /** The indirect block behind the pointer cast. */
  ghost function Decode(b: Block): (p: Pointers) {
    DecodedExists(b);
    var p: Pointers :| IsDecoded(b, p);
    p
  }

  method DecodeBlock(b: Block) returns (p: Pointers)
    ensures p == Decode(b)
  {
    p := seq(POINTERS, i requires 0 <= i < POINTERS => WordAt(b, i));
    DecodedUnique(b, p, Decode(b));
  }

  /** The pointers of an indirect block that leads nowhere. */
  function NoPointers(): Pointers {
    seq(POINTERS, _ => -1)
  }

  function Encode(p: Pointers): Block {
    seq(BLOCK_SIZE, k requires 0 <= k < BLOCK_SIZE => ByteOf(p[k / 4], k % 4))
  }

  lemma EncodeAt(p: Pointers, i: int, j: int)
    requires 0 <= i < POINTERS && 0 <= j < 4
    ensures Encode(p)[4 * i + j] == ByteOf(p[i], j)
  {
    assert (4 * i + j) / 4 == i && (4 * i + j) % 4 == j;
  }

  /** Casting a pointer array to a block and back loses nothing. */
  lemma DecodeEncode(p: Pointers)
    ensures Decode(Encode(p)) == p
  {
    forall i | 0 <= i < POINTERS
      ensures WordAt(Encode(p), i) == p[i]
    {
      EncodeAt(p, i, 0);
      EncodeAt(p, i, 1);
      EncodeAt(p, i, 2);
      EncodeAt(p, i, 3);
      WordOfBytes(p[i]);
    }
    DecodedUnique(Encode(p), p, Decode(Encode(p)));
  }

  lemma BytesOfWord(b0: Byte, b1: Byte, b2: Byte, b3: Byte, j: int)
    requires 0 <= j < 4
    ensures ByteOf(Word(b0, b1, b2, b3), j) == [b0, b1, b2, b3][j]
  {
    var u2 := b2 + 256 * b3;
    var u1 := b1 + 256 * u2;
    var u := b0 + 256 * u1;
    assert u / 256 == u1 && u1 / 256 == u2 && u2 / 256 == b3;
  }

  /** Reading a block as a pointer array and writing that back changes no byte. */
  lemma EncodeDecode(b: Block)
    ensures Encode(Decode(b)) == b
  {
    forall k | 0 <= k < BLOCK_SIZE
      ensures Encode(Decode(b))[k] == b[k]
    {
      var i, j := k / 4, k % 4;
      EncodeAt(Decode(b), i, j);
      assert Decode(b)[i] == WordAt(b, i);
      BytesOfWord(b[4 * i], b[4 * i + 1], b[4 * i + 2], b[4 * i + 3], j);
    }
  }

  /** A block seen both ways. */
  datatype BlockView = BlockView(raw: Block, entries: Pointers)

  ghost function View(b: Block): BlockView {
    BlockView(b, Decode(b))
  }
}
