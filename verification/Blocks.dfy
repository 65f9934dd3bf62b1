/**
 Disk blocks as bytes, and the 32-bit little-endian words that the kernel
 overlays on them (log header, indirect block, on-disk inode).
 */
module Blocks {

  const BSIZE: nat := 512
  const WORDS: nat := 128

  type Byte = x: int | 0 <= x < 256
  type Word = x: int | 0 <= x < 0x1_0000_0000

  type Block = b: seq<Byte> | |b| == BSIZE witness seq(BSIZE, _ => 0)

  function ZeroBlock(): Block { seq(BSIZE, _ => 0) }

  /** Byte j of a word, least significant first. */
  function ByteOf(w: Word, j: nat): Byte
    requires j < 4
  {
    if j == 0 then w % 256 else if j == 1 then w / 256 % 256 else if j == 2 then w / 0x1_0000 % 256 else w / 0x100_0000
  }

  function Join(b0: Byte, b1: Byte, b2: Byte, b3: Byte): Word {
    b0 + 256 * ((b1 as int) + 256 * ((b2 as int) + 256 * (b3 as int)))
  }

  function GetWord(b: Block, i: nat): Word
    requires i < WORDS
  {
    Join(b[4 * i], b[4 * i + 1], b[4 * i + 2], b[4 * i + 3])
  }

  function ByteAfterPut(b: Block, i: nat, w: Word, k: nat): Byte
    requires i < WORDS && k < BSIZE
  {
    if 4 * i <= k < 4 * i + 4 then ByteOf(w, k - 4 * i) else b[k]
  }

  function PutWord(b: Block, i: nat, w: Word): Block
    requires i < WORDS
  {
    seq(BSIZE, k requires 0 <= k < BSIZE => ByteAfterPut(b, i, w, k))
  }

  lemma SplitJoin(w: Word)
    ensures Join(ByteOf(w, 0), ByteOf(w, 1), ByteOf(w, 2), ByteOf(w, 3)) == w
  {
    assert w / 0x1_0000 == w / 256 / 256;
    assert w / 0x100_0000 == w / 0x1_0000 / 256;
  }

  /** Storing a word and loading it back is the identity; the other words keep their value. */
  lemma PutGet(b: Block, i: nat, w: Word)
    requires i < WORDS
    ensures GetWord(PutWord(b, i, w), i) == w
    ensures forall j :: 0 <= j < WORDS && j != i ==> GetWord(PutWord(b, i, w), j) == GetWord(b, j)
  {
    SplitJoin(w);
    forall j | 0 <= j < WORDS && j != i
      ensures GetWord(PutWord(b, i, w), j) == GetWord(b, j)
    {
      PutOther(b, i, w, j);
    }
  }

  lemma PutOther(b: Block, i: nat, w: Word, j: nat)
    requires i < WORDS && j < WORDS && i != j
    ensures GetWord(PutWord(b, i, w), j) == GetWord(b, j)
  {
  }

  /** Words are stored least significant byte first. */
  lemma LittleEndian(b: Block, i: nat)
    requires i < 128
    ensures GetWord(b, i) ==
              (b[4 * i] as int) + 0x100 * (b[4 * i + 1] as int) + 0x1_0000 * (b[4 * i + 2] as int)
              + 0x100_0000 * (b[4 * i + 3] as int)
  {
  }

  lemma PutTwice(b: Block, i: nat, w: Word)
    requires i < WORDS
    ensures PutWord(PutWord(b, i, w), i, w) == PutWord(b, i, w)
  {
  }

  lemma ZeroWords(i: nat)
    requires i < WORDS
    ensures GetWord(ZeroBlock(), i) == 0
  {
  }
}
