/** Single bits of the bytes of a block, as the free-block bitmap of kernel/fs/fs1.c uses them. */
module Bitmap {
  import opened Blocks

  /** Bitmap bits per block. */
  const BPB: nat := 4096

  /** (x & (1 << k)) != 0 */
  predicate BitOf(x: nat, k: nat) {
    if k == 0 then x % 2 == 1 else BitOf(x / 2, k - 1)
  }

  /** x | (1 << k), or x & ~(1 << k) */
  function PutBit(x: nat, k: nat, v: bool): nat {
    if k == 0 then x / 2 * 2 + (if v then 1 else 0) else x % 2 + 2 * PutBit(x / 2, k - 1, v)
  }

  function Power(n: nat): nat { if n == 0 then 1 else 2 * Power(n - 1) }

  lemma {:induction false} PutBitSmall(x: nat, k: nat, v: bool, n: nat)
    requires x < Power(n) && k < n
    ensures PutBit(x, k, v) < Power(n)
  {
    if k > 0 {
      PutBitSmall(x / 2, k - 1, v, n - 1);
    }
  }

  /** Bit k of a byte counts 2^k. */
  lemma {:induction false} BitCounts(x: nat, k: nat)
    requires k < 8
    ensures BitOf(x, k) <==> x / [1, 2, 4, 8, 16, 32, 64, 128][k] % 2 == 1
  {
    if k > 0 {
      assert BitOf(x, k) == BitOf(x / 2, k - 1);
      BitCounts(x / 2, k - 1);
    }
  }

  /** Changing one bit of a byte changes that bit alone. */
  lemma {:induction false} PutBitGet(x: nat, k: nat, v: bool, j: nat)
    ensures BitOf(PutBit(x, k, v), j) == if j == k then v else BitOf(x, j)
    decreases k
  {
    if k > 0 && j > 0 {
      PutBitGet(x / 2, k - 1, v, j - 1);
    }
  }

  function PutBitIn(x: Byte, k: nat, v: bool): Byte
    requires k < 8
  {
    PutBitSmall(x, k, v, 8);
    PutBit(x, k, v)
  }

  /** Bit i of a bitmap block. */
  predicate GetBit(b: Block, i: nat)
    requires i < BPB
  {
    BitOf(b[i / 8], i % 8)
  }

  function SetBit(b: Block, i: nat, v: bool): Block
    requires i < BPB
  {
    b[i / 8 := PutBitIn(b[i / 8], i % 8, v)]
  }

  lemma SetBitGet(b: Block, i: nat, v: bool, j: nat)
    requires i < BPB && j < BPB
    ensures GetBit(SetBit(b, i, v), j) == if j == i then v else GetBit(b, j)
  {
    PutBitGet(b[i / 8], i % 8, v, j % 8);
    assert i == i / 8 * 8 + i % 8 && j == j / 8 * 8 + j % 8;
  }
}
