/**
 Reading, writing and truncating a file in kernel/fs/fs1.c, proved to act on a
 plain sequence of bytes.
 */
module FileLayer {
  import opened Blocks
  import opened Counting
  import opened Bitmap
  import opened Inodes

  /** Panic: the kernel halts. */
  datatype Outcome = Done | Panic

  // ---------- What a file contains ----------

  predicate Sized(x: Inode) { x.size <= MAXFILE * BSIZE }

  ghost predicate HasBlock(d: Disk, x: Inode, n: nat)
    requires Shaped(x)
  {
    n < MAXFILE && Ref(d, x, SlotOf(n)) != 0 && Ref(d, x, SlotOf(n)) in d
  }

  /** Every block below the size has been allocated. */
  ghost predicate HoleFree(d: Disk, x: Inode)
    requires Shaped(x)
  {
    Sized(x) && forall n: nat {:trigger HasBlock(d, x, n)} :: n * BSIZE < x.size ==> HasBlock(d, x, n)
  }

  /** Byte k of the file; a block that was never allocated holds zeros. */
  ghost function ByteAt(d: Disk, x: Inode, k: nat): Byte
    requires Shaped(x)
  {
    if HasBlock(d, x, k / BSIZE) then d[Ref(d, x, SlotOf(k / BSIZE))][k % BSIZE] else 0
  }

  /** The file as a sequence of bytes. */
  ghost function Bytes(d: Disk, x: Inode): (c: seq<Byte>)
    requires Shaped(x)
    ensures |c| == x.size
  {
    seq(x.size, k requires 0 <= k < x.size => ByteAt(d, x, k))
  }

  /**
   Where the bytes are: the first 28 blocks in those that the inode names, block n beyond them
   in the one that word n - 28 of the indirect block names, and zeros where there is none.
   */
  lemma BytesAt(d: Disk, x: Inode, k: nat)
    requires Shaped(x) && k < x.size
    ensures k < 28 * 512 ==>
              var b := x.addrs[k / 512];
              Bytes(d, x)[k] == if b != 0 && b in d then d[b][k % 512] else 0
    ensures 28 * 512 <= k < 156 * 512 ==>
              Bytes(d, x)[k] ==
                if x.addrs[28] == 0 || x.addrs[28] !in d then 0
                else
                  var b := GetWord(d[x.addrs[28]], k / 512 - 28);
                  if b != 0 && b in d then d[b][k % 512] else 0
    ensures k >= 156 * 512 ==> Bytes(d, x)[k] == 0
  {
  }

  /** Entry k of the indirect block, 0 if there is no such block. */
  ghost function Entry(d: Disk, x: Inode, k: nat): Word
    requires Shaped(x) && k < 128
  {
    if x.addrs[28] == 0 || x.addrs[28] !in d then 0 else GetWord(d[x.addrs[28]], k)
  }

  /**
   Block bn of the file lies at addr, which is where it was if it was there; it is named in its
   own place, address bn or entry bn - 28, and nothing else is named differently.
   */
  ghost predicate Placed(d: Disk, x: Inode, d': Disk, x': Inode, bn: nat, addr: Word)
    requires Shaped(x) && Shaped(x') && bn < 156
  {
    && addr != 0
    && (if bn < 28 then
          && x'.addrs == x.addrs[bn := addr] && (x.addrs[bn] != 0 ==> addr == x.addrs[bn])
          && (forall k :: 0 <= k < 128 ==> Entry(d', x', k) == Entry(d, x, k))
        else
          && x'.addrs[..28] == x.addrs[..28] && (x.addrs[28] != 0 ==> x'.addrs[28] == x.addrs[28])
          && x'.addrs[28] in d' && addr == GetWord(d'[x'.addrs[28]], bn - 28)
          && (Entry(d, x, bn - 28) != 0 ==> addr == Entry(d, x, bn - 28))
          && (forall k :: 0 <= k < 128 && k != bn - 28 ==> Entry(d', x', k) == Entry(d, x, k)))
  }

  // ---------- What an operation on one inode may change ----------

  /** References only appear, only in inode i, and to zeroed blocks; the data of all files stays. */
  ghost predicate Grown(d: Disk, nodes: seq<Inode>, d': Disk, nodes': seq<Inode>, i: nat)
    requires AllShaped(nodes)
  {
    && |nodes'| == |nodes| && AllShaped(nodes') && i < |nodes|
    && (forall j :: 0 <= j < |nodes| && j != i ==> nodes'[j] == nodes[j])
    && (forall j: nat, t: nat {:trigger Ref(d', nodes'[j], t)} {:trigger Ref(d, nodes[j], t)} ::
          j < |nodes| && t < SLOTS ==>
            Ref(d', nodes'[j], t) == Ref(d, nodes[j], t) || (j == i && Ref(d, nodes[j], t) == 0))
    && (forall t: nat {:trigger Ref(d', nodes'[i], t)} :: t < SLOTS && t != NDIRECT && Ref(d, nodes[i], t) == 0 ==>
          ZeroAt(d', Ref(d', nodes'[i], t)))
    && SameData(d, d', nodes)
  }

  ghost predicate ZeroAt(d: Disk, b: nat) { b != 0 ==> b in d && d[b] == ZeroBlock() }

  ghost predicate InodesKept(g: Geo, d: Disk, d': Disk) {
    forall j: nat {:trigger IBlock(j)} :: j < g.ninodes ==> SameBlock(d, d', IBlock(j))
  }

  lemma GrownTwice(d0: Disk, n0: seq<Inode>, d1: Disk, n1: seq<Inode>, d2: Disk, n2: seq<Inode>, i: nat)
    requires AllShaped(n0) && AllShaped(n1) && Grown(d0, n0, d1, n1, i) && Grown(d1, n1, d2, n2, i)
    ensures Grown(d0, n0, d2, n2, i)
  {
    forall j: nat, t: nat | j < |n0| && t < SLOTS && t != NDIRECT && Ref(d0, n0[j], t) != 0
      ensures SameBlock(d0, d2, Ref(d0, n0[j], t))
    {
      assert Ref(d1, n1[j], t) == Ref(d0, n0[j], t);
    }
    forall j: nat, t: nat | j < |n0| && t < SLOTS
      ensures Ref(d2, n2[j], t) == Ref(d0, n0[j], t) || (j == i && Ref(d0, n0[j], t) == 0)
    {
      assert Ref(d1, n1[j], t) == Ref(d0, n0[j], t) || (j == i && Ref(d0, n0[j], t) == 0);
    }
    forall t: nat | t < SLOTS && t != NDIRECT && Ref(d0, n0[i], t) == 0
      ensures ZeroAt(d2, Ref(d2, n2[i], t))
    {
      assert ZeroAt(d1, Ref(d1, n1[i], t));
      assert Ref(d2, n2[i], t) == Ref(d1, n1[i], t) || Ref(d1, n1[i], t) == 0;
    }
  }

  /** A file none of whose references or data blocks change keeps its contents. */
  lemma BytesKept(d: Disk, x: Inode, d': Disk, x': Inode)
    requires Shaped(x) && Shaped(x') && x'.size == x.size
    requires forall m: nat {:trigger SlotOf(m)} :: m < MAXFILE ==>
               && Ref(d', x', SlotOf(m)) == Ref(d, x, SlotOf(m))
               && (Ref(d, x, SlotOf(m)) != 0 ==> SameBlock(d, d', Ref(d, x, SlotOf(m))))
    ensures Bytes(d', x') == Bytes(d, x) && (HoleFree(d, x) ==> HoleFree(d', x'))
  {
    forall n: nat
      ensures HasBlock(d', x', n) <==> HasBlock(d, x, n)
    {
      var s := SlotOf(n);
    }
    forall k: nat | k < x.size
      ensures ByteAt(d', x', k) == ByteAt(d, x, k)
    {
      assert HasBlock(d', x', k / BSIZE) <==> HasBlock(d, x, k / BSIZE);
    }
  }

  /** Appearing references, to zeroed blocks, change no byte. */
  lemma GrownBytes(d: Disk, nodes: seq<Inode>, d': Disk, nodes': seq<Inode>, i: nat, k: nat)
    requires AllShaped(nodes) && Grown(d, nodes, d', nodes', i)
    ensures ByteAt(d', nodes'[i], k) == ByteAt(d, nodes[i], k)
    ensures HasBlock(d, nodes[i], k / BSIZE) ==> HasBlock(d', nodes'[i], k / BSIZE)
  {
    hide GetWord;
    if k / BSIZE < MAXFILE {
      var s := SlotOf(k / BSIZE);
      assert Ref(d', nodes'[i], s) == Ref(d, nodes[i], s) || Ref(d, nodes[i], s) == 0;
    }
  }

  // ---------- Other files ----------

  /** Every inode but i keeps its references and its data. */
  ghost predicate OthersKept(d: Disk, nodes: seq<Inode>, d': Disk, nodes': seq<Inode>, i: nat)
    requires AllShaped(nodes)
  {
    && |nodes'| == |nodes| && AllShaped(nodes')
    && (forall j :: 0 <= j < |nodes| && j != i ==> nodes'[j] == nodes[j])
    && (forall j: nat, t: nat {:trigger Ref(d, nodes[j], t)} :: j < |nodes| && j != i && t < SLOTS ==>
          && Ref(d', nodes[j], t) == Ref(d, nodes[j], t)
          && (t != NDIRECT && Ref(d, nodes[j], t) != 0 ==> SameBlock(d, d', Ref(d, nodes[j], t))))
  }

  lemma GrownKeepsOthers(d: Disk, nodes: seq<Inode>, d': Disk, nodes': seq<Inode>, i: nat)
    requires AllShaped(nodes) && Grown(d, nodes, d', nodes', i)
    ensures OthersKept(d, nodes, d', nodes', i)
  {
    forall j: nat, t: nat | j < |nodes| && j != i && t < SLOTS
      ensures Ref(d', nodes[j], t) == Ref(d, nodes[j], t)
    {
      assert nodes'[j] == nodes[j] && Ref(d', nodes'[j], t) == Ref(d, nodes[j], t);
    }
  }

  lemma OthersTwice(d0: Disk, n0: seq<Inode>, d1: Disk, n1: seq<Inode>, d2: Disk, n2: seq<Inode>, i: nat)
    requires AllShaped(n0) && AllShaped(n1) && OthersKept(d0, n0, d1, n1, i) && OthersKept(d1, n1, d2, n2, i)
    ensures OthersKept(d0, n0, d2, n2, i)
  {
    forall j: nat, t: nat | j < |n0| && j != i && t < SLOTS
      ensures Ref(d2, n0[j], t) == Ref(d0, n0[j], t)
      ensures t != NDIRECT && Ref(d0, n0[j], t) != 0 ==> SameBlock(d0, d2, Ref(d0, n0[j], t))
    {
      assert n1[j] == n0[j] && Ref(d1, n1[j], t) == Ref(d0, n0[j], t);
    }
  }

  /** An operation on one file leaves every other file's bytes alone. */
  lemma OtherFilesSame(d: Disk, nodes: seq<Inode>, d': Disk, nodes': seq<Inode>, i: nat, j: nat)
    requires AllShaped(nodes) && OthersKept(d, nodes, d', nodes', i) && j < |nodes| && j != i
    ensures Bytes(d', nodes'[j]) == Bytes(d, nodes[j]) && (HoleFree(d, nodes[j]) ==> HoleFree(d', nodes'[j]))
  {
    var x := nodes[j];
    assert nodes'[j] == x;
    forall n: nat {:trigger SlotOf(n)} | n < MAXFILE
      ensures Ref(d', x, SlotOf(n)) == Ref(d, x, SlotOf(n))
      ensures Ref(d, x, SlotOf(n)) != 0 ==> SameBlock(d, d', Ref(d, x, SlotOf(n)))
    {
      var s := SlotOf(n);
      assert Ref(d, nodes[j], s) == Ref(d', nodes[j], s);
    }
    BytesKept(d, x, d', x);
  }

  // ---------- Free blocks ----------

  ghost function FreeSet(g: Geo, d: Disk): set<nat> { set b: nat | b < g.size && !InUse(g, d, b) }

  lemma SameFree(g: Geo, d: Disk, d': Disk)
    requires forall c: nat {:trigger InUse(g, d', c)} :: c < g.size ==> InUse(g, d', c) == InUse(g, d, c)
    ensures FreeSet(g, d') == FreeSet(g, d)
  {
  }

  lemma TakenFree(g: Geo, d: Disk, nodes: seq<Inode>, b: nat)
    requires Consistent(g, d, nodes) && b < g.size && BBlock(g, b) in d && !InUse(g, d, b)
    ensures FreeSet(g, Taken(g, d, b)) == FreeSet(g, d) - {b} && b in FreeSet(g, d)
  {
    hide SetBit, GetBit, InUse;
    TakenKeeps(g, d, nodes, b);
    forall c: nat | c < g.size
      ensures InUse(g, Taken(g, d, b), c) == (c == b || InUse(g, d, c))
    {
      TakenUse(g, d, nodes, b, c);
    }
  }

  lemma TakenUse(g: Geo, d: Disk, nodes: seq<Inode>, b: nat, c: nat)
    requires Consistent(g, d, nodes) && b < g.size && BBlock(g, b) in d && !InUse(g, d, b) && c < g.size
    ensures InUse(g, Taken(g, d, b), c) == (c == b || InUse(g, d, c))
  {
    hide SetBit, GetBit;
    TakenKeeps(g, d, nodes, b);
    BitmapInDisk(g, d, nodes, c);
    MarkGet(g, d, b, true, c);
  }

  /** Blocks that fs1_bmap has to take for block bn of a file: the block, and the indirect block before it. */
  ghost function BmapCost(d: Disk, x: Inode, bn: nat): nat
    requires Shaped(x) && bn < MAXFILE
  {
    (if Ref(d, x, SlotOf(bn)) == 0 then 1 else 0) + (if bn >= NDIRECT && x.addrs[NDIRECT] == 0 then 1 else 0)
  }

  /** Blocks of a file from lo to hi that are not allocated. */
  ghost function Missing(d: Disk, x: Inode, lo: nat, hi: nat): nat
    requires Shaped(x) && hi <= MAXFILE
  {
    if hi <= lo then 0 else Missing(d, x, lo, hi - 1) + if Ref(d, x, SlotOf(hi - 1)) == 0 then 1 else 0
  }

  /** Free blocks needed to have all the blocks from lo to hi. */
  ghost function Needed(d: Disk, x: Inode, lo: nat, hi: nat): nat
    requires Shaped(x)
  {
    if hi <= lo || hi > MAXFILE then 0
    else Missing(d, x, lo, hi) + if NDIRECT < hi && x.addrs[NDIRECT] == 0 then 1 else 0
  }

  /** The inode itself has an address for every block from lo to hi, or for the indirect block that lists it. */
  predicate Addressed(x: Inode, lo: nat, hi: nat)
    requires Shaped(x)
  {
    && (forall n :: lo <= n < hi && n < NDIRECT ==> x.addrs[n] != 0)
    && (lo < hi && NDIRECT < hi ==> x.addrs[NDIRECT] != 0)
  }

  /** The blocks from lo to hi exist or can be allocated. */
  ghost predicate CanMap(g: Geo, d: Disk, x: Inode, lo: nat, hi: nat)
    requires Shaped(x)
  {
    (hi <= lo || hi <= MAXFILE) && |FreeSet(g, d)| >= Needed(d, x, lo, hi)
  }

  /** Nothing is needed exactly where every block is there. */
  lemma {:induction false} NothingNeeded(d: Disk, x: Inode, lo: nat, hi: nat)
    requires Shaped(x) && hi <= MAXFILE
    ensures Needed(d, x, lo, hi) == 0 <==>
            forall n: nat {:trigger SlotOf(n)} :: lo <= n < hi ==> Ref(d, x, SlotOf(n)) != 0
    decreases hi
  {
    if lo < hi {
      NothingNeeded(d, x, lo, hi - 1);
      var last := SlotOf(hi - 1);
      if Needed(d, x, lo, hi) == 0 {
        assert Ref(d, x, last) != 0;
      } else if Ref(d, x, last) != 0 {
        assert Needed(d, x, lo, hi - 1) != 0;
      }
    }
  }

  lemma NeededHas(g: Geo, d: Disk, nodes: seq<Inode>, i: nat, lo: nat, hi: nat, n: nat)
    requires Consistent(g, d, nodes) && i < |nodes| && lo <= n < hi <= MAXFILE && Needed(d, nodes[i], lo, hi) == 0
    ensures HasBlock(d, nodes[i], n)
  {
    NothingNeeded(d, nodes[i], lo, hi);
    var s := SlotOf(n);
    assert Ref(d, nodes[i], s) != 0;
  }

  /** A file without holes needs nothing below its size. */
  lemma NeededInRange(d: Disk, x: Inode, off: nat, n: nat)
    requires Shaped(x) && HoleFree(d, x) && off + n <= x.size
    ensures BlocksEnd(off, n) <= MAXFILE && Needed(d, x, off / BSIZE, BlocksEnd(off, n)) == 0
  {
    hide Ref;
    forall m: nat {:trigger SlotOf(m)} | off / BSIZE <= m < BlocksEnd(off, n)
      ensures m < MAXFILE && Ref(d, x, SlotOf(m)) != 0
    {
      assert m * BSIZE < x.size;
      assert HasBlock(d, x, m);
    }
    if n > 0 { assert (off + n - 1) / BSIZE < BlocksEnd(off, n); }
    NothingNeeded(d, x, off / BSIZE, BlocksEnd(off, n));
  }

  /** One past the last block touched by n bytes at off. */
  function BlocksEnd(off: nat, n: nat): nat { if n == 0 then off / BSIZE else (off + n - 1) / BSIZE + 1 }

  /** Bytes that one turn of a copy loop moves: to the end of the block or of the request. */
  function ChunkLength(at: nat, left: nat): nat { if left < BSIZE - at % BSIZE then left else BSIZE - at % BSIZE }

  /** Every chunk but the first starts a block. */
  predicate OnBlock(off: nat, tot: nat, n: nat) { tot == 0 || tot == n || (off + tot) % BSIZE == 0 }

  lemma NextChunk(off: nat, tot: nat, n: nat)
    requires tot < n && OnBlock(off, tot, n)
    ensures (off + tot) / BSIZE == BlocksEnd(off, tot)
    ensures var m := ChunkLength(off + tot, n - tot);
            && 0 < m <= n - tot && (off + tot) % BSIZE + m <= BSIZE && OnBlock(off, tot + m, n)
            && BlocksEnd(off, tot + m) == BlocksEnd(off, tot) + 1 <= BlocksEnd(off, n)
  {
    var m := ChunkLength(off + tot, n - tot);
    if tot > 0 { LastByte(off + tot); }
    ChunkIndex(off + tot, off + tot + m - 1);
    assert off + tot + m - 1 <= off + n - 1;
  }

  lemma FirstChunk(off: nat, n: nat)
    ensures OnBlock(off, 0, n) && BlocksEnd(off, 0) == off / BSIZE && (n > 0 ==> off / BSIZE < BlocksEnd(off, n))
  {
    assert n > 0 ==> off <= off + n - 1;
  }

  lemma LastBlock(off: nat, n: nat)
    requires off + n <= MAXFILE * BSIZE
    ensures BlocksEnd(off, n) <= MAXFILE
  {
  }

  lemma LastByte(p: nat)
    requires p > 0 && p % BSIZE == 0
    ensures p / BSIZE == (p - 1) / BSIZE + 1
  {
  }

  /**
   Blocks lo to cur of the file have been mapped since (d0, x0): as many blocks were taken as
   were needed, and from cur on nothing has changed.
   */
  ghost predicate Counted(g: Geo, d0: Disk, x0: Inode, d: Disk, x: Inode, lo: nat, cur: nat)
    requires Shaped(x0) && Shaped(x)
  {
    && lo <= cur && (lo < cur ==> cur <= MAXFILE)
    && |FreeSet(g, d)| + Needed(d0, x0, lo, cur) == |FreeSet(g, d0)|
    && (forall n: nat {:trigger SlotOf(n)} :: n < MAXFILE ==>
          && (!(lo <= n < cur) || Ref(d0, x0, SlotOf(n)) != 0 ==> Ref(d, x, SlotOf(n)) == Ref(d0, x0, SlotOf(n)))
          && (lo <= n < cur ==> Ref(d, x, SlotOf(n)) != 0))
    && (x.addrs[NDIRECT] == 0 <==> x0.addrs[NDIRECT] == 0 && !(lo < cur && NDIRECT < cur))
    && (x0.addrs[NDIRECT] != 0 ==> x.addrs[NDIRECT] == x0.addrs[NDIRECT])
  }

  lemma CountedStart(g: Geo, d: Disk, x: Inode, lo: nat)
    requires Shaped(x)
    ensures Counted(g, d, x, d, x, lo, lo)
  {
  }

  /** What fs1_bmap does to the references of its inode when it ends well. */
  ghost predicate BmapDone(g: Geo, d: Disk, x: Inode, d': Disk, x': Inode, bn: nat)
    requires Shaped(x) && Shaped(x') && bn < MAXFILE
  {
    && |FreeSet(g, d')| + BmapCost(d, x, bn) == |FreeSet(g, d)|
    && (forall n: nat {:trigger SlotOf(n)} :: n < MAXFILE && (n != bn || Ref(d, x, SlotOf(n)) != 0) ==>
          Ref(d', x', SlotOf(n)) == Ref(d, x, SlotOf(n)))
    && Ref(d', x', SlotOf(bn)) != 0
    && (x'.addrs[NDIRECT] == 0 <==> x.addrs[NDIRECT] == 0 && bn < NDIRECT)
    && (x.addrs[NDIRECT] != 0 ==> x'.addrs[NDIRECT] == x.addrs[NDIRECT])
  }

  lemma NeededNext(g: Geo, d0: Disk, x0: Inode, d: Disk, x: Inode, lo: nat, cur: nat)
    requires Shaped(x0) && Shaped(x) && cur < MAXFILE && Counted(g, d0, x0, d, x, lo, cur)
    ensures Needed(d0, x0, lo, cur + 1) == Needed(d0, x0, lo, cur) + BmapCost(d, x, cur)
  {
    hide Ref, FreeSet;
    assert Ref(d, x, SlotOf(cur)) == Ref(d0, x0, SlotOf(cur));
    assert Missing(d0, x0, lo, cur + 1) == Missing(d0, x0, lo, cur) + if Ref(d0, x0, SlotOf(cur)) == 0 then 1 else 0;
  }

  lemma CountedNext(g: Geo, d0: Disk, x0: Inode, d: Disk, x: Inode, d': Disk, x': Inode, lo: nat, cur: nat)
    requires Shaped(x0) && Shaped(x) && Shaped(x') && lo <= cur < MAXFILE
    requires Counted(g, d0, x0, d, x, lo, cur) && BmapDone(g, d, x, d', x', cur)
    ensures Counted(g, d0, x0, d', x', lo, cur + 1)
  {
    hide Ref, FreeSet;
    NeededNext(g, d0, x0, d, x, lo, cur);
    forall n: nat {:trigger SlotOf(n)} | n < MAXFILE
      ensures !(lo <= n <= cur) || Ref(d0, x0, SlotOf(n)) != 0 ==> Ref(d', x', SlotOf(n)) == Ref(d0, x0, SlotOf(n))
      ensures lo <= n < cur + 1 ==> Ref(d', x', SlotOf(n)) != 0
    {
      var s := SlotOf(n);
    }
  }

  /** Not enough free blocks for the next one means not enough for the whole. */
  lemma {:induction false} NeededGrows(d: Disk, x: Inode, lo: nat, cur: nat, hi: nat)
    requires Shaped(x) && lo <= cur <= hi <= MAXFILE
    ensures Needed(d, x, lo, cur) <= Needed(d, x, lo, hi)
    decreases hi
  {
    if cur < hi { NeededGrows(d, x, lo, cur, hi - 1); }
  }

  /** When the next block cannot be had, the whole range could not. */
  lemma CountedShort(g: Geo, d0: Disk, x0: Inode, d: Disk, x: Inode, lo: nat, cur: nat, hi: nat)
    requires Shaped(x0) && Shaped(x) && lo <= cur < hi <= MAXFILE && Counted(g, d0, x0, d, x, lo, cur)
    requires |FreeSet(g, d)| < BmapCost(d, x, cur)
    ensures |FreeSet(g, d0)| < Needed(d0, x0, lo, hi)
  {
    hide Ref, FreeSet;
    NeededNext(g, d0, x0, d, x, lo, cur);
    NeededGrows(d0, x0, lo, cur + 1, hi);
  }

  /** A range that needed nothing leaves the inode as it was. */
  lemma CountedNothing(g: Geo, d0: Disk, x0: Inode, d: Disk, x: Inode, lo: nat, hi: nat)
    requires Shaped(x0) && Shaped(x) && Counted(g, d0, x0, d, x, lo, hi) && Needed(d0, x0, lo, hi) == 0
    ensures x.addrs == x0.addrs
  {
    hide FreeSet;
    if hi <= MAXFILE { NothingNeeded(d0, x0, lo, hi); }
    forall s | 0 <= s <= NDIRECT
      ensures x.addrs[s] == x0.addrs[s]
    {
      if s < NDIRECT {
        assert SlotOf(s) == s && Ref(d, x, SlotOf(s)) == Ref(d0, x0, SlotOf(s));
      }
    }
  }

  /** A range that has been mapped has its blocks, and what was there still is. */
  lemma CountedHas(g: Geo, d0: Disk, x0: Inode, d: Disk, nodes: seq<Inode>, i: nat, lo: nat, hi: nat, n: nat)
    requires Shaped(x0) && Consistent(g, d, nodes) && i < |nodes|
    requires Counted(g, d0, x0, d, nodes[i], lo, hi) && (HasBlock(d0, x0, n) || lo <= n < hi)
    ensures HasBlock(d, nodes[i], n)
  {
    hide FreeSet;
    var s := SlotOf(n);
    assert Ref(d, nodes[i], s) != 0;
  }

  /** Storing into data blocks changes neither references nor the bitmap. */
  lemma BmapStore(g: Geo, d0: Disk, x0: Inode, d: Disk, d': Disk, nodes: seq<Inode>, i: nat, bn: nat)
    requires Shaped(x0) && AllShaped(nodes) && i < |nodes| && bn < MAXFILE
    requires BmapDone(g, d0, x0, d, nodes[i], bn) && SameRefs(d, d', nodes) && FreeSet(g, d') == FreeSet(g, d)
    ensures BmapDone(g, d0, x0, d', nodes[i], bn)
  {
    hide Ref;
    forall n: nat {:trigger SlotOf(n)} | n < MAXFILE
      ensures Ref(d', nodes[i], SlotOf(n)) == Ref(d, nodes[i], SlotOf(n))
    {
      var s := SlotOf(n);
    }
  }

  lemma BmapNone(g: Geo, d: Disk, x: Inode, bn: nat)
    requires Shaped(x) && bn < MAXFILE && Ref(d, x, SlotOf(bn)) != 0
    ensures |FreeSet(g, d)| >= BmapCost(d, x, bn) && BmapDone(g, d, x, d, x, bn)
  {
  }

  lemma BmapOne(g: Geo, d: Disk, nodes: seq<Inode>, d': Disk, nodes': seq<Inode>, i: nat, bn: nat, b: nat)
    requires AllShaped(nodes) && AllShaped(nodes') && |nodes'| == |nodes| && i < |nodes| && bn < MAXFILE
    requires Attached(d, nodes, d', nodes', i, SlotOf(bn), b) && b != 0 && Ref(d, nodes[i], SlotOf(bn)) == 0
    requires bn < NDIRECT || nodes[i].addrs[NDIRECT] != 0
    requires FreeSet(g, d') == FreeSet(g, d) - {b} && b in FreeSet(g, d)
    ensures |FreeSet(g, d)| >= BmapCost(d, nodes[i], bn) && BmapDone(g, d, nodes[i], d', nodes'[i], bn)
  {
    hide GetWord, FreeSet;
    forall n: nat {:trigger SlotOf(n)} | n < MAXFILE && n != bn
      ensures Ref(d', nodes'[i], SlotOf(n)) == Ref(d, nodes[i], SlotOf(n))
    {
      assert SlotOf(n) != SlotOf(bn);
    }
    assert Ref(d', nodes'[i], SlotOf(bn)) == b;
    assert Ref(d', nodes'[i], NDIRECT) == Ref(d, nodes[i], NDIRECT);
  }

  /** The indirect block and then its entry. */
  lemma BmapTwo(g: Geo, d: Disk, nodes: seq<Inode>, d1: Disk, n1: seq<Inode>, d2: Disk, n2: seq<Inode>, i: nat,
                bn: nat, ind: nat, b: nat)
    requires AllShaped(nodes) && AllShaped(n1) && AllShaped(n2) && |n2| == |n1| == |nodes| && i < |nodes|
               && NDIRECT <= bn < MAXFILE
    requires nodes[i].addrs[NDIRECT] == 0 && Attached(d, nodes, d1, n1, i, NDIRECT, ind) && ind != 0
    requires Attached(d1, n1, d2, n2, i, SlotOf(bn), b) && b != 0
    requires FreeSet(g, d1) == FreeSet(g, d) - {ind} && ind in FreeSet(g, d)
    requires FreeSet(g, d2) == FreeSet(g, d1) - {b} && b in FreeSet(g, d1)
    ensures |FreeSet(g, d)| >= BmapCost(d, nodes[i], bn) && BmapDone(g, d, nodes[i], d2, n2[i], bn)
  {
    hide GetWord, FreeSet;
    assert Ref(d1, n1[i], NDIRECT) == ind && Ref(d, nodes[i], SlotOf(bn)) == 0;
    assert Ref(d1, n1[i], SlotOf(bn)) == Ref(d, nodes[i], SlotOf(bn));
    BmapOne(g, d1, n1, d2, n2, i, bn, b);
    forall n: nat {:trigger SlotOf(n)} | n < MAXFILE && n != bn
      ensures Ref(d2, n2[i], SlotOf(n)) == Ref(d, nodes[i], SlotOf(n))
    {
      assert Ref(d1, n1[i], SlotOf(n)) == Ref(d, nodes[i], SlotOf(n));
    }
  }

  /** In terms of addresses and entries. */
  lemma BmapPlaces(g: Geo, d: Disk, x: Inode, d': Disk, x': Inode, bn: nat, addr: Word)
    requires Shaped(x) && Shaped(x') && bn < MAXFILE && BmapDone(g, d, x, d', x', bn)
    requires HasBlock(d', x', bn) && addr == Ref(d', x', SlotOf(bn))
    ensures Placed(d, x, d', x', bn, addr)
  {
    hide GetWord, FreeSet, BmapCost;
    forall k | 0 <= k < 28 && k != bn
      ensures x'.addrs[k] == x.addrs[k]
    {
      assert SlotOf(k) == k;
    }
    forall k | 0 <= k < 128 && k + 28 != bn
      ensures Entry(d', x', k) == Entry(d, x, k)
    {
      assert SlotOf(28 + k) == 29 + k;
    }
  }

  // ---------- Blocks that an operation updates ----------

  predicate IsBitmap(g: Geo, c: nat)
    requires g.size > 0
  {
    BBlock(g, 0) <= c < FirstData(g)
  }

  ghost function BitmapBlocks(g: Geo): set<nat>
    requires GeoOk(g)
  {
    set c: nat | c < g.size && IsBitmap(g, c)
  }

  lemma BitmapMember(g: Geo, b: nat)
    requires GeoOk(g) && b < g.size
    ensures BBlock(g, b) in BitmapBlocks(g)
  {
    assert b / BPB <= (g.size - 1) / BPB;
    assert IsBitmap(g, BBlock(g, b));
  }

  lemma {:induction false} RangeSize(lo: nat, n: nat, s: set<nat>)
    requires forall c :: c in s ==> lo <= c < lo + n
    ensures |s| <= n
  {
    if n > 0 {
      RangeSize(lo, n - 1, s - {lo + n - 1});
    } else {
      assert s == {};
    }
  }

  /** The indirect block, if there is one. */
  ghost function Pointer(x: Inode): set<nat>
    requires Shaped(x)
  {
    if x.addrs[NDIRECT] == 0 then {} else {x.addrs[NDIRECT] as nat}
  }

  ghost function DataBlocks(d: Disk, x: Inode, lo: nat, hi: nat): (bs: set<nat>)
    requires Shaped(x) && hi <= MAXFILE
    ensures |bs| <= if lo < hi then hi - lo else 0
  {
    if hi <= lo then {} else DataBlocks(d, x, lo, hi - 1) + {Ref(d, x, SlotOf(hi - 1)) as nat}
  }

  /** What allocating and storing blocks lo to hi of a file may update. */
  ghost function Reach(g: Geo, d: Disk, x: Inode, lo: nat, hi: nat): set<nat>
    requires GeoOk(g) && Shaped(x) && hi <= MAXFILE
  {
    BitmapBlocks(g) + Pointer(x) + DataBlocks(d, x, lo, hi)
  }

  /** The most sectors that writing blocks lo to hi of a file can update: bitmap, indirect block, inode and data. */
  function WriteSectors(g: Geo, lo: nat, hi: nat): int
    requires g.size > 0
  {
    (g.size - 1) / BPB + 3 + (if lo < hi then hi - lo else 0)
  }

  lemma ReachSize(g: Geo, d: Disk, x: Inode, lo: nat, hi: nat, i: nat)
    requires GeoOk(g) && Shaped(x) && hi <= MAXFILE
    ensures |BitmapBlocks(g) + {IBlock(i)}| <= (g.size - 1) / BPB + 2
    ensures |Reach(g, d, x, lo, hi) + {IBlock(i)}| <= WriteSectors(g, lo, hi)
  {
    RangeSize(BBlock(g, 0), (g.size - 1) / BPB + 1, BitmapBlocks(g));
    UnionSize(BitmapBlocks(g), {IBlock(i)});
    UnionSize(BitmapBlocks(g), Pointer(x));
    UnionSize(BitmapBlocks(g) + Pointer(x), DataBlocks(d, x, lo, hi));
    UnionSize(Reach(g, d, x, lo, hi), {IBlock(i)});
  }

  lemma UnionSize(a: set<nat>, b: set<nat>)
    ensures |a + b| <= |a| + |b|
  {
    assert a + b == a + (b - a);
    Subset(b - a, b);
  }

  lemma {:induction false} DataKept(d: Disk, x: Inode, d': Disk, x': Inode, lo: nat, hi: nat)
    requires Shaped(x) && Shaped(x') && hi <= MAXFILE
    requires forall n: nat {:trigger SlotOf(n)} :: lo <= n < hi ==> Ref(d', x', SlotOf(n)) == Ref(d, x, SlotOf(n))
    ensures DataBlocks(d', x', lo, hi) == DataBlocks(d, x, lo, hi)
    decreases hi
  {
    if lo < hi {
      DataKept(d, x, d', x', lo, hi - 1);
      assert Ref(d', x', SlotOf(hi - 1)) == Ref(d, x, SlotOf(hi - 1));
    }
  }

  /** Mapping one more block keeps what earlier ones reach. */
  lemma ReachGrows(g: Geo, d0: Disk, x0: Inode, d: Disk, x: Inode, d': Disk, x': Inode, lo: nat, cur: nat)
    requires GeoOk(g) && Shaped(x0) && Shaped(x) && Shaped(x') && lo <= cur < MAXFILE
    requires Counted(g, d0, x0, d, x, lo, cur) && BmapDone(g, d, x, d', x', cur)
    ensures Reach(g, d, x, lo, cur) <= Reach(g, d', x', lo, cur + 1)
    ensures Reach(g, d', x', cur, cur + 1) <= Reach(g, d', x', lo, cur + 1)
  {
    hide Ref, FreeSet, BitmapBlocks;
    DataKept(d, x, d', x', lo, cur);
    assert DataBlocks(d', x', cur, cur) == {};
  }

  lemma ReachSame(g: Geo, d: Disk, x: Inode, d': Disk, x': Inode, lo: nat, hi: nat)
    requires GeoOk(g) && Shaped(x) && Shaped(x') && hi <= MAXFILE && x'.addrs == x.addrs
    requires forall s: nat {:trigger Ref(d', x', s)} :: s < SLOTS ==> Ref(d', x', s) == Ref(d, x, s)
    ensures Reach(g, d', x', lo, hi) == Reach(g, d, x, lo, hi)
  {
    hide Ref, BitmapBlocks;
    DataKept(d, x, d', x', lo, hi);
  }

  /** More updates have been made, all of them to the given blocks. */
  ghost predicate Extends(us: seq<Update>, us': seq<Update>, bs: set<nat>) {
    |us| <= |us'| && us'[..|us|] == us && forall k :: |us| <= k < |us'| ==> us'[k].sector in bs
  }

  lemma ExtendsTwice(u0: seq<Update>, u1: seq<Update>, u2: seq<Update>, a: set<nat>, b: set<nat>, c: set<nat>)
    requires Extends(u0, u1, a) && Extends(u1, u2, b) && a <= c && b <= c
    ensures Extends(u0, u2, c)
  {
    assert u2[..|u0|] == u1[..|u0|];
    forall k | |u0| <= k < |u2|
      ensures u2[k].sector in c
    {
      if k < |u1| { assert u2[..|u1|][k] == u1[k]; }
    }
  }

  lemma NoneExtends(us: seq<Update>, bs: set<nat>)
    ensures Extends(us, us, bs)
  {
  }

  lemma ExtendsMore(u0: seq<Update>, u1: seq<Update>, a: set<nat>, b: set<nat>)
    requires Extends(u0, u1, a) && a <= b
    ensures Extends(u0, u1, b)
  {
  }

  // ---------- Blocks to stay away from ----------

  /** Blocks in use that belong to no file. */
  ghost predicate Spared(g: Geo, d: Disk, nodes: seq<Inode>, rs: set<nat>)
    requires GeoOk(g) && AllShaped(nodes)
  {
    && (forall c {:trigger c in rs} :: c in rs ==> FirstData(g) <= c < g.size && InUse(g, d, c))
    && (forall i: nat, s: nat {:trigger Ref(d, nodes[i], s)} :: i < |nodes| && s < SLOTS ==>
         Ref(d, nodes[i], s) as nat !in rs)
  }

  lemma SparedSame(g: Geo, d: Disk, d': Disk, nodes: seq<Inode>, rs: set<nat>)
    requires GeoOk(g) && AllShaped(nodes) && Spared(g, d, nodes, rs) && SameRefs(d, d', nodes)
    requires forall c: nat {:trigger InUse(g, d', c)} :: c < g.size && c in rs && InUse(g, d, c) ==> InUse(g, d', c)
    ensures Spared(g, d', nodes, rs)
  {
    hide Ref, InUse;
  }

  lemma SparedTaken(g: Geo, d: Disk, nodes: seq<Inode>, rs: set<nat>, b: nat)
    requires Consistent(g, d, nodes) && b < g.size && BBlock(g, b) in d && !InUse(g, d, b) && Spared(g, d, nodes, rs)
    ensures Spared(g, Taken(g, d, b), nodes, rs) && b !in rs && BBlock(g, b) !in rs
  {
    hide SetBit, GetBit, Marked, Unique, MetaInUse, Spared;
    BitmapInDisk(g, d, nodes, b);
    SparedApart(g, d, nodes, rs, b);
    SparedApart(g, d, nodes, rs, BBlock(g, b));
    TakenKeeps(g, d, nodes, b);
    forall c: nat | c < g.size && InUse(g, d, c)
      ensures InUse(g, Taken(g, d, b), c)
    {
      TakenUse(g, d, nodes, b, c);
    }
    SparedSame(g, d, Taken(g, d, b), nodes, rs);
  }

  /** Metadata, free blocks and the blocks of files are not among them. */
  lemma SparedApart(g: Geo, d: Disk, nodes: seq<Inode>, rs: set<nat>, b: nat)
    requires GeoOk(g) && AllShaped(nodes) && Spared(g, d, nodes, rs)
    requires b < FirstData(g) || (b < g.size && !InUse(g, d, b)) || !Unowned(d, nodes, b)
    ensures b !in rs
  {
    hide Ref, InUse;
  }

  lemma SparedAttach(g: Geo, d: Disk, nodes: seq<Inode>, d': Disk, nodes': seq<Inode>, i: nat, s: nat, b: nat,
                     rs: set<nat>)
    requires GeoOk(g) && AllShaped(nodes) && AllShaped(nodes') && |nodes'| == |nodes|
    requires Spared(g, d, nodes, rs) && Attached(d, nodes, d', nodes', i, s, b) && b !in rs
    requires forall c: nat {:trigger InUse(g, d', c)} :: c < g.size ==> InUse(g, d', c) == InUse(g, d, c)
    ensures Spared(g, d', nodes', rs)
  {
    hide Ref, InUse;
  }

  // ---------- Writing into a block ----------

  function Splice(b: seq<Byte>, at: nat, chunk: seq<Byte>): (r: seq<Byte>)
    requires at + |chunk| <= |b|
    ensures |r| == |b| && forall k :: 0 <= k < |b| ==> r[k] == if at <= k < at + |chunk| then chunk[k - at] else b[k]
  {
    b[..at] + chunk + b[at + |chunk|..]
  }

  function SpliceBlock(b: Block, at: nat, chunk: seq<Byte>): Block
    requires at + |chunk| <= BSIZE
  {
    Splice(b, at, chunk)
  }

  lemma BlockOf(d: Disk, x: Inode, n: nat)
    requires Shaped(x) && HasBlock(d, x, n)
    ensures n < MAXFILE && Ref(d, x, SlotOf(n)) in d
  {
  }

  /** Storing into a data block changes one block of one file. */
  lemma StoreBlock(g: Geo, d: Disk, nodes: seq<Inode>, i: nat, n: nat, x: Block)
    requires Consistent(g, d, nodes) && i < |nodes| && HasBlock(d, nodes[i], n)
    ensures var b := Ref(d, nodes[i], SlotOf(n));
            && Consistent(g, d[b := x], nodes) && SameRefs(d, d[b := x], nodes)
            && OthersKept(d, nodes, d[b := x], nodes, i) && InodesKept(g, d, d[b := x])
            && FreeSet(g, d[b := x]) == FreeSet(g, d)
            && forall c: nat {:trigger InUse(g, d[b := x], c)} :: c < g.size ==>
                 InUse(g, d[b := x], c) == InUse(g, d, c)
    ensures forall m: nat {:trigger SlotOf(m)} :: m < MAXFILE && m != n && Ref(d, nodes[i], SlotOf(m)) != 0 ==>
              Ref(d, nodes[i], SlotOf(m)) != Ref(d, nodes[i], SlotOf(n))
  {
    hide GetBit, GetWord;
    var b := Ref(d, nodes[i], SlotOf(n));
    var d' := d[b := x];
    assert FirstData(g) <= b < g.size;
    assert SlotOf(n) != NDIRECT;
    RefsKept(g, d, nodes, b, x);
    forall c: nat | c < g.size
      ensures InUse(g, d', c) == InUse(g, d, c)
    {
      BitmapInDisk(g, d, nodes, c);
    }
    EntryInodes(g, d, nodes, b, x);
    forall m: nat {:trigger SlotOf(m)} | m < MAXFILE && m != n && Ref(d, nodes[i], SlotOf(m)) != 0
      ensures Ref(d, nodes[i], SlotOf(m)) != b
    {
      assert SlotOf(m) != SlotOf(n);
    }
  }

  // ---------- A write in progress ----------

  ghost predicate Holds(d: Disk, x: Inode, k: nat, v: Byte)
    requires Shaped(x)
  {
    ByteAt(d, x, k) == v
  }

  function Extent(c: seq<Byte>, off: nat, src: seq<Byte>): nat {
    if off + |src| > |c| then off + |src| else |c|
  }

  /** Byte k of contents c after src has been written at off. */
  function Overwritten(c: seq<Byte>, off: nat, src: seq<Byte>, k: nat): Byte
    requires off <= |c| && k < Extent(c, off, src)
  {
    if off <= k < off + |src| then src[k - off] else c[k]
  }

  /** The inode holds contents c with src written at off; its size may still be the old one. */
  ghost predicate Written(d: Disk, x: Inode, c: seq<Byte>, off: nat, src: seq<Byte>)
    requires Shaped(x) && off <= |c|
  {
    forall k: nat {:trigger Overwritten(c, off, src, k)} :: k < Extent(c, off, src) ==>
        Holds(d, x, k, Overwritten(c, off, src, k))
  }

  lemma WrittenStart(d: Disk, x: Inode, off: nat)
    requires Shaped(x) && off <= x.size
    ensures Written(d, x, Bytes(d, x), off, [])
  {
    var c := Bytes(d, x);
    forall k: nat | k < Extent(c, off, [])
      ensures Holds(d, x, k, Overwritten(c, off, [], k))
    {
      assert c[k] == ByteAt(d, x, k);
    }
  }

  lemma WrittenGrown(d: Disk, nodes: seq<Inode>, d': Disk, nodes': seq<Inode>, i: nat, c: seq<Byte>, off: nat,
                     src: seq<Byte>)
    requires AllShaped(nodes) && Grown(d, nodes, d', nodes', i) && off <= |c| && Written(d, nodes[i], c, off, src)
    ensures Written(d', nodes'[i], c, off, src)
  {
    forall k: nat | k < Extent(c, off, src)
      ensures Holds(d', nodes'[i], k, Overwritten(c, off, src, k))
    {
      assert Holds(d, nodes[i], k, Overwritten(c, off, src, k));
      GrownBytes(d, nodes, d', nodes', i, k);
    }
  }

  lemma WrittenStep(g: Geo, d: Disk, nodes: seq<Inode>, i: nat, c: seq<Byte>, off: nat, src: seq<Byte>, tot: nat,
                    m: nat, b: Block)
    requires Consistent(g, d, nodes) && i < |nodes| && off <= |c| && tot + m <= |src|
    requires Written(d, nodes[i], c, off, src[..tot]) && HasBlock(d, nodes[i], (off + tot) / BSIZE)
    requires (off + tot) % BSIZE + m <= BSIZE
    requires b == Splice(d[Ref(d, nodes[i], SlotOf((off + tot) / BSIZE))], (off + tot) % BSIZE, src[tot..tot + m])
    ensures Written(d[Ref(d, nodes[i], SlotOf((off + tot) / BSIZE)) := b], nodes[i], c, off, src[..tot + m])
  {
    hide Marked, Unique, MetaInUse;
    var x, n, part := nodes[i], (off + tot) / BSIZE, src[..tot + m];
    var a := Ref(d, x, SlotOf(n));
    var d' := d[a := b];
    StoreBlock(g, d, nodes, i, n, b);
    forall k: nat | k < Extent(c, off, part)
      ensures Holds(d', x, k, Overwritten(c, off, part, k))
    {
      StoredByte(d, d', nodes, i, n, b, k);
      if off + tot <= k < off + tot + m {
        ChunkIndex(off + tot, k);
      } else {
        assert Holds(d, x, k, Overwritten(c, off, src[..tot], k));
        if k / BSIZE == n {
          ChunkIndex2(off + tot, k);
        }
      }
    }
  }

  /** Byte k after block n of the file has been replaced by b. */
  lemma StoredByte(d: Disk, d': Disk, nodes: seq<Inode>, i: nat, n: nat, b: Block, k: nat)
    requires AllShaped(nodes) && i < |nodes| && HasBlock(d, nodes[i], n) && SameRefs(d, d', nodes)
    requires d' == d[Ref(d, nodes[i], SlotOf(n)) := b]
    requires forall m: nat {:trigger SlotOf(m)} :: m < MAXFILE && m != n && Ref(d, nodes[i], SlotOf(m)) != 0 ==>
               Ref(d, nodes[i], SlotOf(m)) != Ref(d, nodes[i], SlotOf(n))
    ensures ByteAt(d', nodes[i], k) == if k / BSIZE == n then b[k % BSIZE] else ByteAt(d, nodes[i], k)
  {
    hide Ref;
    if k / BSIZE < MAXFILE {
      RefSame(d, d', nodes, i, SlotOf(k / BSIZE));
    }
  }

  /** Byte k of a chunk that starts at p and stays inside one block. */
  lemma ChunkIndex(p: nat, k: nat)
    requires p <= k && p % BSIZE + (k - p) < BSIZE
    ensures k / BSIZE == p / BSIZE && k % BSIZE == p % BSIZE + (k - p)
  {
  }

  lemma ChunkIndex2(p: nat, k: nat)
    requires k / BSIZE == p / BSIZE
    ensures k % BSIZE - p % BSIZE == k - p
  {
  }

  /** Contents c with src written at off. */
  function Spliced(c: seq<Byte>, off: nat, src: seq<Byte>): seq<Byte>
    requires off <= |c|
  {
    c[..off] + src + (if off + |src| <= |c| then c[off + |src|..] else [])
  }

  lemma WrittenBytes(d: Disk, x: Inode, c: seq<Byte>, off: nat, src: seq<Byte>)
    requires Shaped(x) && off <= |c| && Written(d, x, c, off, src) && x.size == Extent(c, off, src)
    ensures Bytes(d, x) == Spliced(c, off, src)
  {
    var now := Bytes(d, x);
    forall k | 0 <= k < |now|
      ensures now[k] == Spliced(c, off, src)[k]
    {
      assert Holds(d, x, k, Overwritten(c, off, src, k));
      assert now[k] == ByteAt(d, x, k);
    }
  }

  /** A completed write leaves no new hole. */
  lemma StillHoleFree(g: Geo, d0: Disk, x0: Inode, d: Disk, nodes: seq<Inode>, i: nat, off: nat, n: nat)
    requires Shaped(x0) && HoleFree(d0, x0) && Consistent(g, d, nodes) && i < |nodes| && off <= x0.size
               && off + n <= MAXFILE * BSIZE
    requires Counted(g, d0, x0, d, nodes[i], off / BSIZE, BlocksEnd(off, n))
    requires nodes[i].size == if n > 0 && off + n > x0.size then off + n else x0.size as int
    ensures HoleFree(d, nodes[i])
  {
    hide Counted, Marked, Unique, MetaInUse, Ref;
    forall m: nat | m * BSIZE < nodes[i].size
      ensures HasBlock(d, nodes[i], m)
    {
      if m * BSIZE < x0.size {
        assert HasBlock(d0, x0, m);
      } else {
        assert off / BSIZE <= m && m <= (off + n - 1) / BSIZE;
      }
      CountedHas(g, d0, x0, d, nodes, i, off / BSIZE, BlocksEnd(off, n), m);
    }
  }

  lemma GrownContents(d: Disk, nodes: seq<Inode>, d': Disk, nodes': seq<Inode>, i: nat)
    requires AllShaped(nodes) && Grown(d, nodes, d', nodes', i) && nodes'[i].size == nodes[i].size
    ensures Bytes(d', nodes'[i]) == Bytes(d, nodes[i])
  {
    var c, c' := Bytes(d, nodes[i]), Bytes(d', nodes'[i]);
    forall k | 0 <= k < |c|
      ensures c'[k] == c[k]
    {
      GrownBytes(d, nodes, d', nodes', i, k);
    }
  }

  class File {
    const g: Geo
    const inum: nat
    /** The logical disk. */
    var disk: Disk
    /** The in-memory inode. */
    const kind: Word
    const links: Word
    var size: Word
    var addrs: seq<Word>
    /** Every inode of the volume, this one as it is in memory. */
    ghost var nodes: seq<Inode>
    /** The disk at the beginning and the blocks stored and passed to log_write since, oldest first. */
    ghost var start: Disk
    var issued: seq<Update>
    /** Blocks in use that belong to no file, such as the log. */
    ghost const reserved: set<nat>

    constructor (g: Geo, inum: nat, disk: Disk, x: Inode, ghost nodes: seq<Inode>, ghost reserved: set<nat>)
      requires Consistent(g, disk, nodes) && inum < |nodes| && nodes[inum] == x && Spared(g, disk, nodes, reserved)
      ensures Owned() && this.g == g && this.inum == inum && this.disk == disk && this.nodes == nodes
      ensures start == disk && issued == [] && this.reserved == reserved
    {
      this.g := g;
      this.inum := inum;
      this.disk := disk;
      kind, links, size, addrs := x.kind, x.links, x.size, x.addrs;
      this.nodes := nodes;
      start, issued, this.reserved := disk, [], reserved;
    }

    function Me(): Inode
      reads this
    {
      Inode(kind, links, size, addrs)
    }

    /** The disk is the result of the updates made, none of them to a reserved block. */
    ghost predicate Logged()
      reads this`disk, this`start, this`issued
    {
      disk == Replay(start, issued) && forall k :: 0 <= k < |issued| ==> issued[k].sector !in reserved
    }

    ghost predicate Owned()
      reads this
    {
      Consistent(g, disk, nodes) && inum < |nodes| && nodes[inum] == Me() && Spared(g, disk, nodes, reserved)
          && Logged()
    }

    /** The next operation begins: the updates made so far are on the volume d. */
    method Resume(d: Disk)
      requires Consistent(g, d, nodes) && inum < |nodes| && nodes[inum] == Me() && Spared(g, d, nodes, reserved)
      modifies this`disk, this`start, this`issued
      ensures Owned() && disk == start == d && issued == []
    {
      disk, start, issued := d, d, [];
    }

    /** bread, a store into the buffer, log_write, brelse. */
    method Put(b: nat, data: Block)
      requires Logged() && b !in reserved
      modifies this`disk, this`issued
      ensures Logged() && disk == old(disk)[b := data] && issued == old(issued) + [Update(b, data)]
    {
      disk := disk[b := data];
      issued := issued + [Update(b, data)];
    }

    /** fs1_balloc: takes the lowest free block and zeroes it. */
    method Balloc() returns (r: Outcome, b: nat)
      requires Consistent(g, disk, nodes) && Spared(g, disk, nodes, reserved) && Logged()
      modifies this`disk, this`issued
      ensures Logged()
      ensures r.Panic? <==> forall c: nat :: c < g.size ==> InUse(g, old(disk), c)
      ensures r.Panic? ==> disk == old(disk)
      ensures r.Done? ==> b < g.size && BBlock(g, b) in old(disk) && !InUse(g, old(disk), b)
      ensures r.Done? ==> disk == Taken(g, old(disk), b)
      ensures r.Done? ==> forall c: nat :: c < b ==> InUse(g, old(disk), c)
      ensures r.Done? ==> Extends(old(issued), issued, BitmapBlocks(g) + {b})
    {
      hide SetBit, GetBit, Marked, Unique, Spared, Logged, MetaInUse, Complete, GeoOk, BitmapBlocks;
      var at := 0;
      while at < g.size
        invariant at % BPB == 0 && disk == old(disk) && issued == old(issued) && Logged()
        invariant forall c: nat :: c < at && c < g.size ==> InUse(g, disk, c)
        decreases g.size - at
      {
        BitmapInDisk(g, disk, nodes, at);
        var bp := disk[BBlock(g, at)];
        var bi := 0;
        while bi < BPB && at + bi < g.size
          invariant 0 <= bi <= BPB && disk == old(disk) && issued == old(issued) && Logged()
          invariant forall c: nat :: c < at + bi && c < g.size ==> InUse(g, disk, c)
        {
          SameBitmapBlock(g, at, bi);
          if !GetBit(bp, bi) {
            b := at + bi;
            assert !InUse(g, old(disk), b);
            SparedTaken(g, disk, nodes, reserved, b);
            BitmapMember(g, at);
            Put(BBlock(g, at), SetBit(bp, bi, true));
            Put(b, ZeroBlock());
            return Done, b;
          }
          bi := bi + 1;
        }
        at := at + BPB;
      }
      return Panic, 0;
    }

    /** addrs[s] = fs1_balloc() */
    method BallocAddr(s: nat) returns (r: Outcome)
      requires Owned() && s <= NDIRECT && addrs[s] == 0
      modifies this`disk, this`issued, this`addrs, this`nodes
      ensures r.Panic? <==> FreeSet(g, old(disk)) == {}
      ensures r.Done? ==> Owned() && Grown(old(disk), old(nodes), disk, nodes, inum) && InodesKept(g, old(disk), disk)
      ensures r.Done? ==> addrs[s] != 0 && addrs[s] in disk && addrs == old(addrs)[s := addrs[s]]
      ensures r.Done? ==> Attached(old(disk), old(nodes), disk, nodes, inum, s, addrs[s])
      ensures r.Done? ==>
                && addrs[s] as nat in FreeSet(g, old(disk))
                && FreeSet(g, disk) == FreeSet(g, old(disk)) - {addrs[s] as nat}
      ensures r.Done? ==> Extends(old(issued), issued, BitmapBlocks(g) + {addrs[s] as nat})
    {
      hide Marked, Unique, SetBit, GetBit, GetWord, Grown, SameData, SameRefs, Attached, MetaInUse, InodesKept, Unowned,
           Spared, Logged, InUse, Extends, BitmapBlocks;
      ghost var d0, n0 := disk, nodes;
      var b;
      r, b := Balloc();
      if r.Done? {
        TakenKeeps(g, d0, n0, b);
        TakenInodes(g, d0, n0, b);
        TakenFree(g, d0, n0, b);
        SparedTaken(g, d0, n0, reserved, b);
        AttachAddr(g, disk, n0, inum, s, b);
        SelfData(g, disk, n0);
        addrs := addrs[s := b];
        nodes := SetAddr(nodes, inum, s, b);
        SparedAttach(g, disk, n0, disk, nodes, inum, s, b, reserved);
        AttachedGrows(d0, n0, disk, disk, nodes, inum, s, b);
      }
    }

    /** a[k] = fs1_balloc() in the indirect block */
    method BallocEntry(k: nat) returns (r: Outcome, addr: Word)
      requires Owned() && k < NINDIRECT && addrs[NDIRECT] != 0 && addrs[NDIRECT] in disk
                 && Ref(disk, Me(), NDIRECT + 1 + k) == 0
      modifies this`disk, this`issued
      ensures r.Panic? <==> FreeSet(g, old(disk)) == {}
      ensures r.Done? ==> Owned() && Grown(old(disk), old(nodes), disk, nodes, inum) && InodesKept(g, old(disk), disk)
      ensures r.Done? ==> addr != 0 && addr in disk && addr == Ref(disk, Me(), NDIRECT + 1 + k)
      ensures r.Done? ==> Attached(old(disk), old(nodes), disk, nodes, inum, NDIRECT + 1 + k, addr)
      ensures r.Done? ==>
                addr as nat in FreeSet(g, old(disk)) && FreeSet(g, disk) == FreeSet(g, old(disk)) - {addr as nat}
      ensures r.Done? ==> Extends(old(issued), issued, BitmapBlocks(g) + {addr as nat, addrs[NDIRECT] as nat})
    {
      hide Marked, Unique, SetBit, GetBit, GetWord, PutWord, Grown, SameData, SameRefs, MetaInUse, InodesKept, Unowned,
           Spared, Logged, Attached, InUse, BitmapBlocks;
      ghost var d0 := disk;
      var bp := disk[addrs[NDIRECT]];
      var b;
      r, b := Balloc();
      addr := 0;
      if r.Done? {
        EntryTaken(g, d0, nodes, inum, k, b, reserved);
        ghost var d1 := disk;
        addr := b;
        ghost var us := issued;
        Put(addrs[NDIRECT], PutWord(bp, k, addr));
        ExtendsTwice(old(issued), us, issued, BitmapBlocks(g) + {b}, {addrs[NDIRECT] as nat},
                     BitmapBlocks(g) + {addr as nat, addrs[NDIRECT] as nat});
        AttachedGrows(d0, nodes, d1, disk, nodes, inum, NDIRECT + 1 + k, b);
        KeptTwice(g, d0, d1, disk);
      }
    }

    /** fs1_bmap: the block that holds block bn of the file, allocated if need be. */
    method Bmap(bn: nat) returns (r: Outcome, addr: Word)
      requires Owned()
      modifies this`disk, this`issued, this`addrs, this`nodes
      ensures r.Done? <==> bn < MAXFILE && |FreeSet(g, old(disk))| >= BmapCost(old(disk), old(Me()), bn)
      ensures HasBlock(old(disk), old(Me()), bn) ==>
                r.Done? && disk == old(disk) && addrs == old(addrs) && nodes == old(nodes) && issued == old(issued)
      ensures r.Done? ==> Owned() && Grown(old(disk), old(nodes), disk, nodes, inum) && InodesKept(g, old(disk), disk)
      ensures r.Done? ==> HasBlock(disk, Me(), bn) && addr == Ref(disk, Me(), SlotOf(bn))
      ensures r.Done? ==> BmapDone(g, old(disk), old(Me()), disk, Me(), bn)
      ensures r.Done? ==> Placed(old(disk), old(Me()), disk, Me(), bn, addr)
      ensures r.Done? ==> Extends(old(issued), issued, Reach(g, disk, Me(), bn, bn + 1))
    {
      hide Marked, Unique, GetWord, Grown, MetaInUse, InodesKept, Spared, Logged, FreeSet, Attached, BmapDone, Extends,
           Reach, GeoOk, Placed;
      NoChange(g, disk, nodes, inum);
      RefsInDisk(g, disk, nodes, inum);
      if bn < NDIRECT {
        r := Done;
        if addrs[bn] == 0 {
          r := BallocAddr(bn);
          if r.Panic? {
            return r, 0;
          }
          BmapOne(g, old(disk), old(nodes), disk, nodes, inum, bn, addrs[bn]);
        } else {
          BmapNone(g, disk, Me(), bn);
        }
        addr := addrs[bn];
        BmapReach(g, disk, Me(), bn, old(issued), issued);
        BmapPlaces(g, old(disk), old(Me()), disk, Me(), bn, addr);
        return;
      }
      var k := bn - NDIRECT;
      if k < NINDIRECT {
        ghost var absent := addrs[NDIRECT] == 0;
        if addrs[NDIRECT] == 0 {
          r := BallocAddr(NDIRECT);
          if r.Panic? {
            return r, 0;
          }
          RefsInDisk(g, disk, nodes, inum);
          AttachedSlot(old(disk), old(nodes), disk, nodes, inum, NDIRECT, addrs[NDIRECT], SlotOf(bn));
        }
        ghost var d1, n1, us := disk, nodes, issued;
        var a := disk[addrs[NDIRECT]];
        r := Done;
        addr := GetWord(a, k);
        if addr == 0 {
          r, addr := BallocEntry(k);
          if r.Panic? {
            assert absent ==> FreeSet(g, old(disk)) == {addrs[NDIRECT] as nat};
            return r, 0;
          }
          KeptTwice(g, old(disk), d1, disk);
          GrownTwice(old(disk), old(nodes), d1, n1, disk, nodes, inum);
          if absent {
            BmapTwo(g, old(disk), old(nodes), d1, n1, disk, nodes, inum, bn, addrs[NDIRECT], addr);
          } else {
            BmapOne(g, old(disk), old(nodes), disk, nodes, inum, bn, addr);
          }
          EntryReach(g, disk, Me(), bn, old(issued), us, issued);
        } else {
          BmapNone(g, disk, Me(), bn);
          BmapReach(g, disk, Me(), bn, old(issued), issued);
        }
        BmapPlaces(g, old(disk), old(Me()), disk, Me(), bn, addr);
        return;
      }
      return Panic, 0;
    }

    /** fs1_iupdate: the in-memory inode goes to its place in the inode block. */
    method Iupdate()
      requires Owned()
      modifies this`disk, this`issued
      ensures Owned() && SameRefs(old(disk), disk, nodes) && SameData(old(disk), disk, nodes)
      ensures Stored(g, disk, nodes, inum) && BitsFreed(g, old(disk), disk, {})
      ensures forall j: nat {:trigger Stored(g, disk, nodes, j)} :: j < |nodes| && Stored(g, old(disk), nodes, j) ==>
                Stored(g, disk, nodes, j)
      ensures Extends(old(issued), issued, {IBlock(inum)})
    {
      hide Marked, Unique, MetaInUse, SameRefs, SameData, PutInode, GetInode, Spared, Logged, BitsFreed;
      ghost var d0 := disk;
      IupdateKeeps(g, disk, nodes, inum);
      MetaBlocks(g, inum, 0);
      SparedApart(g, disk, nodes, reserved, IBlock(inum));
      Put(IBlock(inum), PutInode(disk[IBlock(inum)], inum % IPB, Me()));
      SparedFreed(g, d0, disk, nodes, reserved, {});
    }

    /** One turn of the loop of fs1_readi. */
    method ReadChunk(at: nat, left: nat) returns (r: Outcome, chunk: seq<Byte>)
      requires Owned() && left > 0 && at + left <= size
      modifies this`disk, this`issued, this`addrs, this`nodes
      ensures r.Done? <==> at / BSIZE < MAXFILE && |FreeSet(g, old(disk))| >= BmapCost(old(disk), old(Me()), at / BSIZE)
      ensures HasBlock(old(disk), old(Me()), at / BSIZE) ==>
                disk == old(disk) && addrs == old(addrs) && nodes == old(nodes) && issued == old(issued)
      ensures r.Done? ==> Owned() && Grown(old(disk), old(nodes), disk, nodes, inum) && InodesKept(g, old(disk), disk)
      ensures r.Done? ==> BmapDone(g, old(disk), old(Me()), disk, Me(), at / BSIZE)
      ensures r.Done? ==> Bytes(disk, Me()) == Bytes(old(disk), old(Me()))
      ensures r.Done? ==> chunk == Bytes(old(disk), old(Me()))[at..at + ChunkLength(at, left)]
    {
      hide Marked, Unique, MetaInUse, Grown, InodesKept, Bytes, Spared, Logged, FreeSet, BmapDone, BmapCost;
      var addr;
      r, addr := Bmap(at / BSIZE);
      chunk := [];
      if r.Done? {
        var bp := disk[addr];
        var m := ChunkLength(at, left);
        GrownContents(old(disk), old(nodes), disk, nodes, inum);
        SliceOfFile(disk, Me(), at, m);
        chunk := bp[at % BSIZE..at % BSIZE + m];
      }
    }

    /** The loop of fs1_readi. */
    method ReadChunks(off: nat, left: nat) returns (r: Outcome, dst: seq<Byte>)
      requires Owned() && off + left <= size
      modifies this`disk, this`issued, this`addrs, this`nodes
      ensures r.Done? <==> CanMap(g, old(disk), old(Me()), off / BSIZE, BlocksEnd(off, left))
      ensures r.Done? ==> Owned() && Grown(old(disk), old(nodes), disk, nodes, inum) && InodesKept(g, old(disk), disk)
      ensures r.Done? ==> Bytes(disk, Me()) == Bytes(old(disk), old(Me()))
      ensures r.Done? ==> dst == Bytes(old(disk), old(Me()))[off..off + left]
      ensures r.Done? ==> Counted(g, old(disk), old(Me()), disk, Me(), off / BSIZE, BlocksEnd(off, left))
      ensures r.Done? && Needed(old(disk), old(Me()), off / BSIZE, BlocksEnd(off, left)) == 0 ==>
                disk == old(disk) && issued == old(issued)
    {
      hide Marked, Unique, MetaInUse, Grown, InodesKept, Bytes, Spared, Logged, FreeSet, Counted, BmapDone, Needed,
           BmapCost, HasBlock, Ref, BlocksEnd, ChunkLength, OnBlock, Complete, CanMap, GeoOk;
      ghost var c, lo, hi := Bytes(disk, Me()), off / BSIZE, BlocksEnd(off, left);
      ghost var whole := hi <= MAXFILE && Needed(disk, Me(), lo, hi) == 0;
      var tot := 0;
      r, dst := Done, [];
      NoChange(g, disk, nodes, inum);
      CountedStart(g, disk, Me(), lo);
      FirstChunk(off, left);
      while tot < left
        invariant tot <= left && size == old(size) && r.Done? && OnBlock(off, tot, left)
        invariant Owned() && Grown(old(disk), old(nodes), disk, nodes, inum) && InodesKept(g, old(disk), disk)
        invariant Counted(g, old(disk), old(Me()), disk, Me(), lo, BlocksEnd(off, tot))
        invariant tot == 0 || whole ==> disk == old(disk) && nodes == old(nodes) && issued == old(issued)
        invariant Bytes(disk, Me()) == c && dst == c[off..off + tot]
        decreases left - tot
      {
        ghost var d1, n1, cur := disk, nodes, BlocksEnd(off, tot);
        NextChunk(off, tot, left);
        if whole {
          CountedRange(g, old(disk), old(Me()), disk, Me(), lo, cur);
          NeededHas(g, disk, nodes, inum, lo, hi, cur);
        }
        var chunk;
        r, chunk := ReadChunk(off + tot, left - tot);
        if r.Panic? {
          CannotMap(g, old(disk), old(Me()), d1, n1[inum], lo, cur, hi);
          return;
        }
        CountedNext(g, old(disk), old(Me()), d1, n1[inum], disk, Me(), lo, cur);
        GrownTwice(old(disk), old(nodes), d1, n1, disk, nodes, inum);
        KeptTwice(g, old(disk), d1, disk);
        var m := ChunkLength(off + tot, left - tot);
        SliceNext(c, off, off + tot, m);
        dst := dst + chunk;
        tot := tot + m;
      }
      CouldMap(g, old(disk), old(Me()), disk, Me(), lo, hi);
    }

    /**
     fs1_readi: the bytes of the file from off on, at most n of them; -1 stands for the
     error return.  A hole reads as zeros and is filled on the way.
     */
    method Readi(off: nat, n: nat) returns (r: Outcome, count: int, dst: seq<Byte>)
      requires Owned() && off < 0x1_0000_0000 && n < 0x1_0000_0000
      modifies this`disk, this`issued, this`addrs, this`nodes
      ensures off > size || off + n >= 0x1_0000_0000 ==>
                r.Done? && count == -1 && dst == [] && disk == old(disk) && nodes == old(nodes) && Owned()
      ensures off <= size && off + n < 0x1_0000_0000 ==>
                var upto := if off + n > size then size as int else off + n;
                var lo, hi := off / BSIZE, BlocksEnd(off, upto - off);
                && (r.Done? <==> CanMap(g, old(disk), old(Me()), lo, hi))
                && (r.Done? ==>
                      && count == upto - off && dst == Bytes(old(disk), old(Me()))[off..upto]
                      && Owned() && Bytes(disk, Me()) == Bytes(old(disk), old(Me()))
                      && OthersKept(old(disk), old(nodes), disk, nodes, inum) && InodesKept(g, old(disk), disk)
                      && Counted(g, old(disk), old(Me()), disk, Me(), lo, hi))
                && (Needed(old(disk), old(Me()), lo, hi) == 0 && r.Done? ==> disk == old(disk) && issued == old(issued))
    {
      hide Marked, Unique, MetaInUse, Grown, InodesKept, Bytes, Spared, Logged, FreeSet, Counted, OthersKept, Needed,
           BlocksEnd, CanMap;
      dst := [];
      r := Done;
      if off > size || (off + n) % 0x1_0000_0000 < off {
        return Done, -1, dst;
      }
      var left := n;
      if off + n > size {
        left := size - off;
      }
      r, dst := ReadChunks(off, left);
      if r.Done? {
        GrownKeepsOthers(old(disk), old(nodes), disk, nodes, inum);
      }
      count := left;
    }

    /** One turn of the loop of fs1_writei: tot bytes of src are in place, m more follow. */
    method WriteChunk(src: seq<Byte>, off: nat, tot: nat, ghost c: seq<Byte>) returns (r: Outcome, m: nat)
      requires Owned() && tot < |src| && off <= |c| && (off + tot) / BSIZE < MAXFILE
      requires Written(disk, Me(), c, off, src[..tot])
      modifies this`disk, this`issued, this`addrs, this`nodes
      ensures m == ChunkLength(off + tot, |src| - tot) <= |src| - tot
      ensures r.Done? <==> |FreeSet(g, old(disk))| >= BmapCost(old(disk), old(Me()), (off + tot) / BSIZE)
      ensures r.Done? ==> Owned() && Written(disk, Me(), c, off, src[..tot + m])
      ensures r.Done? ==> OthersKept(old(disk), old(nodes), disk, nodes, inum) && InodesKept(g, old(disk), disk)
      ensures r.Done? ==> BmapDone(g, old(disk), old(Me()), disk, Me(), (off + tot) / BSIZE)
      ensures r.Done? ==>
                Extends(old(issued), issued, Reach(g, disk, Me(), (off + tot) / BSIZE, (off + tot) / BSIZE + 1))
    {
      hide Marked, Unique, MetaInUse, Grown, InodesKept, Written, OthersKept, Splice, HasBlock, Spared, Logged,
           BmapDone, BmapCost, FreeSet, InUse, Extends, Reach, GeoOk;
      var at := off + tot;
      var addr;
      r, addr := Bmap(at / BSIZE);
      m := ChunkLength(at, |src| - tot);
      if r.Done? {
        ghost var d1 := disk;
        GrownKeepsOthers(old(disk), old(nodes), disk, nodes, inum);
        WrittenGrown(old(disk), old(nodes), disk, nodes, inum, c, off, src[..tot]);
        BlockOf(disk, Me(), at / BSIZE);
        var bp: Block := SpliceBlock(disk[addr], at % BSIZE, src[tot..tot + m]);
        StoreBlock(g, disk, nodes, inum, at / BSIZE, bp);
        WrittenStep(g, disk, nodes, inum, c, off, src, tot, m, bp);
        SparedSlot(g, disk, nodes, inum, SlotOf(at / BSIZE), reserved);
        ghost var us := issued;
        Put(addr, bp);
        ChunkReach(g, d1, disk, nodes, inum, at / BSIZE, old(issued), us, bp);
        SparedSame(g, d1, disk, nodes, reserved);
        BmapStore(g, old(disk), old(Me()), d1, disk, nodes, inum, at / BSIZE);
        OthersTwice(old(disk), old(nodes), d1, nodes, disk, nodes, inum);
        KeptTwice(g, old(disk), d1, disk);
      }
    }

    /** The loop of fs1_writei. */
    method WriteChunks(src: seq<Byte>, off: nat) returns (r: Outcome)
      requires Owned() && off <= size && off + |src| <= MAXFILE * BSIZE
      modifies this`disk, this`issued, this`addrs, this`nodes
      ensures r.Done? <==> CanMap(g, old(disk), old(Me()), off / BSIZE, BlocksEnd(off, |src|))
      ensures r.Done? ==> Owned() && Written(disk, Me(), Bytes(old(disk), old(Me())), off, src)
      ensures r.Done? ==> OthersKept(old(disk), old(nodes), disk, nodes, inum) && InodesKept(g, old(disk), disk)
      ensures r.Done? ==> Counted(g, old(disk), old(Me()), disk, Me(), off / BSIZE, BlocksEnd(off, |src|))
      ensures r.Done? ==> BlocksEnd(off, |src|) <= MAXFILE
      ensures r.Done? ==> Extends(old(issued), issued, Reach(g, disk, Me(), off / BSIZE, BlocksEnd(off, |src|)))
    {
      hide Marked, Unique, MetaInUse, Grown, InodesKept, Written, OthersKept, HasBlock, HoleFree, Spared, Logged,
           FreeSet, Counted, BmapDone, BmapCost, Needed, Ref, ChunkLength, OnBlock, Extends, Reach, GeoOk, CanMap;
      ghost var c, lo, hi := Bytes(disk, Me()), off / BSIZE, BlocksEnd(off, |src|);
      LastBlock(off, |src|);
      NoneExtends(issued, Reach(g, disk, Me(), lo, lo));
      FirstChunk(off, |src|);
      WrittenStart(disk, Me(), off);
      NoChange(g, disk, nodes, inum);
      GrownKeepsOthers(disk, nodes, disk, nodes, inum);
      CountedStart(g, disk, Me(), lo);
      var tot := 0;
      r := Done;
      assert src[..0] == [];
      while tot < |src|
        invariant 0 <= tot <= |src| && r.Done? && Owned() && size == old(size) && OnBlock(off, tot, |src|)
        invariant Written(disk, Me(), c, off, src[..tot])
        invariant OthersKept(old(disk), old(nodes), disk, nodes, inum) && InodesKept(g, old(disk), disk)
        invariant Counted(g, old(disk), old(Me()), disk, Me(), lo, BlocksEnd(off, tot))
                    && BlocksEnd(off, tot) <= MAXFILE
        invariant Extends(old(issued), issued, Reach(g, disk, Me(), lo, BlocksEnd(off, tot)))
        decreases |src| - tot
      {
        ghost var d1, n1, cur, us := disk, nodes, BlocksEnd(off, tot), issued;
        CountedRange(g, old(disk), old(Me()), disk, Me(), lo, cur);
        NextChunk(off, tot, |src|);
        var m;
        r, m := WriteChunk(src, off, tot, c);
        if r.Panic? {
          CannotMap(g, old(disk), old(Me()), d1, n1[inum], lo, cur, hi);
          return;
        }
        CountedNext(g, old(disk), old(Me()), d1, n1[inum], disk, Me(), lo, cur);
        ReachGrows(g, old(disk), old(Me()), d1, n1[inum], disk, Me(), lo, cur);
        ExtendsTwice(old(issued), us, issued, Reach(g, d1, n1[inum], lo, cur), Reach(g, disk, Me(), cur, cur + 1),
                     Reach(g, disk, Me(), lo, cur + 1));
        OthersTwice(old(disk), old(nodes), d1, n1, disk, nodes, inum);
        KeptTwice(g, old(disk), d1, disk);
        tot := tot + m;
      }
      assert src[..tot] == src;
      CouldMap(g, old(disk), old(Me()), disk, Me(), lo, hi);
    }

    /**
     fs1_writei: n is the return value.  A refused write changes nothing.  Any other one is
     completed exactly when there are enough free blocks for the blocks it has to add; then
     it has replaced the bytes at off, extended the file if need be, and kept every other
     file.  The inode reaches the disk only when the file grows, so that otherwise the copy on
     disk is right exactly if every block of the range had an address in it before.
     */
    method Writei(src: seq<Byte>, off: nat) returns (r: Outcome, n: int)
      requires Owned() && off < 0x1_0000_0000 && |src| < 0x1_0000_0000
      requires forall j: nat {:trigger Stored(g, disk, nodes, j)} :: j < |nodes| && j != inum ==>
                 Stored(g, disk, nodes, j)
      modifies this`disk, this`issued, this`addrs, this`nodes, this`size
      ensures off > old(size) || off + |src| > MAXFILE * BSIZE <==> r.Done? && n == -1
      ensures r.Done? && n == -1 ==> disk == old(disk) && Me() == old(Me()) && nodes == old(nodes) && Owned()
      ensures off <= old(size) && off + |src| <= MAXFILE * BSIZE ==>
                (r.Done? <==> CanMap(g, old(disk), old(Me()), off / BSIZE, BlocksEnd(off, |src|)))
      ensures r.Done? && n != -1 ==>
                && n == |src| && Owned() && off <= |Bytes(old(disk), old(Me()))|
                && Bytes(disk, Me()) == Spliced(Bytes(old(disk), old(Me())), off, src)
                && OthersKept(old(disk), old(nodes), disk, nodes, inum)
                && |FreeSet(g, disk)| + Needed(old(disk), old(Me()), off / BSIZE, BlocksEnd(off, |src|)) ==
                     |FreeSet(g, old(disk))|
                && (old(HoleFree(disk, Me())) ==> HoleFree(disk, Me()))
                && (Needed(old(disk), old(Me()), off / BSIZE, BlocksEnd(off, |src|)) == 0 ==> addrs == old(addrs))
                && (addrs == old(addrs) <==> Addressed(old(Me()), off / BSIZE, BlocksEnd(off, |src|)))
                && Counted(g, old(disk), old(Me()), disk, Me(), off / BSIZE, BlocksEnd(off, |src|))
                && size == if off + |src| > old(size) then off + |src| else old(size) as int
      ensures r.Done? && n == -1 ==> issued == old(issued)
      ensures r.Done? && n != -1 ==>
                && BlocksEnd(off, |src|) <= MAXFILE
                && Extends(old(issued), issued,
                     Reach(g, disk, Me(), off / BSIZE, BlocksEnd(off, |src|)) + {IBlock(inum)})
      ensures r.Done? && n != -1 ==>
                && (forall j: nat {:trigger Stored(g, disk, nodes, j)} :: j < |nodes| && j != inum ==>
                     Stored(g, disk, nodes, j))
                && (off + |src| > old(size) ==> Stored(g, disk, nodes, inum))
                && (off + |src| <= old(size) && Stored(g, old(disk), old(nodes), inum) ==>
                      (Stored(g, disk, nodes, inum) <==> Addressed(old(Me()), off / BSIZE, BlocksEnd(off, |src|))))
    {
      hide Marked, Unique, MetaInUse, Grown, InodesKept, Written, OthersKept, HasBlock, HoleFree, Stored, SameRefs,
           SameData, Spared, Logged, FreeSet, Counted, Needed, CanMap, BitsFreed, Extends, Reach, BlocksEnd, GeoOk,
           Addressed;
      if off > size || (off + |src|) % 0x1_0000_0000 < off {
        return Done, -1;
      }
      if off + |src| > MAXFILE * BSIZE {
        return Done, -1;
      }
      ghost var c, x0, lo, hi := Bytes(disk, Me()), Me(), off / BSIZE, BlocksEnd(off, |src|);
      r := WriteChunks(src, off);
      if r.Panic? {
        return r, 0;
      }
      ExtendsMore(old(issued), issued, Reach(g, disk, Me(), lo, hi), Reach(g, disk, Me(), lo, hi) + {IBlock(inum)});
      StoredOthers(g, old(disk), old(nodes), disk, nodes, inum);
      StoredWhenSame(g, old(disk), old(nodes), disk, nodes, inum);
      if |src| > 0 && off + |src| > size {
        ghost var d1, n1, us := disk, nodes, issued;
        size := off + |src|;
        nodes := nodes[inum := Me()];
        ResizeKeeps(g, disk, n1, inum, size);
        SparedResized(g, disk, n1, inum, size, reserved);
        OthersTwice(old(disk), old(nodes), d1, n1, d1, nodes, inum);
        CountedResized(g, old(disk), x0, d1, n1[inum], nodes[inum], lo, hi);
        Iupdate();
        SameGrown(d1, disk, nodes, inum);
        GrownKeepsOthers(d1, nodes, disk, nodes, inum);
        OthersTwice(old(disk), old(nodes), d1, nodes, disk, nodes, inum);
        WrittenResized(d1, n1[inum], nodes[inum], c, off, src);
        WrittenGrown(d1, nodes, disk, nodes, inum, c, off, src);
        CountedUpdated(g, old(disk), x0, d1, disk, nodes, inum, lo, hi);
        UpdateReach(g, d1, n1, disk, nodes, inum, lo, hi, old(issued), us, issued);
      }
      WrittenBytes(disk, Me(), c, off, src);
      CountedFacts(g, old(disk), x0, disk, nodes, inum, off, |src|);
      return Done, |src|;
    }

    /** fs1_bfree */
    method Bfree(b: nat) returns (r: Outcome)
      requires GeoOk(g) && b < g.size && BBlock(g, b) in disk && BBlock(g, b) !in reserved && Logged()
      modifies this`disk, this`issued
      ensures r.Panic? <==> !InUse(g, old(disk), b)
      ensures Logged() && (r.Done? ==> disk == Mark(g, old(disk), b, false))
      ensures r.Done? ==> Extends(old(issued), issued, BitmapBlocks(g))
    {
      hide Logged, BitmapBlocks;
      BitmapMember(g, b);
      var bp := disk[BBlock(g, b)];
      if !GetBit(bp, b % BPB) {
        return Panic;
      }
      Put(BBlock(g, b), SetBit(bp, b % BPB, false));
      return Done;
    }

    /** The entries of the indirect block a, which this inode no longer refers to. */
    method FreeEntries(a: Block, ghost d0: Disk) returns (r: Outcome)
      requires disk == d0 && Consistent(g, disk, nodes) && Releasable(g, disk, nodes, a)
      requires Spared(g, disk, nodes, reserved) && Logged()
      modifies this`disk, this`issued
      ensures r.Done? && Consistent(g, disk, nodes) && SameRefs(d0, disk, nodes) && SameData(d0, disk, nodes)
      ensures Logged() && InodesKept(g, d0, disk) && BitsFreed(g, d0, disk, NonZero(Entries(a)))
      ensures Extends(old(issued), issued, BitmapBlocks(g))
    {
      hide Marked, Unique, MetaInUse, InodesKept, SetBit, GetBit, GetWord, BitsFreed, Unowned, SameRefs, SameData,
           Entries, InUse, Releasable, Spared, Logged, Extends, BitmapBlocks;
      ghost var es := Entries(a);
      NoneExtends(issued, BitmapBlocks(g));
      EntriesFreeStart(g, disk, nodes, a);
      r := Done;
      for j := 0 to NINDIRECT
        invariant r.Done? && Consistent(g, disk, nodes) && SameRefs(d0, disk, nodes) && SameData(d0, disk, nodes)
        invariant Logged() && InodesKept(g, d0, disk) && Extends(old(issued), issued, BitmapBlocks(g))
        invariant |es| == NINDIRECT && BitsFreed(g, d0, disk, NonZero(es[..j]))
      {
        EntryAt(a, j);
        NonZeroNext(es, j);
        if GetWord(a, j) != 0 {
          ghost var d1, us := disk, issued;
          EntryFree(g, d0, disk, nodes, a, j);
          BitmapApart(g, d0, nodes, reserved, GetWord(a, j));
          r := Bfree(GetWord(a, j));
          ExtendsTwice(old(issued), us, issued, BitmapBlocks(g), BitmapBlocks(g), BitmapBlocks(g));
          KeptTwice(g, d0, d1, disk);
          FreedTwice(g, d0, d1, disk, NonZero(es[..j]), {GetWord(a, j)});
        }
      }
      assert es[..NINDIRECT] == es;
    }

    /** The second half of fs1_itrunc: the entries, then the indirect block itself. */
    method FreeIndirect() returns (r: Outcome)
      requires Owned() && addrs[NDIRECT] != 0 && addrs[NDIRECT] in disk
      modifies this`disk, this`issued, this`addrs, this`nodes
      ensures r.Done? && Owned() && addrs == old(addrs)[NDIRECT := 0]
      ensures OthersKept(old(disk), old(nodes), disk, nodes, inum) && InodesKept(g, old(disk), disk)
      ensures BitsFreed(g, old(disk), disk, NonZero(Entries(old(disk)[old(addrs)[NDIRECT]])) + {old(addrs)[NDIRECT]})
      ensures Extends(old(issued), issued, BitmapBlocks(g))
    {
      hide Marked, Unique, MetaInUse, InodesKept, OthersKept, SetBit, GetBit, GetWord, BitsFreed, Unowned, SameRefs,
           SameData, Entries, InUse, Releasable, NonZero, Ref, Spared, Logged, Extends, BitmapBlocks;
      ghost var d0, n0 := disk, nodes;
      var ind := addrs[NDIRECT];
      var a := disk[ind];
      IndirectReleasable(g, disk, nodes, inum);
      nodes := SetAddr(nodes, inum, NDIRECT, 0);
      SparedDetach(g, d0, n0, inum, NDIRECT, reserved);
      SparedIndirect(g, d0, n0, inum, reserved);
      BitmapApart(g, d0, nodes, reserved, ind);
      r := FreeEntries(a, d0);
      ghost var d1, us := disk, issued;
      IndirectFree(g, d0, d1, n0, nodes, inum, a);
      r := Bfree(ind);
      ExtendsTwice(old(issued), us, issued, BitmapBlocks(g), BitmapBlocks(g), BitmapBlocks(g));
      addrs := addrs[NDIRECT := 0];
      KeptTwice(g, d0, d1, disk);
      FreedTwice(g, d0, d1, disk, NonZero(Entries(a)), {ind});
      MarkKeeps(g, d1, nodes, ind, false);
      RefsTwice(d0, d1, disk, nodes);
      SparedFreed(g, d0, disk, nodes, reserved, NonZero(Entries(a)) + {ind});
    }

    /**
     fs1_itrunc: the file becomes empty, exactly the blocks it referred to are marked
     free, and "freeing free block" is not reached.
     */
    method Itrunc() returns (r: Outcome)
      requires Owned()
      requires forall j: nat {:trigger Stored(g, disk, nodes, j)} :: j < |nodes| && j != inum ==>
                 Stored(g, disk, nodes, j)
      modifies this`disk, this`issued, this`addrs, this`nodes, this`size
      ensures r.Done? && Owned() && HoleFree(disk, Me()) && Bytes(disk, Me()) == []
      ensures forall s: nat :: s < SLOTS ==> Ref(disk, Me(), s) == 0
      ensures BitsFreed(g, old(disk), disk, BlocksOf(old(disk), old(Me())))
      ensures OthersKept(old(disk), old(nodes), disk, nodes, inum)
      ensures forall j: nat {:trigger Stored(g, disk, nodes, j)} :: j < |nodes| ==> Stored(g, disk, nodes, j)
      ensures Extends(old(issued), issued, BitmapBlocks(g) + {IBlock(inum)})
    {
      hide Marked, Unique, MetaInUse, InodesKept, OthersKept, GetWord, BitsFreed, SameRefs, SameData, Entries, InUse,
           NonZero, Stored, IndirectKept, Spared, Logged, Extends, BitmapBlocks;
      ghost var d0, x0 := disk, Me();
      r := FreeDirect();
      ghost var d1, x1, n1, us := disk, Me(), nodes, issued;
      RefsInDisk(g, disk, nodes, inum);
      ghost var freed := NonZero(x0.addrs[..NDIRECT]);
      if addrs[NDIRECT] != 0 {
        ghost var more := NonZero(Entries(disk[addrs[NDIRECT]])) + {addrs[NDIRECT]};
        r := FreeIndirect();
        ExtendsTwice(old(issued), us, issued, BitmapBlocks(g), BitmapBlocks(g), BitmapBlocks(g));
        OthersTwice(d0, old(nodes), d1, n1, disk, nodes, inum);
        KeptTwice(g, d0, d1, disk);
        FreedTwice(g, d0, d1, disk, freed, more);
        freed := freed + more;
      }
      AllBlocks(d0, x0, d1, x1);
      assert freed == BlocksOf(d0, x0);
      StoredOthers(g, d0, old(nodes), disk, nodes, inum);
      ghost var d2, n2 := disk, nodes;
      size := 0;
      nodes := nodes[inum := Me()];
      ResizeKeeps(g, disk, n2, inum, 0);
      SparedResized(g, disk, n2, inum, 0, reserved);
      OthersTwice(d0, old(nodes), d2, n2, d2, nodes, inum);
      us := issued;
      Iupdate();
      ExtendsTwice(old(issued), us, issued, BitmapBlocks(g), {IBlock(inum)}, BitmapBlocks(g) + {IBlock(inum)});
      SameGrown(d2, disk, nodes, inum);
      GrownKeepsOthers(d2, nodes, disk, nodes, inum);
      OthersTwice(d0, old(nodes), d2, nodes, disk, nodes, inum);
      FreedTwice(g, d0, d2, disk, freed, {});
      assert freed + {} == freed;
    }

    /** fs1_bfree(addrs[s]); addrs[s] = 0 */
    method FreeAddr(s: nat) returns (r: Outcome)
      requires Owned() && s < NDIRECT && addrs[s] != 0
      modifies this`disk, this`issued, this`addrs, this`nodes
      ensures r.Done? && Owned() && addrs == old(addrs)[s := 0]
      ensures OthersKept(old(disk), old(nodes), disk, nodes, inum) && InodesKept(g, old(disk), disk)
      ensures IndirectKept(old(disk), old(Me()), disk, Me())
      ensures BitsFreed(g, old(disk), disk, {old(addrs)[s]})
      ensures Extends(old(issued), issued, BitmapBlocks(g))
    {
      hide Marked, Unique, MetaInUse, InodesKept, OthersKept, SetBit, GetBit, GetWord, IndirectKept, BitsFreed, Unowned,
           Spared, Logged, SameRefs, Extends, BitmapBlocks;
      ghost var d0, n0 := disk, nodes;
      var b := addrs[s];
      SlotFacts(g, disk, nodes, inum, s);
      DetachKeeps(g, disk, nodes, inum, s);
      nodes := SetAddr(nodes, inum, s, 0);
      FreeFacts(g, disk, n0, nodes, inum, b, s);
      SparedDetach(g, d0, n0, inum, s, reserved);
      SparedSlot(g, d0, n0, inum, s, reserved);
      BitmapApart(g, d0, nodes, reserved, b);
      MarkKeeps(g, d0, nodes, b, false);
      r := Bfree(b);
      addrs := addrs[s := 0];
      FreedRefs(g, d0, n0, nodes, inum, b, s);
      SparedFreed(g, d0, disk, nodes, reserved, {b});
    }

    /** The first loop of fs1_itrunc. */
    method FreeDirect() returns (r: Outcome)
      requires Owned()
      modifies this`disk, this`issued, this`addrs, this`nodes
      ensures r.Done? && Owned() && (forall s :: 0 <= s < NDIRECT ==> addrs[s] == 0)
                && addrs[NDIRECT] == old(addrs)[NDIRECT]
      ensures OthersKept(old(disk), old(nodes), disk, nodes, inum) && InodesKept(g, old(disk), disk)
      ensures IndirectKept(old(disk), old(Me()), disk, Me())
      ensures BitsFreed(g, old(disk), disk, NonZero(old(addrs)[..NDIRECT]))
      ensures Extends(old(issued), issued, BitmapBlocks(g))
    {
      hide Marked, Unique, MetaInUse, InodesKept, OthersKept, IndirectKept, BitsFreed, Spared, Logged, Extends,
           BitmapBlocks;
      NoneExtends(issued, BitmapBlocks(g));
      NoChange(g, disk, nodes, inum);
      GrownKeepsOthers(disk, nodes, disk, nodes, inum);
      NoneFreed(g, disk, Me());
      r := Done;
      assert NonZero(addrs[..0]) == {};
      for i := 0 to NDIRECT
        invariant r.Done? && Owned() && (forall s :: 0 <= s < i ==> addrs[s] == 0)
                    && (forall s :: i <= s <= NDIRECT ==> addrs[s] == old(addrs)[s])
        invariant OthersKept(old(disk), old(nodes), disk, nodes, inum) && InodesKept(g, old(disk), disk)
        invariant Extends(old(issued), issued, BitmapBlocks(g))
        invariant IndirectKept(old(disk), old(Me()), disk, Me())
        invariant BitsFreed(g, old(disk), disk, NonZero(old(addrs)[..i]))
      {
        ghost var d1, n1, us := disk, nodes, issued;
        NonZeroNext(old(addrs), i);
        if addrs[i] != 0 {
          r := FreeAddr(i);
          ExtendsTwice(old(issued), us, issued, BitmapBlocks(g), BitmapBlocks(g), BitmapBlocks(g));
          OthersTwice(old(disk), old(nodes), d1, n1, disk, nodes, inum);
          KeptTwice(g, old(disk), d1, disk);
          IndirectTwice(old(disk), old(Me()), d1, n1[inum], disk, Me());
          FreedTwice(g, old(disk), d1, disk, NonZero(old(addrs)[..i]), {old(addrs)[i]});
        }
      }
    }
  }

  lemma OneReach(g: Geo, d: Disk, x: Inode, bn: nat)
    requires GeoOk(g) && Shaped(x) && bn < MAXFILE
    ensures Reach(g, d, x, bn, bn + 1) == BitmapBlocks(g) + Pointer(x) + {Ref(d, x, SlotOf(bn)) as nat}
  {
    hide Ref, BitmapBlocks;
    assert DataBlocks(d, x, bn, bn) == {};
  }

  /** One more update, of the data block itself. */
  lemma ChunkReach(g: Geo, d: Disk, d': Disk, nodes: seq<Inode>, i: nat, bn: nat, u0: seq<Update>, u1: seq<Update>,
                   b: Block)
    requires GeoOk(g) && AllShaped(nodes) && i < |nodes| && bn < MAXFILE && SameRefs(d, d', nodes)
    requires Extends(u0, u1, Reach(g, d, nodes[i], bn, bn + 1))
    ensures Extends(u0, u1 + [Update(Ref(d, nodes[i], SlotOf(bn)), b)], Reach(g, d', nodes[i], bn, bn + 1))
  {
    hide Ref, BitmapBlocks;
    OneReach(g, d, nodes[i], bn);
    OneReach(g, d', nodes[i], bn);
    RefSame(d, d', nodes, i, SlotOf(bn));
    var r := Ref(d, nodes[i], SlotOf(bn)) as nat;
    ExtendsTwice(u0, u1, u1 + [Update(r, b)], Reach(g, d, nodes[i], bn, bn + 1), {r},
        Reach(g, d', nodes[i], bn, bn + 1));
  }

  /** The size of the file and the inode on disk play no part in what its blocks reach. */
  lemma UpdateReach(g: Geo, d: Disk, nodes: seq<Inode>, d': Disk, nodes': seq<Inode>, i: nat, lo: nat, hi: nat,
                    u0: seq<Update>, u1: seq<Update>, u2: seq<Update>)
    requires GeoOk(g) && AllShaped(nodes) && AllShaped(nodes') && i < |nodes| == |nodes'| && hi <= MAXFILE
    requires nodes'[i].addrs == nodes[i].addrs && SameRefs(d, d', nodes')
    requires Extends(u0, u1, Reach(g, d, nodes[i], lo, hi) + {IBlock(i)}) && Extends(u1, u2, {IBlock(i)})
    ensures Extends(u0, u2, Reach(g, d', nodes'[i], lo, hi) + {IBlock(i)})
  {
    hide Reach, Extends;
    forall s: nat | s < SLOTS
      ensures Ref(d', nodes'[i], s) == Ref(d, nodes[i], s)
    {
      RefSame(d, d', nodes', i, s);
      assert Ref(d, nodes'[i], s) == Ref(d, nodes[i], s);
    }
    ReachSame(g, d, nodes[i], d', nodes'[i], lo, hi);
    ExtendsTwice(u0, u1, u2, Reach(g, d, nodes[i], lo, hi) + {IBlock(i)}, {IBlock(i)},
                 Reach(g, d', nodes'[i], lo, hi) + {IBlock(i)});
  }

  /** No update, or those of taking a direct block. */
  lemma BmapReach(g: Geo, d: Disk, x: Inode, bn: nat, us: seq<Update>, us': seq<Update>)
    requires GeoOk(g) && Shaped(x) && bn < MAXFILE
    requires us' == us || Extends(us, us', BitmapBlocks(g) + {Ref(d, x, SlotOf(bn)) as nat})
    ensures Extends(us, us', Reach(g, d, x, bn, bn + 1))
  {
    hide Ref, BitmapBlocks;
    OneReach(g, d, x, bn);
  }

  /** The updates of taking an indirect block, if there was none, and an entry. */
  lemma EntryReach(g: Geo, d: Disk, x: Inode, bn: nat, u0: seq<Update>, u1: seq<Update>, u2: seq<Update>)
    requires GeoOk(g) && Shaped(x) && bn < MAXFILE && x.addrs[NDIRECT] != 0
    requires u1 == u0 || Extends(u0, u1, BitmapBlocks(g) + {x.addrs[NDIRECT] as nat})
    requires Extends(u1, u2, BitmapBlocks(g) + {Ref(d, x, SlotOf(bn)) as nat, x.addrs[NDIRECT] as nat})
    ensures Extends(u0, u2, Reach(g, d, x, bn, bn + 1))
  {
    hide Ref, BitmapBlocks;
    OneReach(g, d, x, bn);
    assert Extends(u0, u1, BitmapBlocks(g) + {x.addrs[NDIRECT] as nat});
    ExtendsTwice(u0, u1, u2, BitmapBlocks(g) + {x.addrs[NDIRECT] as nat},
                 BitmapBlocks(g) + {Ref(d, x, SlotOf(bn)) as nat, x.addrs[NDIRECT] as nat}, Reach(g, d, x, bn, bn + 1));
  }

  /** Allocating a block disturbs no inode block, no reference and no data. */
  lemma TakenInodes(g: Geo, d: Disk, nodes: seq<Inode>, b: nat)
    requires Consistent(g, d, nodes) && b < g.size && BBlock(g, b) in d && !InUse(g, d, b)
    ensures InodesKept(g, d, Taken(g, d, b)) && b in Taken(g, d, b) && Taken(g, d, b)[b] == ZeroBlock()
  {
    hide SetBit, GetBit;
    TakenKeeps(g, d, nodes, b);
    forall j: nat | j < g.ninodes
      ensures SameBlock(d, Taken(g, d, b), IBlock(j))
    {
      MetaBlocks(g, j, b);
    }
  }

  lemma KeptTwice(g: Geo, d0: Disk, d1: Disk, d2: Disk)
    requires InodesKept(g, d0, d1) && InodesKept(g, d1, d2)
    ensures InodesKept(g, d0, d2)
  {
  }

  lemma AttachedGrows(d: Disk, nodes: seq<Inode>, d1: Disk, d': Disk, nodes': seq<Inode>, i: nat, s: nat, b: nat)
    requires AllShaped(nodes) && AllShaped(nodes') && |nodes'| == |nodes| && i < |nodes| && s < SLOTS
    requires SameRefs(d, d1, nodes) && SameData(d, d1, nodes) && Ref(d, nodes[i], s) == 0
    requires Attached(d1, nodes, d', nodes', i, s, b) && SameData(d1, d', nodes)
    requires forall j :: 0 <= j < |nodes| && j != i ==> nodes'[j] == nodes[j]
    requires s != NDIRECT ==> ZeroAt(d', b)
    ensures Grown(d, nodes, d', nodes', i) && Attached(d, nodes, d', nodes', i, s, b)
  {
    hide GetWord;
    forall j: nat, t: nat | j < |nodes| && t < SLOTS && t != NDIRECT && Ref(d, nodes[j], t) != 0
      ensures SameBlock(d, d', Ref(d, nodes[j], t))
    {
      assert Ref(d1, nodes[j], t) == Ref(d, nodes[j], t);
    }
    forall j: nat, t: nat | j < |nodes| && t < SLOTS
      ensures Ref(d', nodes'[j], t) == if j == i && t == s then b else Ref(d, nodes[j], t)
    {
      assert Ref(d1, nodes[j], t) == Ref(d, nodes[j], t);
    }
  }

  lemma AttachedSlot(d: Disk, nodes: seq<Inode>, d': Disk, nodes': seq<Inode>, i: nat, s: nat, b: nat, t: nat)
    requires AllShaped(nodes) && AllShaped(nodes') && |nodes'| == |nodes| && i < |nodes| && t < SLOTS
    requires Attached(d, nodes, d', nodes', i, s, b)
    ensures Ref(d', nodes'[i], t) == if t == s then b else Ref(d, nodes[i], t)
  {
  }

  /** Taking block b and entering it in the indirect block. */
  lemma EntryTaken(g: Geo, d: Disk, nodes: seq<Inode>, i: nat, k: nat, b: Word, rs: set<nat>)
    requires Consistent(g, d, nodes) && Spared(g, d, nodes, rs) && i < |nodes| && k < NINDIRECT
    requires nodes[i].addrs[NDIRECT] != 0 && nodes[i].addrs[NDIRECT] in d && Ref(d, nodes[i], NDIRECT + 1 + k) == 0
    requires b < g.size && BBlock(g, b) in d && !InUse(g, d, b)
    ensures var ind, d1 := nodes[i].addrs[NDIRECT], Taken(g, d, b);
            var d2 := d1[ind := PutWord(d[ind], k, b)];
            && Consistent(g, d2, nodes) && Spared(g, d2, nodes, rs) && ind as nat !in rs
            && SameRefs(d, d1, nodes) && SameData(d, d1, nodes) && InodesKept(g, d, d1) && InodesKept(g, d1, d2)
            && Attached(d1, nodes, d2, nodes, i, NDIRECT + 1 + k, b) && SameData(d1, d2, nodes)
            && b != 0 && ZeroAt(d2, b) && b in d2 && Ref(d2, nodes[i], NDIRECT + 1 + k) == b
            && b as nat in FreeSet(g, d) && FreeSet(g, d2) == FreeSet(g, d) - {b as nat}
  {
    hide Marked, Unique, SetBit, GetBit, GetWord, PutWord, SameData, SameRefs, MetaInUse, InodesKept, Unowned, Spared,
         Attached, InUse;
    var ind, d1 := nodes[i].addrs[NDIRECT], Taken(g, d, b);
    TakenKeeps(g, d, nodes, b);
    TakenInodes(g, d, nodes, b);
    TakenFree(g, d, nodes, b);
    SparedTaken(g, d, nodes, rs, b);
    IndirectOwner(g, d, nodes, i, ind);
    RefSame(d, d1, nodes, i, NDIRECT + 1 + k);
    BlockSame(g, d, nodes, b, ind);
    AttachEntry(g, d1, nodes, i, k, b);
    EntryInodes(g, d1, nodes, ind, PutWord(d[ind], k, b));
    var d2 := d1[ind := PutWord(d[ind], k, b)];
    SameFree(g, d1, d2);
    SparedSlot(g, d, nodes, i, NDIRECT, rs);
    SparedAttach(g, d1, nodes, d2, nodes, i, NDIRECT + 1 + k, b, rs);
    AttachedSlot(d1, nodes, d2, nodes, i, NDIRECT + 1 + k, b, NDIRECT + 1 + k);
  }

  lemma SelfData(g: Geo, d: Disk, nodes: seq<Inode>)
    requires Consistent(g, d, nodes)
    ensures SameData(d, d, nodes)
  {
  }

  lemma NoChange(g: Geo, d: Disk, nodes: seq<Inode>, i: nat)
    requires Consistent(g, d, nodes) && i < |nodes|
    ensures Grown(d, nodes, d, nodes, i) && InodesKept(g, d, d)
  {
    forall j: nat | j < g.ninodes
      ensures SameBlock(d, d, IBlock(j))
    {
      MetaBlocks(g, j, 0);
    }
  }

  lemma RefsInDisk(g: Geo, d: Disk, nodes: seq<Inode>, i: nat)
    requires Consistent(g, d, nodes) && i < |nodes|
    ensures forall s: nat {:trigger Ref(d, nodes[i], s)} :: s < SLOTS && Ref(d, nodes[i], s) != 0 ==>
              Ref(d, nodes[i], s) in d
    ensures nodes[i].addrs[NDIRECT] != 0 ==> nodes[i].addrs[NDIRECT] in d
    ensures forall s :: 0 <= s < NDIRECT && nodes[i].addrs[s] != 0 ==> nodes[i].addrs[s] in d
  {
    assert Ref(d, nodes[i], NDIRECT) == nodes[i].addrs[NDIRECT];
    forall s | 0 <= s < NDIRECT && nodes[i].addrs[s] != 0
      ensures nodes[i].addrs[s] in d
    {
      assert Ref(d, nodes[i], s) == nodes[i].addrs[s];
    }
  }

  lemma RefSame(d: Disk, d': Disk, nodes: seq<Inode>, i: nat, s: nat)
    requires AllShaped(nodes) && SameRefs(d, d', nodes) && i < |nodes| && s < SLOTS
    ensures Ref(d', nodes[i], s) == Ref(d, nodes[i], s)
  {
  }

  lemma BlockSame(g: Geo, d: Disk, nodes: seq<Inode>, b: nat, c: nat)
    requires Consistent(g, d, nodes) && b < g.size && BBlock(g, b) in d && !InUse(g, d, b)
               && FirstData(g) <= c < g.size && InUse(g, d, c)
    ensures c in Taken(g, d, b) && Taken(g, d, b)[c] == d[c]
  {
    BitmapInDisk(g, d, nodes, b);
  }

  lemma EntryInodes(g: Geo, d: Disk, nodes: seq<Inode>, ind: nat, x: Block)
    requires Consistent(g, d, nodes) && FirstData(g) <= ind < g.size
    ensures InodesKept(g, d, d[ind := x])
  {
    forall j: nat | j < g.ninodes
      ensures SameBlock(d, d[ind := x], IBlock(j))
    {
      MetaBlocks(g, j, 0);
    }
  }

  lemma IupdateKeeps(g: Geo, d: Disk, nodes: seq<Inode>, i: nat)
    requires Consistent(g, d, nodes) && i < |nodes|
    ensures IBlock(i) in d
    ensures var d' := d[IBlock(i) := PutInode(d[IBlock(i)], i % IPB, nodes[i])];
            && Consistent(g, d', nodes) && SameRefs(d, d', nodes) && SameData(d, d', nodes)
            && Stored(g, d', nodes, i) && BitsFreed(g, d, d', {})
            && (forall j: nat {:trigger Stored(g, d', nodes, j)} :: j < |nodes| && Stored(g, d, nodes, j) ==>
                 Stored(g, d', nodes, j))
  {
    hide PutInode, GetInode, GetBit, GetWord;
    MetaBlocks(g, i, 0);
    var d' := d[IBlock(i) := PutInode(d[IBlock(i)], i % IPB, nodes[i])];
    RefsKept(g, d, nodes, IBlock(i), d'[IBlock(i)]);
    forall c: nat | c < g.size
      ensures InUse(g, d', c) == InUse(g, d, c)
    {
      MetaBlocks(g, i, c);
    }
    PutInodeGet(d[IBlock(i)], i % IPB, nodes[i], i % IPB);
    forall j: nat | j < |nodes| && j != i && Stored(g, d, nodes, j)
      ensures Stored(g, d', nodes, j)
    {
      if IBlock(j) == IBlock(i) {
        PutInodeGet(d[IBlock(i)], i % IPB, nodes[i], j % IPB);
        assert j == j / IPB * IPB + j % IPB && i == i / IPB * IPB + i % IPB;
      }
    }
  }

  lemma SliceNext(c: seq<Byte>, lo: nat, at: nat, m: nat)
    requires lo <= at && at + m <= |c|
    ensures c[lo..at] + c[at..at + m] == c[lo..at + m]
  {
  }

  lemma SliceOfFile(d: Disk, x: Inode, at: nat, m: nat)
    requires Shaped(x) && HasBlock(d, x, at / BSIZE) && at + m <= x.size && at % BSIZE + m <= BSIZE
    ensures d[Ref(d, x, SlotOf(at / BSIZE))][at % BSIZE..at % BSIZE + m] == Bytes(d, x)[at..at + m]
  {
    var b, c := d[Ref(d, x, SlotOf(at / BSIZE))], Bytes(d, x);
    var u, v := b[at % BSIZE..at % BSIZE + m], c[at..at + m];
    forall k | 0 <= k < m
      ensures u[k] == v[k]
    {
      ChunkIndex(at, at + k);
      assert c[at + k] == ByteAt(d, x, at + k);
    }
  }

  /** The copy on disk is still the old one, so it is right exactly when the inode has not changed. */
  lemma StoredWhenSame(g: Geo, d: Disk, nodes: seq<Inode>, d': Disk, nodes': seq<Inode>, i: nat)
    requires i < |nodes| == |nodes'| == g.ninodes && InodesKept(g, d, d')
    ensures Stored(g, d, nodes, i) ==> (Stored(g, d', nodes', i) <==> nodes'[i] == nodes[i])
  {
    hide GetInode;
    assert SameBlock(d, d', IBlock(i));
  }

  /** The size of an inode plays no part in ownership. */
  lemma ResizeKeeps(g: Geo, d: Disk, nodes: seq<Inode>, i: nat, n: Word)
    requires Consistent(g, d, nodes) && i < |nodes|
    ensures var nodes' := nodes[i := nodes[i].(size := n)];
            Consistent(g, d, nodes') && OthersKept(d, nodes, d, nodes', i)
            && (forall j: nat {:trigger Stored(g, d, nodes', j)} :: j < |nodes| && j != i && Stored(g, d, nodes, j) ==>
                 Stored(g, d, nodes', j))
  {
    var nodes' := nodes[i := nodes[i].(size := n)];
    forall j: nat, t: nat | j < |nodes| && t < SLOTS
      ensures Ref(d, nodes'[j], t) == Ref(d, nodes[j], t)
    {
    }
  }

  lemma SparedResized(g: Geo, d: Disk, nodes: seq<Inode>, i: nat, n: Word, rs: set<nat>)
    requires Consistent(g, d, nodes) && i < |nodes| && Spared(g, d, nodes, rs)
    ensures AllShaped(nodes[i := nodes[i].(size := n)]) && Spared(g, d, nodes[i := nodes[i].(size := n)], rs)
  {
    var nodes' := nodes[i := nodes[i].(size := n)];
    forall j: nat, t: nat | j < |nodes| && t < SLOTS
      ensures Ref(d, nodes'[j], t) as nat !in rs
    {
      assert Ref(d, nodes'[j], t) == Ref(d, nodes[j], t);
    }
  }

  lemma SameGrown(d: Disk, d': Disk, nodes: seq<Inode>, i: nat)
    requires AllShaped(nodes) && i < |nodes| && SameRefs(d, d', nodes) && SameData(d, d', nodes)
    ensures Grown(d, nodes, d', nodes, i)
  {
  }

  lemma WrittenResized(d: Disk, x: Inode, x': Inode, c: seq<Byte>, off: nat, src: seq<Byte>)
    requires Shaped(x) && Shaped(x') && x'.addrs == x.addrs && off <= |c| && Written(d, x, c, off, src)
    ensures Written(d, x', c, off, src)
  {
    forall s: nat | s < SLOTS
      ensures Ref(d, x', s) == Ref(d, x, s)
    {
    }
    forall k: nat | k < Extent(c, off, src)
      ensures Holds(d, x', k, Overwritten(c, off, src, k))
    {
      assert Holds(d, x, k, Overwritten(c, off, src, k));
    }
  }

  lemma CountedResized(g: Geo, d0: Disk, x0: Inode, d: Disk, x: Inode, x': Inode, lo: nat, hi: nat)
    requires Shaped(x0) && Shaped(x) && Shaped(x') && x'.addrs == x.addrs && Counted(g, d0, x0, d, x, lo, hi)
    ensures Counted(g, d0, x0, d, x', lo, hi)
  {
    forall s: nat | s < SLOTS
      ensures Ref(d, x', s) == Ref(d, x, s)
    {
    }
  }

  lemma CountedUpdated(g: Geo, d0: Disk, x0: Inode, d: Disk, d': Disk, nodes: seq<Inode>, i: nat, lo: nat, hi: nat)
    requires Shaped(x0) && AllShaped(nodes) && i < |nodes| && Counted(g, d0, x0, d, nodes[i], lo, hi)
    requires SameRefs(d, d', nodes) && BitsFreed(g, d, d', {})
    ensures Counted(g, d0, x0, d', nodes[i], lo, hi)
  {
    hide Ref, InUse;
    SameFree(g, d, d');
    forall n: nat {:trigger SlotOf(n)} | n < MAXFILE
      ensures Ref(d', nodes[i], SlotOf(n)) == Ref(d, nodes[i], SlotOf(n))
    {
      var s := SlotOf(n);
    }
  }

  lemma CountedRange(g: Geo, d0: Disk, x0: Inode, d: Disk, x: Inode, lo: nat, cur: nat)
    requires Shaped(x0) && Shaped(x) && Counted(g, d0, x0, d, x, lo, cur)
    ensures lo <= cur
  {
  }

  lemma CouldMap(g: Geo, d0: Disk, x0: Inode, d: Disk, x: Inode, lo: nat, hi: nat)
    requires Shaped(x0) && Shaped(x) && Counted(g, d0, x0, d, x, lo, hi)
    ensures CanMap(g, d0, x0, lo, hi)
  {
  }

  lemma CannotMap(g: Geo, d0: Disk, x0: Inode, d: Disk, x: Inode, lo: nat, cur: nat, hi: nat)
    requires Shaped(x0) && Shaped(x) && Counted(g, d0, x0, d, x, lo, cur) && cur < hi
    requires cur >= MAXFILE || |FreeSet(g, d)| < BmapCost(d, x, cur)
    ensures !CanMap(g, d0, x0, lo, hi)
  {
    hide FreeSet, Ref;
    if hi <= MAXFILE {
      CountedShort(g, d0, x0, d, x, lo, cur, hi);
    }
  }

  /** The inode changes exactly when it lacked an address. */
  lemma CountedAddrs(g: Geo, d0: Disk, x0: Inode, d: Disk, x: Inode, lo: nat, hi: nat)
    requires Shaped(x0) && Shaped(x) && Counted(g, d0, x0, d, x, lo, hi)
    ensures x.addrs == x0.addrs <==> Addressed(x0, lo, hi)
  {
    hide FreeSet, Needed, GetWord;
    forall n: nat | n < NDIRECT
      ensures lo <= n < hi ==> x.addrs[n] != 0
      ensures !(lo <= n < hi) || x0.addrs[n] != 0 ==> x.addrs[n] == x0.addrs[n]
    {
      assert SlotOf(n) == n;
    }
  }

  /** What a write leaves behind. */
  lemma CountedFacts(g: Geo, d0: Disk, x0: Inode, d: Disk, nodes: seq<Inode>, i: nat, off: nat, n: nat)
    requires Shaped(x0) && Consistent(g, d, nodes) && i < |nodes| && off <= x0.size && off + n <= MAXFILE * BSIZE
    requires Counted(g, d0, x0, d, nodes[i], off / BSIZE, BlocksEnd(off, n))
    requires nodes[i].size == if n > 0 && off + n > x0.size then off + n else x0.size as int
    ensures |FreeSet(g, d)| + Needed(d0, x0, off / BSIZE, BlocksEnd(off, n)) == |FreeSet(g, d0)|
    ensures HoleFree(d0, x0) ==> HoleFree(d, nodes[i])
    ensures Needed(d0, x0, off / BSIZE, BlocksEnd(off, n)) == 0 ==> nodes[i].addrs == x0.addrs
    ensures nodes[i].addrs == x0.addrs <==> Addressed(x0, off / BSIZE, BlocksEnd(off, n))
  {
    hide HoleFree, Ref, FreeSet, Needed, Addressed;
    CountedAddrs(g, d0, x0, d, nodes[i], off / BSIZE, BlocksEnd(off, n));
    if HoleFree(d0, x0) { StillHoleFree(g, d0, x0, d, nodes, i, off, n); }
    if Needed(d0, x0, off / BSIZE, BlocksEnd(off, n)) == 0 {
      CountedNothing(g, d0, x0, d, nodes[i], off / BSIZE, BlocksEnd(off, n));
    }
  }

  // ---------- One range after another ----------

  lemma {:induction false} MissingSplit(d: Disk, x: Inode, lo: nat, mid: nat, hi: nat)
    requires Shaped(x) && lo <= mid <= hi <= MAXFILE
    ensures Missing(d, x, lo, hi) == Missing(d, x, lo, mid) + Missing(d, x, mid, hi)
    decreases hi
  {
    if mid < hi { MissingSplit(d, x, lo, mid, hi - 1); }
  }

  lemma {:induction false} MissingAgain(g: Geo, d0: Disk, x0: Inode, d: Disk, x: Inode,
                                        lo: nat, cur: nat, from: nat, hi: nat)
    requires Shaped(x0) && Shaped(x) && Counted(g, d0, x0, d, x, lo, cur) && lo <= from <= cur && hi <= MAXFILE
    ensures Missing(d, x, from, hi) == Missing(d0, x0, cur, hi)
    decreases hi
  {
    hide FreeSet, Needed, Ref;
    if from < hi {
      MissingAgain(g, d0, x0, d, x, lo, cur, from, hi - 1);
      var s := SlotOf(hi - 1);
    }
  }

  /** A range that begins inside what has been allocated, or right behind it, needs what is left to allocate. */
  lemma NeededMore(g: Geo, d0: Disk, x0: Inode, d: Disk, x: Inode, lo: nat, cur: nat, from: nat, hi: nat)
    requires Shaped(x0) && Shaped(x) && Counted(g, d0, x0, d, x, lo, cur) && lo <= from <= cur <= hi <= MAXFILE
    ensures Needed(d0, x0, lo, hi) == Needed(d0, x0, lo, cur) + Needed(d, x, from, hi)
    ensures CanMap(g, d0, x0, lo, hi) <==> CanMap(g, d, x, from, hi)
  {
    hide FreeSet, Ref;
    MissingSplit(d0, x0, lo, cur, hi);
    MissingAgain(g, d0, x0, d, x, lo, cur, from, hi);
  }

  lemma CountedMore(g: Geo, d0: Disk, x0: Inode, d1: Disk, x1: Inode, d2: Disk, x2: Inode,
                    lo: nat, cur: nat, from: nat, hi: nat)
    requires Shaped(x0) && Shaped(x1) && Shaped(x2) && lo <= from <= cur <= hi <= MAXFILE
    requires Counted(g, d0, x0, d1, x1, lo, cur) && Counted(g, d1, x1, d2, x2, from, hi)
    ensures Counted(g, d0, x0, d2, x2, lo, hi)
  {
    hide FreeSet, Ref, Needed;
    NeededMore(g, d0, x0, d1, x1, lo, cur, from, hi);
    forall n: nat {:trigger SlotOf(n)} | n < MAXFILE
      ensures !(lo <= n < hi) || Ref(d0, x0, SlotOf(n)) != 0 ==> Ref(d2, x2, SlotOf(n)) == Ref(d0, x0, SlotOf(n))
      ensures lo <= n < hi ==> Ref(d2, x2, SlotOf(n)) != 0
    {
      var s := SlotOf(n);
    }
  }

  /** Part of a range can be mapped if all of it can. */
  lemma CanMapLess(g: Geo, d: Disk, x: Inode, lo: nat, mid: nat, hi: nat)
    requires Shaped(x) && lo <= mid <= hi <= MAXFILE && CanMap(g, d, x, lo, hi)
    ensures CanMap(g, d, x, lo, mid)
  {
    hide FreeSet, Ref;
    MissingSplit(d, x, lo, mid, hi);
  }

  /** A file without holes lacks no address below its size. */
  lemma HoleFreeAddressed(d: Disk, x: Inode, off: nat, n: nat)
    requires Shaped(x) && HoleFree(d, x) && off + n <= x.size
    ensures Addressed(x, off / BSIZE, BlocksEnd(off, n))
  {
    hide GetWord;
    forall k: nat | off / BSIZE <= k < BlocksEnd(off, n)
      ensures HasBlock(d, x, k) && (k < NDIRECT ==> x.addrs[k] != 0)
    {
      assert k * BSIZE < x.size;
      assert HasBlock(d, x, k);
    }
    if off / BSIZE < BlocksEnd(off, n) { assert HasBlock(d, x, BlocksEnd(off, n) - 1); }
  }

  /** Writing a and then b behind it is writing both. */
  lemma SplicedTwice(c: seq<Byte>, off: nat, a: seq<Byte>, b: seq<Byte>)
    requires off <= |c|
    ensures off + |a| <= |Spliced(c, off, a)|
    ensures Spliced(Spliced(c, off, a), off + |a|, b) == Spliced(c, off, a + b)
  {
  }

  // ---------- Truncation ----------

  lemma RefsTwice(d0: Disk, d1: Disk, d2: Disk, nodes: seq<Inode>)
    requires AllShaped(nodes) && SameRefs(d0, d1, nodes) && SameRefs(d1, d2, nodes)
    ensures SameRefs(d0, d2, nodes)
  {
    hide Ref;
    forall i: nat, s: nat | i < |nodes| && s < SLOTS
      ensures Ref(d2, nodes[i], s) == Ref(d0, nodes[i], s)
    {
      assert Ref(d1, nodes[i], s) == Ref(d0, nodes[i], s);
    }
  }

  lemma SparedSlot(g: Geo, d: Disk, nodes: seq<Inode>, i: nat, s: nat, rs: set<nat>)
    requires GeoOk(g) && AllShaped(nodes) && i < |nodes| && s < SLOTS && Spared(g, d, nodes, rs)
    ensures Ref(d, nodes[i], s) as nat !in rs
  {
  }

  lemma BitmapApart(g: Geo, d: Disk, nodes: seq<Inode>, rs: set<nat>, b: nat)
    requires Consistent(g, d, nodes) && b < g.size && Spared(g, d, nodes, rs)
    ensures BBlock(g, b) !in rs
  {
    hide Spared, Marked, Unique, MetaInUse;
    BitmapInDisk(g, d, nodes, b);
    SparedApart(g, d, nodes, rs, BBlock(g, b));
  }

  lemma SparedDetach(g: Geo, d: Disk, nodes: seq<Inode>, i: nat, s: nat, rs: set<nat>)
    requires Consistent(g, d, nodes) && i < |nodes| && s <= NDIRECT && Spared(g, d, nodes, rs)
    ensures AllShaped(SetAddr(nodes, i, s, 0)) && Spared(g, d, SetAddr(nodes, i, s, 0), rs)
  {
    hide GetWord, InUse, Marked, Unique, MetaInUse;
    var nodes' := SetAddr(nodes, i, s, 0);
    DetachKeeps(g, d, nodes, i, s);
    BlockZeroApart(g, d, nodes, rs);
    forall j: nat, t: nat | j < |nodes| && t < SLOTS
      ensures Ref(d, nodes'[j], t) as nat !in rs
    {
      assert Ref(d, nodes'[j], t) == 0 || Ref(d, nodes'[j], t) == Ref(d, nodes[j], t);
    }
  }

  lemma BlockZeroApart(g: Geo, d: Disk, nodes: seq<Inode>, rs: set<nat>)
    requires GeoOk(g) && AllShaped(nodes) && Spared(g, d, nodes, rs)
    ensures 0 !in rs
  {
  }

  /** The indirect block and its entries belong to a file. */
  lemma SparedIndirect(g: Geo, d: Disk, nodes: seq<Inode>, i: nat, rs: set<nat>)
    requires Consistent(g, d, nodes) && i < |nodes| && Spared(g, d, nodes, rs)
    requires nodes[i].addrs[NDIRECT] != 0 && nodes[i].addrs[NDIRECT] in d
    ensures (NonZero(Entries(d[nodes[i].addrs[NDIRECT]])) + {nodes[i].addrs[NDIRECT] as nat}) !! rs
  {
    hide GetWord, Marked, Unique, MetaInUse, Spared;
    var ind := nodes[i].addrs[NDIRECT];
    var es := Entries(d[ind]);
    SparedSlot(g, d, nodes, i, NDIRECT, rs);
    forall k | 0 <= k < |es|
      ensures es[k] as nat !in rs
    {
      EntryAt(d[ind], k);
      SparedSlot(g, d, nodes, i, NDIRECT + 1 + k, rs);
    }
  }

  lemma SparedFreed(g: Geo, d: Disk, d': Disk, nodes: seq<Inode>, rs: set<nat>, freed: set<nat>)
    requires GeoOk(g) && AllShaped(nodes) && Spared(g, d, nodes, rs) && SameRefs(d, d', nodes)
    requires BitsFreed(g, d, d', freed) && freed !! rs
    ensures Spared(g, d', nodes, rs)
  {
    hide Ref, InUse, Spared;
    SparedSame(g, d, d', nodes, rs);
  }

  /** Exactly the given blocks have been marked free. */
  ghost predicate BitsFreed(g: Geo, d: Disk, d': Disk, freed: set<nat>) {
    forall c: nat {:trigger InUse(g, d', c)} :: c < g.size ==> (InUse(g, d', c) <==> InUse(g, d, c) && c !in freed)
  }

  /** The indirect block and its entries stay as they are. */
  ghost predicate IndirectKept(d: Disk, x: Inode, d': Disk, x': Inode)
    requires Shaped(x)
  {
    Shaped(x') && forall t: nat {:trigger Ref(d', x', t)} :: NDIRECT <= t < SLOTS ==> Ref(d', x', t) == Ref(d, x, t)
  }

  ghost function NonZero(a: seq<Word>): set<nat> { set k | 0 <= k < |a| && a[k] != 0 :: a[k] as nat }

  lemma NonZeroNext(a: seq<Word>, i: nat)
    requires i < |a|
    ensures a[i] == 0 ==> NonZero(a[..i + 1]) == NonZero(a[..i])
    ensures a[i] != 0 ==> NonZero(a[..i + 1]) == NonZero(a[..i]) + {a[i] as nat}
  {
    assert a[..i + 1] == a[..i] + [a[i]];
    forall v | v in NonZero(a[..i + 1])
      ensures v in NonZero(a[..i]) || v == a[i]
    {
      var k :| 0 <= k < i + 1 && a[..i + 1][k] != 0 && a[..i + 1][k] == v;
      if k < i { assert a[..i][k] == v; }
    }
    forall v | v in NonZero(a[..i])
      ensures v in NonZero(a[..i + 1])
    {
      var k :| 0 <= k < i && a[..i][k] != 0 && a[..i][k] == v;
      assert a[..i + 1][k] == v;
    }
    assert a[..i + 1][i] == a[i];
  }

  lemma NoneFreed(g: Geo, d: Disk, x: Inode)
    requires Shaped(x)
    ensures BitsFreed(g, d, d, {}) && IndirectKept(d, x, d, x)
  {
  }

  lemma FreedTwice(g: Geo, d0: Disk, d1: Disk, d2: Disk, a: set<nat>, b: set<nat>)
    requires BitsFreed(g, d0, d1, a) && BitsFreed(g, d1, d2, b)
    ensures BitsFreed(g, d0, d2, a + b)
  {
  }

  lemma IndirectTwice(d0: Disk, x0: Inode, d1: Disk, x1: Inode, d2: Disk, x2: Inode)
    requires Shaped(x0) && Shaped(x1) && IndirectKept(d0, x0, d1, x1) && IndirectKept(d1, x1, d2, x2)
    ensures IndirectKept(d0, x0, d2, x2)
  {
    forall t: nat | NDIRECT <= t < SLOTS
      ensures Ref(d2, x2, t) == Ref(d0, x0, t)
    {
      assert Ref(d1, x1, t) == Ref(d0, x0, t);
    }
  }

  lemma SlotFacts(g: Geo, d: Disk, nodes: seq<Inode>, i: nat, s: nat)
    requires Consistent(g, d, nodes) && i < |nodes| && s < SLOTS && Ref(d, nodes[i], s) != 0
    ensures var b := Ref(d, nodes[i], s); FirstData(g) <= b < g.size && InUse(g, d, b) && BBlock(g, b) in d
  {
    BitmapInDisk(g, d, nodes, Ref(d, nodes[i], s));
  }

  /** Freeing a block that has just been detached. */
  lemma FreeFacts(g: Geo, d: Disk, nodes: seq<Inode>, nodes': seq<Inode>, i: nat, b: nat, s: nat)
    requires Consistent(g, d, nodes) && Consistent(g, d, nodes') && i < |nodes| && s <= NDIRECT
               && nodes' == SetAddr(nodes, i, s, 0)
    requires FirstData(g) <= b < g.size && BBlock(g, b) in d && Unowned(d, nodes', b)
    ensures Consistent(g, Mark(g, d, b, false), nodes')
    ensures BitsFreed(g, d, Mark(g, d, b, false), {b}) && InodesKept(g, d, Mark(g, d, b, false))
  {
    hide SetBit, GetBit;
    UnmarkKeeps(g, d, nodes', b);
    MarkInodes(g, d, nodes, b, false);
  }

  lemma MarkInodes(g: Geo, d: Disk, nodes: seq<Inode>, b: nat, v: bool)
    requires Consistent(g, d, nodes) && b < g.size && BBlock(g, b) in d
    ensures InodesKept(g, d, Mark(g, d, b, v))
  {
    hide SetBit;
    forall j: nat | j < g.ninodes
      ensures SameBlock(d, Mark(g, d, b, v), IBlock(j))
    {
      MetaBlocks(g, j, b);
    }
  }

  lemma FreedRefs(g: Geo, d: Disk, nodes: seq<Inode>, nodes': seq<Inode>, i: nat, b: nat, s: nat)
    requires Consistent(g, d, nodes) && i < |nodes| && s <= NDIRECT && nodes' == SetAddr(nodes, i, s, 0)
    requires b < g.size && BBlock(g, b) in d
    ensures OthersKept(d, nodes, Mark(g, d, b, false), nodes', i)
    ensures s < NDIRECT ==> IndirectKept(d, nodes[i], Mark(g, d, b, false), nodes'[i])
  {
    hide SetBit, GetWord;
    MarkKeeps(g, d, nodes, b, false);
    var d' := Mark(g, d, b, false);
    if s < NDIRECT {
      forall t: nat | NDIRECT <= t < SLOTS
        ensures Ref(d', nodes'[i], t) == Ref(d, nodes[i], t)
      {
        assert Ref(d', nodes[i], t) == Ref(d, nodes[i], t);
      }
    }
  }

  function EntryOf(a: Block, k: nat): Word
    requires k < NINDIRECT
  {
    GetWord(a, k)
  }

  function Entries(a: Block): (es: seq<Word>)
    ensures |es| == NINDIRECT
  {
    seq(NINDIRECT, k requires 0 <= k < NINDIRECT => EntryOf(a, k))
  }

  lemma EntryAt(a: Block, k: nat)
    requires k < NINDIRECT
    ensures Entries(a)[k] == GetWord(a, k)
  {
  }

  /** The entries are distinct data blocks in use that nobody refers to any more. */
  ghost predicate Releasable(g: Geo, d: Disk, nodes: seq<Inode>, a: Block)
    requires GeoOk(g) && AllShaped(nodes)
  {
    && (forall k :: 0 <= k < NINDIRECT && GetWord(a, k) != 0 ==>
          FirstData(g) <= GetWord(a, k) < g.size && InUse(g, d, GetWord(a, k)) && Unowned(d, nodes, GetWord(a, k)))
    && (forall k, m :: 0 <= k < m < NINDIRECT && GetWord(a, k) != 0 ==> GetWord(a, k) != GetWord(a, m))
  }

  lemma EntriesFreeStart(g: Geo, d: Disk, nodes: seq<Inode>, a: Block)
    requires Consistent(g, d, nodes)
    ensures SameRefs(d, d, nodes) && SameData(d, d, nodes) && InodesKept(g, d, d)
    ensures BitsFreed(g, d, d, NonZero(Entries(a)[..0]))
  {
    SelfData(g, d, nodes);
    forall j: nat | j < g.ninodes
      ensures SameBlock(d, d, IBlock(j))
    {
      MetaBlocks(g, j, 0);
    }
  }

  /** The next entry can be freed without a panic. */
  lemma EntryFree(g: Geo, d0: Disk, d: Disk, nodes: seq<Inode>, a: Block, j: nat)
    requires Consistent(g, d0, nodes) && Releasable(g, d0, nodes, a) && j < NINDIRECT && GetWord(a, j) != 0
    requires Consistent(g, d, nodes) && SameRefs(d0, d, nodes) && SameData(d0, d, nodes)
               && BitsFreed(g, d0, d, NonZero(Entries(a)[..j]))
    ensures var b := GetWord(a, j);
            && b < g.size && BBlock(g, b) in d && InUse(g, d, b)
            && Consistent(g, Mark(g, d, b, false), nodes) && SameRefs(d0, Mark(g, d, b, false), nodes)
                 && SameData(d0, Mark(g, d, b, false), nodes)
            && InodesKept(g, d, Mark(g, d, b, false)) && BitsFreed(g, d, Mark(g, d, b, false), {b})
  {
    hide GetWord, GetBit, SetBit, Marked, Unique, MetaInUse, InUse, GeoOk;
    var b := GetWord(a, j);
    NotEarlier(a, j, b);
    FreeStep(g, d0, d, nodes, b);
  }

  lemma NotEarlier(a: Block, j: nat, b: Word)
    requires j < NINDIRECT && b != 0 && forall k :: 0 <= k < j ==> GetWord(a, k) != b
    ensures b !in NonZero(Entries(a)[..j])
  {
    hide GetWord;
    var es := Entries(a);
    forall k | 0 <= k < j
      ensures es[..j][k] != b
    {
      EntryAt(a, k);
    }
  }

  lemma FreeStep(g: Geo, d0: Disk, d: Disk, nodes: seq<Inode>, b: nat)
    requires Consistent(g, d0, nodes) && Consistent(g, d, nodes) && SameRefs(d0, d, nodes) && SameData(d0, d, nodes)
    requires FirstData(g) <= b < g.size && Unowned(d0, nodes, b)
    ensures BBlock(g, b) in d
    ensures var d' := Mark(g, d, b, false);
            && Consistent(g, d', nodes) && SameRefs(d0, d', nodes) && SameData(d0, d', nodes)
            && InodesKept(g, d, d') && BitsFreed(g, d, d', {b})
  {
    hide GetWord, GetBit, SetBit;
    BitmapInDisk(g, d, nodes, b);
    assert Unowned(d, nodes, b);
    UnmarkKeeps(g, d, nodes, b);
    MarkKeeps(g, d, nodes, b, false);
    MarkInodes(g, d, nodes, b, false);
    var d' := Mark(g, d, b, false);
    forall i: nat, s: nat | i < |nodes| && s < SLOTS
      ensures Ref(d', nodes[i], s) == Ref(d0, nodes[i], s)
      ensures s != NDIRECT && Ref(d0, nodes[i], s) != 0 ==> SameBlock(d0, d', Ref(d0, nodes[i], s))
    {
      assert Ref(d, nodes[i], s) == Ref(d0, nodes[i], s);
    }
  }

  lemma IndirectReleasable(g: Geo, d: Disk, nodes: seq<Inode>, i: nat)
    requires Consistent(g, d, nodes) && i < |nodes| && nodes[i].addrs[NDIRECT] != 0 && nodes[i].addrs[NDIRECT] in d
    ensures Consistent(g, d, SetAddr(nodes, i, NDIRECT, 0))
              && Releasable(g, d, SetAddr(nodes, i, NDIRECT, 0), d[nodes[i].addrs[NDIRECT]])
  {
    hide GetWord, GetBit;
    var a := d[nodes[i].addrs[NDIRECT]];
    DetachKeeps(g, d, nodes, i, NDIRECT);
    forall k | 0 <= k < NINDIRECT
      ensures GetWord(a, k) == Ref(d, nodes[i], NDIRECT + 1 + k)
    {
    }
    forall k, m | 0 <= k < m < NINDIRECT && GetWord(a, k) != 0
      ensures GetWord(a, k) != GetWord(a, m)
    {
      assert Ref(d, nodes[i], NDIRECT + 1 + k) != Ref(d, nodes[i], NDIRECT + 1 + m);
    }
  }

  /** Once its entries are free, the indirect block can be freed too. */
  lemma IndirectFree(g: Geo, d0: Disk, d: Disk, nodes: seq<Inode>, nodes': seq<Inode>, i: nat, a: Block)
    requires Consistent(g, d0, nodes) && i < |nodes| && nodes[i].addrs[NDIRECT] != 0 && nodes[i].addrs[NDIRECT] in d0
    requires a == d0[nodes[i].addrs[NDIRECT]] && nodes' == SetAddr(nodes, i, NDIRECT, 0)
    requires Consistent(g, d0, nodes') && Consistent(g, d, nodes') && SameRefs(d0, d, nodes') && SameData(d0, d, nodes')
    requires BitsFreed(g, d0, d, NonZero(Entries(a)))
    ensures var b := nodes[i].addrs[NDIRECT];
            && b < g.size && BBlock(g, b) in d && InUse(g, d, b)
            && Consistent(g, Mark(g, d, b, false), nodes') && InodesKept(g, d, Mark(g, d, b, false))
            && BitsFreed(g, d, Mark(g, d, b, false), {b}) && OthersKept(d0, nodes, Mark(g, d, b, false), nodes', i)
  {
    hide GetWord, GetBit, SetBit;
    var b := nodes[i].addrs[NDIRECT];
    IndirectOwner(g, d0, nodes, i, b);
    DetachKeeps(g, d0, nodes, i, NDIRECT);
    assert Ref(d0, nodes[i], NDIRECT) == b;
    forall k | 0 <= k < NINDIRECT
      ensures GetWord(a, k) != b
    {
      assert Ref(d0, nodes[i], NDIRECT + 1 + k) == GetWord(a, k);
    }
    var es := Entries(a);
    assert es[..NINDIRECT] == es;
    assert b !in NonZero(es) by {
      forall k | 0 <= k < |es|
        ensures es[k] != b
      {
        EntryAt(a, k);
      }
    }
    FreeStep(g, d0, d, nodes', b);
    SameKeepsOthers(d0, nodes, Mark(g, d, b, false), nodes', i);
  }

  lemma SameKeepsOthers(d: Disk, nodes: seq<Inode>, d': Disk, nodes': seq<Inode>, i: nat)
    requires AllShaped(nodes) && i < |nodes| && |nodes'| == |nodes| && AllShaped(nodes')
    requires (forall j :: 0 <= j < |nodes| && j != i ==> nodes'[j] == nodes[j]) && SameRefs(d, d', nodes')
               && SameData(d, d', nodes')
    ensures OthersKept(d, nodes, d', nodes', i)
  {
    forall j: nat, t: nat | j < |nodes| && j != i && t < SLOTS
      ensures Ref(d', nodes[j], t) == Ref(d, nodes[j], t)
      ensures t != NDIRECT && Ref(d, nodes[j], t) != 0 ==> SameBlock(d, d', Ref(d, nodes[j], t))
    {
      assert nodes'[j] == nodes[j] && Ref(d', nodes'[j], t) == Ref(d, nodes'[j], t);
    }
  }

  /** The blocks an inode refers to. */
  ghost function BlocksOf(d: Disk, x: Inode): set<nat>
    requires Shaped(x)
  {
    set s | 0 <= s < SLOTS && Ref(d, x, s) != 0 :: Ref(d, x, s) as nat
  }

  lemma AllBlocks(d0: Disk, x0: Inode, d1: Disk, x1: Inode)
    requires Shaped(x0) && Shaped(x1) && IndirectKept(d0, x0, d1, x1) && x1.addrs[NDIRECT] == x0.addrs[NDIRECT]
    requires x1.addrs[NDIRECT] != 0 ==> x1.addrs[NDIRECT] in d1
    ensures x1.addrs[NDIRECT] == 0 ==> NonZero(x0.addrs[..NDIRECT]) == BlocksOf(d0, x0)
    ensures x1.addrs[NDIRECT] != 0 ==>
              NonZero(x0.addrs[..NDIRECT]) + (NonZero(Entries(d1[x1.addrs[NDIRECT]])) + {x1.addrs[NDIRECT] as nat}) ==
                  BlocksOf(d0, x0)
  {
    hide GetWord;
    var ind := x0.addrs[NDIRECT];
    var dir := x0.addrs[..NDIRECT];
    forall s: nat | s < NDIRECT
      ensures dir[s] == Ref(d0, x0, s)
    {
    }
    forall t: nat | NDIRECT <= t < SLOTS
      ensures Ref(d0, x0, t) == Ref(d1, x1, t)
    {
    }
    if ind != 0 {
      var es := Entries(d1[ind]);
      forall k: nat | k < NINDIRECT
        ensures es[k] == Ref(d0, x0, NDIRECT + 1 + k)
      {
        EntryAt(d1[ind], k);
        assert Ref(d1, x1, NDIRECT + 1 + k) == Ref(d0, x0, NDIRECT + 1 + k);
      }
      DirectAndEntries(d0, x0, dir, es);
    } else {
      forall v | v in BlocksOf(d0, x0)
        ensures v in NonZero(dir)
      {
        var s :| 0 <= s < SLOTS && Ref(d0, x0, s) != 0 && Ref(d0, x0, s) == v;
        assert Ref(d0, x0, s) == Ref(d1, x1, s) || s < NDIRECT;
        assert dir[s] == v;
      }
      forall v | v in NonZero(dir)
        ensures v in BlocksOf(d0, x0)
      {
        var s: nat :| s < NDIRECT && dir[s] != 0 && dir[s] == v;
        assert Ref(d0, x0, s) == v;
      }
    }
  }

  lemma DirectAndEntries(d: Disk, x: Inode, dir: seq<Word>, es: seq<Word>)
    requires Shaped(x) && x.addrs[NDIRECT] != 0 && |dir| == NDIRECT && |es| == NINDIRECT
    requires forall s :: 0 <= s < NDIRECT ==> dir[s] == Ref(d, x, s)
    requires forall k :: 0 <= k < NINDIRECT ==> es[k] == Ref(d, x, NDIRECT + 1 + k)
    ensures NonZero(dir) + (NonZero(es) + {x.addrs[NDIRECT] as nat}) == BlocksOf(d, x)
  {
    hide GetWord;
    forall v | v in BlocksOf(d, x)
      ensures v in NonZero(dir) + (NonZero(es) + {x.addrs[NDIRECT] as nat})
    {
      var s :| 0 <= s < SLOTS && Ref(d, x, s) != 0 && Ref(d, x, s) == v;
      if s < NDIRECT { assert dir[s] == v; } else if s > NDIRECT { assert es[s - NDIRECT - 1] == v; }
    }
    forall v | v in NonZero(dir)
      ensures v in BlocksOf(d, x)
    {
      var s :| 0 <= s < NDIRECT && dir[s] != 0 && dir[s] == v;
      assert Ref(d, x, s) == v;
    }
    forall v | v in NonZero(es)
      ensures v in BlocksOf(d, x)
    {
      var k :| 0 <= k < NINDIRECT && es[k] != 0 && es[k] == v;
      assert Ref(d, x, NDIRECT + 1 + k) == v;
    }
    assert Ref(d, x, NDIRECT) == x.addrs[NDIRECT];
  }

  lemma StoredOthers(g: Geo, d: Disk, nodes: seq<Inode>, d': Disk, nodes': seq<Inode>, i: nat)
    requires AllShaped(nodes) && |nodes| == g.ninodes && OthersKept(d, nodes, d', nodes', i) && InodesKept(g, d, d')
    requires forall j: nat {:trigger Stored(g, d, nodes, j)} :: j < |nodes| && j != i ==> Stored(g, d, nodes, j)
    ensures forall j: nat {:trigger Stored(g, d', nodes', j)} :: j < |nodes| && j != i ==> Stored(g, d', nodes', j)
  {
    hide GetInode;
    forall j: nat | j < |nodes| && j != i
      ensures Stored(g, d', nodes', j)
    {
      assert Stored(g, d, nodes, j) && SameBlock(d, d', IBlock(j));
    }
  }

  lemma SameBitmapBlock(g: Geo, start: nat, bi: nat)
    requires start % BPB == 0 && bi < BPB
    ensures BBlock(g, start + bi) == BBlock(g, start) && (start + bi) % BPB == bi
  {
    assert start == start / BPB * BPB;
  }
}
