/**
 The on-disk structures of kernel/fs/fs1.c and who owns each block.

 A disk here is the logical disk that the redo log and the buffer cache provide, one
 map update for each bread, store, log_write and brelse.
 */
module Inodes {
  import opened Blocks
  import opened Bitmap

  const NDIRECT: nat := 28
  const NINDIRECT: nat := 128
  const MAXFILE: nat := 156
  const IPB: nat := 4
  const DWORDS: nat := 32

  type Disk = map<nat, Block>

  datatype Update = Update(sector: nat, data: Block)

  /** The disk after a sequence of block updates. */
  ghost function Replay(d: Disk, us: seq<Update>): Disk {
    if us == [] then d else Replay(d, us[..|us| - 1])[us[|us| - 1].sector := us[|us| - 1].data]
  }

  /** The superblock fields the file layer uses. */
  datatype Geo = Geo(size: nat, ninodes: nat)

  function IBlock(i: nat): nat { i / IPB + 2 }
  function BBlock(g: Geo, b: nat): nat { b / BPB + g.ninodes / IPB + 3 }

  /** The first block after the bitmap. */
  function FirstData(g: Geo): nat
    requires g.size > 0
  {
    BBlock(g, g.size - 1) + 1
  }

  ghost predicate GeoOk(g: Geo) {
    0 < g.size < 0x1_0000_0000 && FirstData(g) <= g.size
  }

  lemma MetaBlocks(g: Geo, i: nat, b: nat)
    requires GeoOk(g) && i < g.ninodes && b < g.size
    ensures IBlock(i) < BBlock(g, b) < FirstData(g)
  {
  }

  // ---------- Inodes in blocks ----------

  /** kind and links stand for type, major, minor and nlink, which the file layer only copies. */
  datatype Inode = Inode(kind: Word, links: Word, size: Word, addrs: seq<Word>)

  predicate Shaped(x: Inode) { |x.addrs| == NDIRECT + 1 }

  function WordsOf(x: Inode): seq<Word> { [x.kind, x.links, x.size] + x.addrs }

  function AddrAt(b: Block, slot: nat, k: nat): Word
    requires slot < IPB && k <= NDIRECT
  {
    GetWord(b, DWORDS * slot + 3 + k)
  }

  function GetInode(b: Block, slot: nat): (x: Inode)
    requires slot < IPB
    ensures Shaped(x)
  {
    Inode(GetWord(b, DWORDS * slot), GetWord(b, DWORDS * slot + 1), GetWord(b, DWORDS * slot + 2),
          seq(NDIRECT + 1, k requires 0 <= k < NDIRECT + 1 => AddrAt(b, slot, k)))
  }

  function PutWords(b: Block, at: nat, ws: seq<Word>, k: nat): Block
    requires at + |ws| <= WORDS && k <= |ws|
  {
    if k == 0 then b else PutWord(PutWords(b, at, ws, k - 1), at + k - 1, ws[k - 1])
  }

  lemma {:induction false} PutWordsGet(b: Block, at: nat, ws: seq<Word>, k: nat, i: nat)
    requires at + |ws| <= WORDS && k <= |ws| && i < WORDS
    ensures GetWord(PutWords(b, at, ws, k), i) == if at <= i < at + k then ws[i - at] else GetWord(b, i)
  {
    hide GetWord, PutWord;
    if k > 0 {
      PutWordsGet(b, at, ws, k - 1, i);
      PutGet(PutWords(b, at, ws, k - 1), at + k - 1, ws[k - 1]);
    }
  }

  function PutInode(b: Block, slot: nat, x: Inode): Block
    requires slot < IPB && Shaped(x)
  {
    PutWords(b, DWORDS * slot, WordsOf(x), |WordsOf(x)|)
  }

  /** Storing an inode and loading it back is the identity, and its neighbours in the block keep theirs. */
  lemma PutInodeGet(b: Block, slot: nat, x: Inode, other: nat)
    requires slot < IPB && other < IPB && Shaped(x)
    ensures GetInode(PutInode(b, slot, x), other) == if other == slot then x else GetInode(b, other)
  {
    hide PutWords, GetWord;
    var ws, c := WordsOf(x), PutInode(b, slot, x);
    PutInodeWord(b, slot, x, other, 0);
    PutInodeWord(b, slot, x, other, 1);
    PutInodeWord(b, slot, x, other, 2);
    var y, z := GetInode(c, other), GetInode(b, other);
    forall k | 0 <= k < NDIRECT + 1
      ensures y.addrs[k] == if other == slot then x.addrs[k] else z.addrs[k]
    {
      PutInodeWord(b, slot, x, other, 3 + k);
    }
    assert other == slot ==> y.addrs == x.addrs;
    assert other != slot ==> y.addrs == z.addrs;
  }

  lemma PutInodeWord(b: Block, slot: nat, x: Inode, other: nat, k: nat)
    requires slot < IPB && other < IPB && Shaped(x) && k < DWORDS
    ensures GetWord(PutInode(b, slot, x), DWORDS * other + k) == if other == slot then WordsOf(x)[k]
              else GetWord(b, DWORDS * other + k)
  {
    hide GetWord;
    PutWordsGet(b, DWORDS * slot, WordsOf(x), |WordsOf(x)|, DWORDS * other + k);
  }

  // ---------- The format on disk ----------

  /**
   Where mkfs and the kernel look for it: four inodes of 32 words in each sector from 2 on, the
   size in the third word and the block addresses from the fourth; one bit for each block in
   the sectors after the inodes.
   */
  lemma DiskFormat(g: Geo, d: Disk, nodes: seq<Inode>, i: nat, k: nat, b: nat)
    requires i < |nodes| && k < 29 && b < g.size && 2 + i / 4 in d && 3 + g.ninodes / 4 + b / 4096 in d
    ensures Stored(g, d, nodes, i) ==>
              && Shaped(nodes[i]) && nodes[i].size == GetWord(d[2 + i / 4], 32 * (i % 4) + 2)
              && nodes[i].addrs[k] == GetWord(d[2 + i / 4], 32 * (i % 4) + 3 + k)
    ensures InUse(g, d, b) <==>
              d[3 + g.ninodes / 4 + b / 4096][b % 4096 / 8] / [1, 2, 4, 8, 16, 32, 64, 128][b % 8] % 2 == 1
  {
    hide GetWord, BitOf;
    BitCounts(d[3 + g.ninodes / 4 + b / 4096][b % 4096 / 8], b % 8);
  }

  // ---------- References ----------

  /** Slots below NDIRECT are direct blocks, slot NDIRECT the indirect block, the rest its entries. */
  const SLOTS: nat := NDIRECT + 1 + NINDIRECT

  /** The block that a slot of an inode refers to; 0 for none. */
  function Ref(d: Disk, x: Inode, s: nat): Word
    requires Shaped(x) && s < SLOTS
  {
    if s <= NDIRECT then x.addrs[s]
    else if x.addrs[NDIRECT] == 0 || x.addrs[NDIRECT] !in d then 0
    else GetWord(d[x.addrs[NDIRECT]], s - NDIRECT - 1)
  }

  /** The slot of a file's n-th block. */
  function SlotOf(n: nat): nat { if n < NDIRECT then n else n + 1 }

  predicate InUse(g: Geo, d: Disk, b: nat)
    requires b < g.size
  {
    BBlock(g, b) in d && GetBit(d[BBlock(g, b)], b % BPB)
  }

  ghost predicate Complete(g: Geo, d: Disk) { forall b: nat :: b in d <==> b < g.size }

  ghost predicate MetaInUse(g: Geo, d: Disk)
    requires GeoOk(g)
  {
    forall b: nat {:trigger InUse(g, d, b)} :: b < FirstData(g) ==> InUse(g, d, b)
  }

  ghost predicate AllShaped(nodes: seq<Inode>) { forall i :: 0 <= i < |nodes| ==> Shaped(nodes[i]) }

  /** Whatever is referred to is a data block marked in use. */
  ghost predicate Marked(g: Geo, d: Disk, nodes: seq<Inode>)
    requires GeoOk(g) && AllShaped(nodes)
  {
    forall i: nat, s: nat {:trigger Ref(d, nodes[i], s)} :: i < |nodes| && s < SLOTS && Ref(d, nodes[i], s) != 0 ==>
      FirstData(g) <= Ref(d, nodes[i], s) < g.size && InUse(g, d, Ref(d, nodes[i], s))
  }

  /** No block has two referrers. */
  ghost predicate Unique(d: Disk, nodes: seq<Inode>)
    requires AllShaped(nodes)
  {
    forall i: nat, s: nat, j: nat, t: nat {:trigger Ref(d, nodes[i], s), Ref(d, nodes[j], t)} ::
      i < |nodes| && j < |nodes| && s < SLOTS && t < SLOTS && Ref(d, nodes[i], s) != 0
          && Ref(d, nodes[i], s) == Ref(d, nodes[j], t)
      ==> i == j && s == t
  }

  ghost predicate Consistent(g: Geo, d: Disk, nodes: seq<Inode>) {
    && GeoOk(g) && |nodes| == g.ninodes && AllShaped(nodes)
    && Complete(g, d) && MetaInUse(g, d)
    && Marked(g, d, nodes) && Unique(d, nodes)
  }

  /** Inode i on disk is the given one. */
  ghost predicate Stored(g: Geo, d: Disk, nodes: seq<Inode>, i: nat)
    requires i < |nodes|
  {
    IBlock(i) in d && GetInode(d[IBlock(i)], i % IPB) == nodes[i]
  }

  /** Nothing that an inode refers to changes between two disks. */
  ghost predicate SameRefs(d: Disk, d': Disk, nodes: seq<Inode>)
    requires AllShaped(nodes)
  {
    forall i: nat, s: nat {:trigger Ref(d', nodes[i], s)} {:trigger Ref(d, nodes[i], s)} ::
      i < |nodes| && s < SLOTS ==> Ref(d', nodes[i], s) == Ref(d, nodes[i], s)
  }

  /** A block nobody refers to. */
  ghost predicate Unowned(d: Disk, nodes: seq<Inode>, b: nat)
    requires AllShaped(nodes)
  {
    forall i: nat, s: nat {:trigger Ref(d, nodes[i], s)} :: i < |nodes| && s < SLOTS ==> Ref(d, nodes[i], s) != b
  }

  /** Changing a block that is no inode's indirect block leaves all references alone. */
  lemma RefsKept(g: Geo, d: Disk, nodes: seq<Inode>, b: nat, x: Block)
    requires Consistent(g, d, nodes) && b in d
    requires forall i: nat {:trigger nodes[i]} :: i < |nodes| ==> Ref(d, nodes[i], NDIRECT) != b || b == 0
    ensures SameRefs(d, d[b := x], nodes)
  {
  }

  lemma FreeIsUnowned(g: Geo, d: Disk, nodes: seq<Inode>, b: nat)
    requires Consistent(g, d, nodes) && b < g.size && (b < FirstData(g) || !InUse(g, d, b)) && b != 0
    ensures Unowned(d, nodes, b)
  {
  }

  // ---------- Allocating and attaching blocks ----------

  /** The disk after the bitmap bit of b has been set or cleared. */
  function Mark(g: Geo, d: Disk, b: nat, v: bool): Disk
    requires b < g.size && BBlock(g, b) in d
  {
    d[BBlock(g, b) := SetBit(d[BBlock(g, b)], b % BPB, v)]
  }

  lemma MarkGet(g: Geo, d: Disk, b: nat, v: bool, c: nat)
    requires b < g.size && c < g.size && BBlock(g, b) in d
    ensures InUse(g, Mark(g, d, b, v), c) == if c == b then v else InUse(g, d, c)
  {
    hide SetBit, GetBit;
    if BBlock(g, c) == BBlock(g, b) {
      SetBitGet(d[BBlock(g, b)], b % BPB, v, c % BPB);
      assert b == b / BPB * BPB + b % BPB && c == c / BPB * BPB + c % BPB;
    }
  }

  ghost predicate SameBlock(d: Disk, d': Disk, b: nat) { b in d && b in d' && d'[b] == d[b] }

  /** Blocks that hold file data keep their contents. */
  ghost predicate SameData(d: Disk, d': Disk, nodes: seq<Inode>)
    requires AllShaped(nodes)
  {
    forall i: nat, s: nat {:trigger Ref(d, nodes[i], s)} ::
      i < |nodes| && s < SLOTS && s != NDIRECT && Ref(d, nodes[i], s) != 0 ==> SameBlock(d, d', Ref(d, nodes[i], s))
  }

  lemma BitmapInDisk(g: Geo, d: Disk, nodes: seq<Inode>, b: nat)
    requires Consistent(g, d, nodes) && b < g.size
    ensures BBlock(g, b) in d && 0 < BBlock(g, b) < FirstData(g)
  {
    assert b / BPB <= (g.size - 1) / BPB;
  }

  /** Marking a block changes no reference and no data. */
  lemma MarkKeeps(g: Geo, d: Disk, nodes: seq<Inode>, b: nat, v: bool)
    requires Consistent(g, d, nodes) && b < g.size && BBlock(g, b) in d
    ensures SameRefs(d, Mark(g, d, b, v), nodes) && SameData(d, Mark(g, d, b, v), nodes)
    ensures v ==> Consistent(g, Mark(g, d, b, v), nodes)
  {
    hide SetBit, GetWord;
    BitmapInDisk(g, d, nodes, b);
    var d' := Mark(g, d, b, v);
    RefsKept(g, d, nodes, BBlock(g, b), d'[BBlock(g, b)]);
    if v {
      forall c: nat | c < g.size
        ensures InUse(g, d, c) ==> InUse(g, d', c)
      {
        MarkGet(g, d, b, v, c);
      }
    }
  }

  /** The disk after fs1_balloc has taken block b. */
  function Taken(g: Geo, d: Disk, b: nat): Disk
    requires b < g.size && BBlock(g, b) in d
  {
    Mark(g, d, b, true)[b := ZeroBlock()]
  }

  lemma TakenKeeps(g: Geo, d: Disk, nodes: seq<Inode>, b: nat)
    requires Consistent(g, d, nodes) && b < g.size && BBlock(g, b) in d && !InUse(g, d, b)
    ensures Consistent(g, Taken(g, d, b), nodes) && FirstData(g) <= b && InUse(g, Taken(g, d, b), b)
    ensures SameRefs(d, Taken(g, d, b), nodes) && SameData(d, Taken(g, d, b), nodes)
              && Unowned(Taken(g, d, b), nodes, b)
  {
    hide SetBit, GetWord;
    assert FirstData(g) <= b;
    FreeIsUnowned(g, d, nodes, b);
    MarkKeeps(g, d, nodes, b, true);
    var d1, d2 := Mark(g, d, b, true), Taken(g, d, b);
    assert Unowned(d1, nodes, b);
    RefsKept(g, d1, nodes, b, ZeroBlock());
    forall c: nat | c < g.size
      ensures InUse(g, d2, c) == (c == b || InUse(g, d, c))
    {
      BitmapInDisk(g, d, nodes, c);
      MarkGet(g, d, b, true, c);
    }
  }

  /** Inode i with slot s (a direct slot or the indirect pointer) set to b. */
  function SetAddr(nodes: seq<Inode>, i: nat, s: nat, b: Word): seq<Inode>
    requires i < |nodes| && Shaped(nodes[i]) && s <= NDIRECT
  {
    nodes[i := nodes[i].(addrs := nodes[i].addrs[s := b])]
  }

  /** References after slot s of inode i has been given block b. */
  ghost predicate Attached(d: Disk, nodes: seq<Inode>, d': Disk, nodes': seq<Inode>, i: nat, s: nat, b: nat)
    requires AllShaped(nodes) && AllShaped(nodes') && |nodes'| == |nodes|
  {
    forall j: nat, t: nat {:trigger Ref(d', nodes'[j], t)} {:trigger Ref(d, nodes[j], t)} ::
      j < |nodes| && t < SLOTS ==> Ref(d', nodes'[j], t) == if j == i && t == s then b else Ref(d, nodes[j], t)
  }

  /** Giving an empty slot a block that is marked and unowned keeps ownership. */
  lemma AttachKeeps(g: Geo, d: Disk, nodes: seq<Inode>, d': Disk, nodes': seq<Inode>, i: nat, s: nat, b: nat)
    requires Consistent(g, d, nodes) && i < |nodes| && s < SLOTS && Ref(d, nodes[i], s) == 0
    requires FirstData(g) <= b < g.size && InUse(g, d, b) && Unowned(d, nodes, b)
    requires |nodes'| == |nodes| && AllShaped(nodes') && Attached(d, nodes, d', nodes', i, s, b)
    requires Complete(g, d') && forall c: nat {:trigger InUse(g, d', c)} :: c < g.size ==>
               InUse(g, d', c) == InUse(g, d, c)
    ensures Consistent(g, d', nodes')
  {
    forall j: nat, t: nat, k: nat, u: nat |
      j < |nodes| && k < |nodes| && t < SLOTS && u < SLOTS && Ref(d', nodes'[j], t) != 0
          && Ref(d', nodes'[j], t) == Ref(d', nodes'[k], u)
      ensures j == k && t == u
    {
      assert Ref(d, nodes[j], t) != b && Ref(d, nodes[k], u) != b;
    }
  }

  /** A direct slot, or an indirect block that is still all zero. */
  lemma AttachAddr(g: Geo, d: Disk, nodes: seq<Inode>, i: nat, s: nat, b: Word)
    requires Consistent(g, d, nodes) && i < |nodes| && s <= NDIRECT && nodes[i].addrs[s] == 0
    requires FirstData(g) <= b < g.size && InUse(g, d, b) && Unowned(d, nodes, b)
    requires s == NDIRECT ==> d[b] == ZeroBlock()
    ensures AllShaped(SetAddr(nodes, i, s, b)) && Attached(d, nodes, d, SetAddr(nodes, i, s, b), i, s, b)
    ensures Consistent(g, d, SetAddr(nodes, i, s, b))
  {
    hide GetWord;
    var nodes' := SetAddr(nodes, i, s, b);
    if s == NDIRECT {
      forall k: nat | k < WORDS
        ensures GetWord(d[b], k) == 0
      {
        ZeroWords(k);
      }
    }
    AttachKeeps(g, d, nodes, d, nodes', i, s, b);
  }

  /** An entry of the indirect block. */
  lemma AttachEntry(g: Geo, d: Disk, nodes: seq<Inode>, i: nat, k: nat, b: Word)
    requires Consistent(g, d, nodes) && i < |nodes| && k < NINDIRECT && nodes[i].addrs[NDIRECT] in d
               && nodes[i].addrs[NDIRECT] != 0
    requires Ref(d, nodes[i], NDIRECT + 1 + k) == 0
    requires FirstData(g) <= b < g.size && InUse(g, d, b) && Unowned(d, nodes, b)
    ensures var ind := nodes[i].addrs[NDIRECT];
            var d' := d[ind := PutWord(d[ind], k, b)];
            && Attached(d, nodes, d', nodes, i, NDIRECT + 1 + k, b) && Consistent(g, d', nodes)
            && SameData(d, d', nodes)
            && forall c: nat {:trigger InUse(g, d', c)} :: c < g.size ==> InUse(g, d', c) == InUse(g, d, c)
  {
    hide GetWord, PutWord, GetBit;
    var ind := nodes[i].addrs[NDIRECT];
    var d' := d[ind := PutWord(d[ind], k, b)];
    PutGet(d[ind], k, b);
    IndirectOwner(g, d, nodes, i, ind);
    assert Attached(d, nodes, d', nodes, i, NDIRECT + 1 + k, b);
    forall c: nat | c < g.size
      ensures InUse(g, d', c) == InUse(g, d, c)
    {
      BitmapInDisk(g, d, nodes, c);
    }
    AttachKeeps(g, d, nodes, d', nodes, i, NDIRECT + 1 + k, b);
  }

  /** An indirect block belongs to one inode and holds nobody's data. */
  lemma IndirectOwner(g: Geo, d: Disk, nodes: seq<Inode>, i: nat, ind: nat)
    requires Consistent(g, d, nodes) && i < |nodes| && nodes[i].addrs[NDIRECT] == ind != 0
    ensures FirstData(g) <= ind < g.size && InUse(g, d, ind)
    ensures forall j: nat {:trigger nodes[j]} :: j < |nodes| && j != i ==> nodes[j].addrs[NDIRECT] != ind
    ensures forall j: nat, t: nat {:trigger Ref(d, nodes[j], t)} :: j < |nodes| && t < SLOTS && t != NDIRECT ==>
              Ref(d, nodes[j], t) != ind
  {
    assert Ref(d, nodes[i], NDIRECT) == ind;
    forall j: nat | j < |nodes| && j != i
      ensures nodes[j].addrs[NDIRECT] != ind
    {
      assert Ref(d, nodes[j], NDIRECT) == nodes[j].addrs[NDIRECT];
    }
  }

  // ---------- Detaching and freeing blocks ----------

  /** Clearing a slot keeps ownership, and what it referred to is no longer referred to by anyone. */
  lemma DetachKeeps(g: Geo, d: Disk, nodes: seq<Inode>, i: nat, s: nat)
    requires Consistent(g, d, nodes) && i < |nodes| && s <= NDIRECT
    ensures Consistent(g, d, SetAddr(nodes, i, s, 0))
    ensures forall t: nat {:trigger Ref(d, nodes[i], t)} ::
              t < SLOTS && Ref(d, nodes[i], t) != 0 && (t == s || (s == NDIRECT && t > NDIRECT)) ==>
                Unowned(d, SetAddr(nodes, i, s, 0), Ref(d, nodes[i], t))
    ensures forall j: nat, t: nat {:trigger Ref(d, SetAddr(nodes, i, s, 0)[j], t)} :: j < |nodes| && t < SLOTS ==>
              Ref(d, SetAddr(nodes, i, s, 0)[j], t) == if j == i && (t == s || (s == NDIRECT && t > NDIRECT)) then 0
                  else Ref(d, nodes[j], t)
  {
    hide GetWord, GetBit;
    var nodes' := SetAddr(nodes, i, s, 0);
    forall j: nat, t: nat | j < |nodes| && t < SLOTS
      ensures Ref(d, nodes'[j], t) == if j == i && (t == s || (s == NDIRECT && t > NDIRECT)) then 0
                else Ref(d, nodes[j], t)
    {
    }
    forall t: nat | t < SLOTS && Ref(d, nodes[i], t) != 0 && (t == s || (s == NDIRECT && t > NDIRECT))
      ensures Unowned(d, nodes', Ref(d, nodes[i], t))
    {
      forall j: nat, u: nat | j < |nodes| && u < SLOTS
        ensures Ref(d, nodes'[j], u) != Ref(d, nodes[i], t)
      {
        assert Ref(d, nodes'[j], u) == 0 || Ref(d, nodes'[j], u) == Ref(d, nodes[j], u);
      }
    }
  }

  /** A data block that nobody refers to may be marked free. */
  lemma UnmarkKeeps(g: Geo, d: Disk, nodes: seq<Inode>, b: nat)
    requires Consistent(g, d, nodes) && FirstData(g) <= b < g.size && BBlock(g, b) in d && Unowned(d, nodes, b)
    ensures Consistent(g, Mark(g, d, b, false), nodes)
    ensures forall c: nat {:trigger InUse(g, Mark(g, d, b, false), c)} :: c < g.size ==>
              (InUse(g, Mark(g, d, b, false), c) <==> InUse(g, d, c) && c != b)
  {
    hide GetBit, SetBit, GetWord;
    var d' := Mark(g, d, b, false);
    MarkKeeps(g, d, nodes, b, false);
    BitmapInDisk(g, d, nodes, b);
    forall c: nat | c < g.size
      ensures InUse(g, d', c) <==> InUse(g, d, c) && c != b
    {
      MarkGet(g, d, b, false, c);
    }
  }
}
