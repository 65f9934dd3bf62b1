/**
 filewrite of kernel/file.c on an inode: a long write is cut into pieces, each an operation
 of its own, so that a crash can leave some of the pieces written.
 */
module FileWrite {
  import opened Bitmap
  import opened Blocks
  import B = BufferCache
  import R = RedoLog
  import L = Log
  import I = Inodes
  import F = FileLayer
  import V = Volume

  /** The most that filewrite gives to one operation. */
  const PIECE: nat := (R.LOGSIZE - 1 - 1 - 2) / 2 * BSIZE

  const MAX: nat := I.MAXFILE * BSIZE

  /** Where piece j starts in src. */
  function Start(j: nat): nat { j * PIECE }

  lemma StartFacts(j: nat, q: nat)
    ensures Start(0) == 0 && Start(j + 1) == Start(j) + PIECE && (j < q ==> Start(j) + PIECE <= Start(q))
  {
  }

  lemma StartBelow(x: nat)
    ensures Start(x / PIECE) <= x < Start(x / PIECE) + PIECE && (x >= PIECE <==> Start(x / PIECE) > 0)
  {
  }

  /** Bytes in the first j pieces of n. */
  function Cut(j: nat, n: nat): (r: nat)
    ensures r <= n
  {
    if Start(j) < n then Start(j) else n
  }

  /** Bytes that a write of n at off gets to the file: all, or the pieces that end within the largest file. */
  function Whole(size: nat, off: nat, n: nat): nat {
    if n == 0 || off > size || off > MAX then 0 else if off + n <= MAX then n else Start((MAX - off) / PIECE)
  }

  /** Piece j of the write is accepted exactly if it lies within the whole pieces. */
  lemma WholeExactly(size: nat, size': nat, off: nat, j: nat, n: nat)
    requires Start(j) < n && Start(j) <= Whole(size, off, n)
    requires size' == if j > 0 && off + Start(j) > size then off + Start(j) else size
    ensures off + Start(j) > size' || off + Cut(j + 1, n) > MAX <==> Whole(size, off, n) == Start(j)
    ensures off + Start(j) <= size' && off + Cut(j + 1, n) <= MAX ==> Cut(j + 1, n) <= Whole(size, off, n)
  {
    hide Start;
    StartFacts(j, 0);
    if off <= MAX {
      var q := (MAX - off) / PIECE;
      StartBelow(MAX - off);
      StartFacts(j, q);
      StartFacts(q, j);
      StartFacts(0, j);
    }
  }

  /** An error is returned although something has been written exactly when the first piece fits and not all do. */
  lemma ErrorAfterPieces(size: nat, off: nat, n: nat)
    ensures 0 < Whole(size, off, n) < n <==> off <= size && off + 6656 <= 79872 < off + n
  {
    hide Start;
    if off <= MAX { StartBelow(MAX - off); }
  }

  /** A piece has 13 blocks' worth of bytes: a write of up to 6656 bytes is one operation, a longer one several. */
  lemma PieceSize(j: nat, n: nat)
    ensures Cut(j, n) == if 6656 * j < n then 6656 * j else n
  {
  }

  // ---------- What a crash leaves ----------

  /**
   The first cut bytes of src have been written to file i, every other file is as it was on
   the disk d; the inodes on disk are those of these files, if file i had no holes.
   */
  ghost predicate PrefixHeld(l: R.Layout, d: B.Disk, r: B.Disk, g: I.Geo,
                             n0: seq<I.Inode>, n: seq<I.Inode>, i: nat, off: nat, src: seq<Byte>, cut: nat)
    requires I.AllShaped(n0) && I.AllShaped(n) && i < |n0| == |n| && off <= n0[i].size && cut <= |src|
  {
    var was, now := V.Sectors(l, d, g.size), V.Sectors(l, r, g.size);
    && I.Consistent(g, now, n) && V.AllStoredBut(g, now, n, i)
    && (forall j: nat {:trigger F.Bytes(now, n[j])} :: j < |n| && j != i ==> F.Bytes(now, n[j]) == F.Bytes(was, n0[j]))
    && F.Bytes(now, n[i]) == F.Spliced(F.Bytes(was, n0[i]), off, src[..cut])
    && (I.Stored(g, was, n0, i) && F.HoleFree(was, n0[i]) ==> I.Stored(g, now, n, i))
  }

  /** One operation: the disk and the inodes it started from, its transaction, and the inodes it was to leave. */
  datatype Piece = Piece(disk: B.Disk, tx: R.Tx, before: seq<I.Inode>, after: seq<I.Inode>)

  ghost predicate PieceOk(l: R.Layout, p: Piece) {
    R.HasLog(l, p.disk) && R.Count(p.disk[R.LogBlock(l, 0)]) == 0 && R.TxFits(l, p.disk, p.tx)
  }

  /** The number of sector writes of a piece. */
  ghost function Writes(l: R.Layout, p: Piece): nat
    requires PieceOk(l, p)
  {
    |R.TxWrites(l, p.disk, p.tx)|
  }

  /** The disk after the first k of them. */
  ghost function Stopped(l: R.Layout, p: Piece, k: nat): B.Disk
    requires PieceOk(l, p) && k <= Writes(l, p)
  {
    R.Apply(p.disk, R.TxWrites(l, p.disk, p.tx)[..k])
  }

  /** Each piece starts where the one before it ended; d' is where the last one has stopped. */
  ghost predicate Chain(l: R.Layout, d: B.Disk, ps: seq<Piece>, k: nat, d': B.Disk) {
    && (forall j :: 0 <= j < |ps| ==> PieceOk(l, ps[j]))
    && (forall j :: 0 < j < |ps| ==> ps[j].disk == Stopped(l, ps[j - 1], Writes(l, ps[j - 1])))
    && (if ps == [] then d' == d
        else ps[0].disk == d && k <= Writes(l, ps[|ps| - 1]) && d' == Stopped(l, ps[|ps| - 1], k))
  }

  /** The disk r holds the first j pieces, or also the piece p that follows them. */
  ghost predicate Held(l: R.Layout, d: B.Disk, r: B.Disk, before: bool, p: Piece, j: nat, g: I.Geo,
                       n0: seq<I.Inode>, i: nat, off: nat, src: seq<Byte>)
    requires I.AllShaped(n0) && I.AllShaped(p.before) && I.AllShaped(p.after)
    requires i < |n0| == |p.before| == |p.after| && off <= n0[i].size
  {
    if before then PrefixHeld(l, d, r, g, n0, p.before, i, off, src, Cut(j, |src|))
    else PrefixHeld(l, d, r, g, n0, p.after, i, off, src, Cut(j + 1, |src|))
  }

  /** A crash anywhere in piece j leaves whole pieces: j of them or j + 1. */
  ghost predicate PieceSafe(l: R.Layout, d: B.Disk, p: Piece, j: nat, g: I.Geo,
                            n0: seq<I.Inode>, i: nat, off: nat, src: seq<Byte>)
    requires PieceOk(l, p) && I.AllShaped(n0) && i < |n0| && off <= n0[i].size
  {
    && I.AllShaped(p.before) && I.AllShaped(p.after) && |p.before| == |p.after| == |n0|
    && forall m: nat, crashes: seq<nat> {:trigger V.Recovered(l, p.disk, p.tx, m, crashes)} ::
         m <= R.WriteCount(p.tx) ==>
           Held(l, d, V.Recovered(l, p.disk, p.tx, m, crashes), m <= |p.tx.secs|, p, j, g, n0, i, off, src)
  }

  /** One more piece written on top of a prefix, or not. */
  lemma PieceHeld(l: R.Layout, d: B.Disk, dj: B.Disk, r: B.Disk, before: bool, g: I.Geo,
                  n0: seq<I.Inode>, nj: seq<I.Inode>, n1: seq<I.Inode>, i: nat, off: nat, src: seq<Byte>,
                  at: nat, to: nat)
    requires I.AllShaped(n0) && I.AllShaped(nj) && I.AllShaped(n1) && i < |n0| == |nj| == |n1|
    requires off <= n0[i].size && at <= to <= |src| && off + at <= nj[i].size
    requires PrefixHeld(l, d, dj, g, n0, nj, i, off, src, at)
    requires F.HoleFree(V.Sectors(l, d, g.size), n0[i]) ==> F.HoleFree(V.Sectors(l, dj, g.size), nj[i])
    requires V.WrittenOrNot(l, dj, r, before, g, nj, n1, i, off + at, src[at..to])
    ensures PrefixHeld(l, d, r, g, n0, if before then nj else n1, i, off, src, if before then at else to)
  {
    hide V.Sectors, F.Bytes, F.Spliced, I.Consistent, I.Stored, F.HoleFree, F.Addressed, F.FreeSet, F.Needed;
    var c := F.Bytes(V.Sectors(l, d, g.size), n0[i]);
    assert src[..at] + src[at..to] == src[..to];
    F.SplicedTwice(c, off, src[..at], src[at..to]);
    if F.HoleFree(V.Sectors(l, d, g.size), n0[i]) && off + at + |src[at..to]| <= nj[i].size {
      F.HoleFreeAddressed(V.Sectors(l, dj, g.size), nj[i], off + at, |src[at..to]|);
    }
    var n, now := if before then nj else n1, V.Sectors(l, r, g.size);
    forall j: nat | j < |n| && j != i
      ensures F.Bytes(now, n[j]) == F.Bytes(V.Sectors(l, d, g.size), n0[j])
    {
      assert F.Bytes(now, n[j]) == F.Bytes(V.Sectors(l, dj, g.size), nj[j]);
    }
  }

  /** So a crash anywhere in it leaves whole pieces. */
  lemma PieceIsSafe(l: R.Layout, d: B.Disk, p: Piece, j: nat, g: I.Geo,
                    n0: seq<I.Inode>, i: nat, off: nat, src: seq<Byte>)
    requires PieceOk(l, p) && I.AllShaped(n0) && I.AllShaped(p.before) && I.AllShaped(p.after)
    requires i < |n0| == |p.before| == |p.after| && off <= n0[i].size
    requires Start(j) < |src| && off + Start(j) <= p.before[i].size
    requires PrefixHeld(l, d, p.disk, g, n0, p.before, i, off, src, Start(j))
    requires F.HoleFree(V.Sectors(l, d, g.size), n0[i]) ==> F.HoleFree(V.Sectors(l, p.disk, g.size), p.before[i])
    requires V.WriteSafe(l, p.disk, p.tx, g, p.before, p.after, i, off + Start(j), src[Start(j)..Cut(j + 1, |src|)])
    ensures PieceSafe(l, d, p, j, g, n0, i, off, src)
  {
    hide V.Sectors, F.HoleFree, PrefixHeld, V.WrittenOrNot, V.Recovered, R.HasLog, R.TxFits, Start;
    StartFacts(j, 0);
    forall m: nat, crashes: seq<nat> | m <= R.WriteCount(p.tx)
      ensures Held(l, d, V.Recovered(l, p.disk, p.tx, m, crashes), m <= |p.tx.secs|, p, j, g, n0, i, off, src)
    {
      PieceHeld(l, d, p.disk, V.Recovered(l, p.disk, p.tx, m, crashes), m <= |p.tx.secs|, g, n0, p.before, p.after, i,
                off, src, Start(j), Cut(j + 1, |src|));
    }
  }

  lemma ChainNext(l: R.Layout, d: B.Disk, ps: seq<Piece>, k: nat, p: Piece, k': nat, d': B.Disk)
    requires Chain(l, d, ps, k, p.disk) && PieceOk(l, p) && k' <= Writes(l, p)
    requires ps != [] ==> k == Writes(l, ps[|ps| - 1])
    requires d' == Stopped(l, p, k')
    ensures Chain(l, d, ps + [p], k', d')
  {
    hide PieceOk, Stopped, Writes;
    var qs := ps + [p];
    forall j | 0 <= j < |qs|
      ensures PieceOk(l, qs[j])
      ensures j > 0 ==> PieceOk(l, qs[j - 1]) && qs[j].disk == Stopped(l, qs[j - 1], Writes(l, qs[j - 1]))
    {
      if j < |ps| { assert qs[j] == ps[j]; }
    }
  }

  // ---------- One turn of the loop ----------

  /** Nobody uses the log, and the file is the one on the device. */
  ghost predicate Ready(lg: L.Log, f: F.File)
    reads lg, lg.bc, lg.bc.buf, lg.bc.next, lg.bc.prev, f
  {
    V.Quiet(lg) && V.Pending(lg, f, f.nodes) && f.disk == f.start && f.issued == []
    && V.AllStoredBut(f.g, f.disk, f.nodes, f.inum)
  }

  lemma ReadyFacts(lg: L.Log, f: F.File)
    requires Ready(lg, f)
    ensures I.Consistent(f.g, f.disk, f.nodes) && f.inum < |f.nodes| && f.nodes[f.inum] == f.Me()
    ensures f.disk == V.Sectors(lg.l, lg.bc.disk, f.g.size) && V.AllStoredBut(f.g, f.disk, f.nodes, f.inum)
  {
    hide V.Quiet, V.Sectors, V.AllStoredBut;
  }

  /** After a commit the device differs from the logical disk in the log at most, which concerns no file. */
  lemma Settles(g: I.Geo, d: I.Disk, nodes: seq<I.Inode>, d': I.Disk, rs: set<nat>, i: nat)
    requires I.Consistent(g, d, nodes) && F.Spared(g, d, nodes, rs) && V.SameOutside(d, d', rs) && i < |nodes|
    ensures I.Consistent(g, d', nodes) && F.Spared(g, d', nodes, rs)
    ensures I.SameRefs(d, d', nodes) && F.BitsFreed(g, d, d', {})
    ensures F.HoleFree(d, nodes[i]) ==> F.HoleFree(d', nodes[i])
  {
    hide I.InUse, I.Marked, I.Unique, I.MetaInUse, F.Bytes, I.Stored, F.FreeSet;
    V.SparedIsApart(g, d, nodes, rs);
    V.FilesOutside(g, d, nodes, d', rs);
    V.RefsOutside(g, d, nodes, d', rs);
    forall c: nat | c < g.size
      ensures I.InUse(g, d', c) == I.InUse(g, d, c)
    {
      V.BitsOutside(g, d, nodes, d', rs, c);
    }
    F.SparedSame(g, d, d', nodes, rs);
    if F.HoleFree(d, nodes[i]) {
      hide I.Ref;
      forall n: nat | n * BSIZE < nodes[i].size
        ensures F.HasBlock(d', nodes[i], n)
      {
        assert F.HasBlock(d, nodes[i], n);
        assert I.Ref(d', nodes[i], I.SlotOf(n)) == I.Ref(d, nodes[i], I.SlotOf(n));
      }
    }
  }

  /** One piece, from begin_op to end_op. */
  method WritePiece(lg: L.Log, f: F.File, part: seq<Byte>, at: nat)
    returns (r: B.Outcome, n: int, ghost p: Piece, ghost k: nat)
    requires Ready(lg, f) && at < 0x1_0000_0000 && |part| < 0x1_0000_0000
    modifies f, lg, lg.bc, lg.bc.buf, lg.bc.next, lg.bc.prev
    ensures p.disk == old(lg.bc.disk) && p.before == old(f.nodes) && PieceOk(lg.l, p)
    ensures k <= Writes(lg.l, p) && lg.bc.disk == Stopped(lg.l, p, k)
    ensures at <= old(f.size) ==>
              && I.AllShaped(p.before) && I.AllShaped(p.after) && f.inum < |p.before| == |p.after|
              && p.before[f.inum] == old(f.Me())
              && V.WriteSafe(lg.l, p.disk, p.tx, f.g, p.before, p.after, f.inum, at, part)
    ensures r.Done? ==> Ready(lg, f)
    ensures r.Done? && n == -1 <==> at > old(f.size) || at + |part| > MAX
    ensures r.Done? && n == -1 ==> lg.bc.disk == old(lg.bc.disk) && unchanged(f)
    ensures r.Done? && n != -1 ==>
              && n == |part| && p.after == f.nodes && k == Writes(lg.l, p)
              && F.Counted(f.g, old(f.disk), old(f.Me()), f.disk, f.Me(), at / BSIZE, F.BlocksEnd(at, |part|))
              && (old(F.HoleFree(f.disk, f.Me())) ==> F.HoleFree(f.disk, f.Me()))
              && f.size == (if at + |part| > old(f.size) then at + |part| else old(f.size) as int)
              && V.WrittenOrNot(lg.l, p.disk, lg.bc.disk, false, f.g, p.before, p.after, f.inum, at, part)
    ensures at <= old(f.size) && at + |part| <= MAX
            && V.LogHasRoom(lg.l, F.WriteSectors(f.g, at / BSIZE, F.BlocksEnd(at, |part|))) ==>
              (r.Done? <==> F.CanMap(f.g, old(f.disk), old(f.Me()), at / BSIZE, F.BlocksEnd(at, |part|)))
  {
    hide V.Sectors, V.LogArea, V.SameFiles, R.Apply, B.Linked, B.Consistent, B.View, V.Recovered, V.SameOutside,
         V.WrittenOrNot, V.WriteSafe, F.Spared, F.Bytes, F.Spliced, F.OthersKept, V.LogTakes, V.Touched, F.BlocksEnd,
         I.Marked, I.Unique, I.MetaInUse, I.Complete, I.Stored, F.CanMap, F.FreeSet, F.HoleFree, F.WriteSectors,
         F.Counted, R.HasLog, R.TxFits, R.TxWrites, L.NoBusy, R.Loggable, L.DirtyAddrs, L.LoggedAddrs, I.SameRefs,
         F.BitsFreed, V.LogHasRoom;
    ghost var was, d0, x0 := f.nodes, f.disk, f.Me();
    p := Piece(lg.bc.disk, R.Tx([], []), was, was);
    ghost var tx, n1;
    r, n, tx, k, n1 := V.WriteFile(lg, f, part, at);
    p := Piece(p.disk, tx, was, n1);
    if r.Done? && n != -1 {
      ghost var d1 := f.disk;
      var d := V.Sectors(lg.l, lg.bc.disk, f.g.size);
      Settles(f.g, d1, f.nodes, d, f.reserved, f.inum);
      F.CountedUpdated(f.g, d0, x0, d1, d, f.nodes, f.inum, at / BSIZE, F.BlocksEnd(at, |part|));
      f.Resume(d);
      StoredOnDevice(lg.l, p.disk, lg.bc.disk, f.g, p.before, p.after, f.inum, at, part);
    }
  }

  lemma StoredOnDevice(l: R.Layout, d: B.Disk, r: B.Disk, g: I.Geo, n0: seq<I.Inode>, n1: seq<I.Inode>, i: nat,
                       at: nat, part: seq<Byte>)
    requires I.AllShaped(n0) && I.AllShaped(n1) && i < |n0| == |n1| && at <= n0[i].size
    requires V.WrittenOrNot(l, d, r, false, g, n0, n1, i, at, part)
    ensures V.AllStoredBut(g, V.Sectors(l, r, g.size), n1, i)
  {
    hide V.AllStoredBut, V.Sectors;
  }

  // ---------- The loop ----------

  lemma Ends(off: nat, i: nat, to: nat)
    requires i <= to
    ensures off / BSIZE <= (off + i) / BSIZE <= F.BlocksEnd(off, i) <= F.BlocksEnd(off, to)
    ensures i < to ==> F.BlocksEnd(off + i, to - i) == F.BlocksEnd(off, to)
  {
  }

  lemma EndsWithin(off: nat, n: nat)
    requires off + n <= MAX
    ensures F.BlocksEnd(off, n) <= I.MAXFILE
  {
  }

  lemma WholeWithin(size: nat, off: nat, n: nat)
    ensures Whole(size, off, n) <= n && (Whole(size, off, n) > 0 ==> off + Whole(size, off, n) <= MAX && off <= size)
  {
  }

  /** Nothing has been written yet. */
  lemma StartHeld(l: R.Layout, d: B.Disk, g: I.Geo, n0: seq<I.Inode>, i: nat, off: nat, src: seq<Byte>)
    requires I.Consistent(g, V.Sectors(l, d, g.size), n0) && V.AllStoredBut(g, V.Sectors(l, d, g.size), n0, i)
    requires i < |n0| && off <= n0[i].size
    ensures PrefixHeld(l, d, d, g, n0, n0, i, off, src, 0)
  {
    hide V.Sectors, I.Marked, I.Unique, I.MetaInUse, I.Complete, I.Stored, F.HoleFree, V.AllStoredBut;
    var c := F.Bytes(V.Sectors(l, d, g.size), n0[i]);
    assert |c| == n0[i].size as nat;
    assert F.Spliced(c, off, src[..0]) == c;
  }

  /** What the next piece adds to the count of blocks. */
  lemma NextCounted(g: I.Geo, d0: I.Disk, x0: I.Inode, d1: I.Disk, x1: I.Inode, d2: I.Disk, x2: I.Inode,
                    off: nat, i: nat, to: nat)
    requires I.Shaped(x0) && I.Shaped(x1) && I.Shaped(x2) && i < to && off + to <= MAX
    requires F.Counted(g, d0, x0, d1, x1, off / BSIZE, F.BlocksEnd(off, i))
    requires F.Counted(g, d1, x1, d2, x2, (off + i) / BSIZE, F.BlocksEnd(off + i, to - i))
    ensures F.Counted(g, d0, x0, d2, x2, off / BSIZE, F.BlocksEnd(off, to))
  {
    hide F.Counted, F.BlocksEnd;
    Ends(off, i, to);
    EndsWithin(off, to);
    F.CountedMore(g, d0, x0, d1, x1, d2, x2, off / BSIZE, F.BlocksEnd(off, i), (off + i) / BSIZE, F.BlocksEnd(off, to));
  }

  /** If the next piece cannot be mapped, the whole range cannot. */
  lemma NextCannot(g: I.Geo, d0: I.Disk, x0: I.Inode, d1: I.Disk, x1: I.Inode, off: nat, i: nat, to: nat, all: nat)
    requires I.Shaped(x0) && I.Shaped(x1) && i < to <= all && off + all <= MAX
    requires F.Counted(g, d0, x0, d1, x1, off / BSIZE, F.BlocksEnd(off, i))
    requires !F.CanMap(g, d1, x1, (off + i) / BSIZE, F.BlocksEnd(off + i, to - i))
    ensures !F.CanMap(g, d0, x0, off / BSIZE, F.BlocksEnd(off, all))
  {
    hide F.Counted, F.BlocksEnd, F.CanMap;
    Ends(off, i, to);
    Ends(off, to, all);
    EndsWithin(off, all);
    var lo, hi := off / BSIZE, F.BlocksEnd(off, to);
    F.NeededMore(g, d0, x0, d1, x1, lo, F.BlocksEnd(off, i), (off + i) / BSIZE, hi);
    if F.CanMap(g, d0, x0, lo, F.BlocksEnd(off, all)) { F.CanMapLess(g, d0, x0, lo, hi, F.BlocksEnd(off, all)); }
  }

  /** The pieces make up all that happens to the disk, and a crash in any of them leaves whole pieces. */
  ghost predicate CrashSafe(l: R.Layout, d0: B.Disk, d: B.Disk, ps: seq<Piece>, k: nat, g: I.Geo,
                            n0: seq<I.Inode>, i: nat, off: nat, src: seq<Byte>)
    requires I.AllShaped(n0) && i < |n0| && off <= n0[i].size
  {
    Chain(l, d0, ps, k, d) && forall q :: 0 <= q < |ps| ==> PieceSafe(l, d0, ps[q], q, g, n0, i, off, src)
  }

  /** After j turns of the loop, on the disk d with inodes n. */
  ghost predicate SoFar(l: R.Layout, d0: B.Disk, d: B.Disk, ps: seq<Piece>, k: nat, g: I.Geo,
                        n0: seq<I.Inode>, n: seq<I.Inode>, i: nat, off: nat, src: seq<Byte>)
  {
    var at := Cut(|ps|, |src|);
    && I.AllShaped(n0) && I.AllShaped(n) && i < |n0| == |n|
    && (if ps == [] then d == d0 && n == n0
        else off <= n0[i].size && Chain(l, d0, ps, k, d) && k == Writes(l, ps[|ps| - 1]))
    && n[i].size == (if ps != [] && off + at > n0[i].size then off + at else n0[i].size as int)
    && (off <= n0[i].size ==>
          PrefixHeld(l, d0, d, g, n0, n, i, off, src, at) && CrashSafe(l, d0, d, ps, k, g, n0, i, off, src))
    && F.Counted(g, V.Sectors(l, d0, g.size), n0[i], V.Sectors(l, d, g.size), n[i], off / BSIZE, F.BlocksEnd(off, at))
    && (F.HoleFree(V.Sectors(l, d0, g.size), n0[i]) ==> F.HoleFree(V.Sectors(l, d, g.size), n[i]))
  }

  lemma SoFarStart(l: R.Layout, d: B.Disk, g: I.Geo, n0: seq<I.Inode>, i: nat, off: nat, src: seq<Byte>)
    requires I.Consistent(g, V.Sectors(l, d, g.size), n0) && V.AllStoredBut(g, V.Sectors(l, d, g.size), n0, i)
    requires i < |n0|
    ensures SoFar(l, d, d, [], 0, g, n0, n0, i, off, src)
  {
    hide V.Sectors, I.Marked, I.Unique, I.MetaInUse, I.Complete, I.Stored, F.HoleFree, V.AllStoredBut, PrefixHeld,
         F.Counted;
    if off <= n0[i].size { StartHeld(l, d, g, n0, i, off, src); }
    F.CountedStart(g, V.Sectors(l, d, g.size), n0[i], off / BSIZE);
  }

  /** One more piece has been started: it may have stopped anywhere. */
  lemma SoFarStopped(l: R.Layout, d0: B.Disk, ps: seq<Piece>, k: nat, g: I.Geo, n0: seq<I.Inode>, i: nat,
                     off: nat, src: seq<Byte>, p: Piece, k': nat, d': B.Disk)
    requires Start(|ps|) < |src| && I.AllShaped(n0) && I.AllShaped(p.before) && i < |n0| == |p.before|
    requires PieceOk(l, p) && k' <= Writes(l, p) && d' == Stopped(l, p, k')
    requires I.AllShaped(p.after) && |p.after| == |p.before| && off + Start(|ps|) <= p.before[i].size
    requires V.WriteSafe(l, p.disk, p.tx, g, p.before, p.after, i, off + Start(|ps|),
                         src[Start(|ps|)..Cut(|ps| + 1, |src|)])
    requires SoFar(l, d0, p.disk, ps, k, g, n0, p.before, i, off, src)
    ensures off <= n0[i].size && CrashSafe(l, d0, d', ps + [p], k', g, n0, i, off, src)
  {
    hide V.Sectors, V.WriteSafe, F.HoleFree, F.Counted, F.BlocksEnd, PieceSafe, PrefixHeld, Writes, Stopped;
    ChainNext(l, d0, ps, k, p, k', d');
    PieceIsSafe(l, d0, p, |ps|, g, n0, i, off, src);
    var qs := ps + [p];
    forall q | 0 <= q < |qs|
      ensures PieceSafe(l, d0, qs[q], q, g, n0, i, off, src)
    {
      if q < |ps| { assert qs[q] == ps[q]; }
    }
  }

  /** One more piece has been written. */
  lemma SoFarNext(l: R.Layout, d0: B.Disk, ps: seq<Piece>, k: nat, g: I.Geo, n0: seq<I.Inode>, i: nat,
                  off: nat, src: seq<Byte>, p: Piece, k': nat, d': B.Disk)
    requires Start(|ps|) < |src| && I.AllShaped(n0) && I.AllShaped(p.before) && i < |n0| == |p.before|
    requires PieceOk(l, p) && k' == Writes(l, p) && d' == Stopped(l, p, k')
    requires I.AllShaped(p.after) && |p.after| == |p.before| && off + Start(|ps|) <= p.before[i].size
    requires V.WriteSafe(l, p.disk, p.tx, g, p.before, p.after, i, off + Start(|ps|),
                         src[Start(|ps|)..Cut(|ps| + 1, |src|)])
    requires V.WrittenOrNot(l, p.disk, d', false, g, p.before, p.after, i, off + Start(|ps|),
                            src[Start(|ps|)..Cut(|ps| + 1, |src|)])
    requires var at, to := off + Start(|ps|), off + Cut(|ps| + 1, |src|);
             && to <= MAX && p.after[i].size == (if to > p.before[i].size then to else p.before[i].size as int)
             && F.Counted(g, V.Sectors(l, p.disk, g.size), p.before[i], V.Sectors(l, d', g.size), p.after[i],
                          at / BSIZE, F.BlocksEnd(at, to - at))
    requires F.HoleFree(V.Sectors(l, p.disk, g.size), p.before[i]) ==> F.HoleFree(V.Sectors(l, d', g.size), p.after[i])
    requires SoFar(l, d0, p.disk, ps, k, g, n0, p.before, i, off, src)
    ensures SoFar(l, d0, d', ps + [p], k', g, n0, p.after, i, off, src)
  {
    hide V.Sectors, V.WriteSafe, V.WrittenOrNot, F.HoleFree, F.Counted, F.BlocksEnd, PrefixHeld, Writes, Stopped;
    var at, to := Start(|ps|), Cut(|ps| + 1, |src|);
    SoFarStopped(l, d0, ps, k, g, n0, i, off, src, p, k', d');
    PieceHeld(l, d0, p.disk, d', false, g, n0, p.before, p.after, i, off, src, at, to);
    NextCounted(g, V.Sectors(l, d0, g.size), n0[i], V.Sectors(l, p.disk, g.size), p.before[i],
                V.Sectors(l, d', g.size), p.after[i], off, at, to);
  }

  /**
   filewrite: n is the return value, off' the new offset of the file.  A crash at any moment
   leaves the file with a number of whole pieces written and every other file as it was.
   When the call returns, exactly the pieces that end within the largest file have been
   written; the result is -1 if that is not all of src, although pieces may have been
   written.  On a volume of up to 12 bitmap blocks it returns exactly when there are blocks
   for what it writes.
   */
  method Write(lg: L.Log, f: F.File, src: seq<Byte>, off: nat)
    returns (r: B.Outcome, n: int, off': nat, ghost ps: seq<Piece>, ghost k: nat)
    requires Ready(lg, f) && off < 0x1_0000_0000 && |src| < 0x8000_0000
    modifies f, lg, lg.bc, lg.bc.buf, lg.bc.next, lg.bc.prev
    ensures off > old(f.size) ==> ps == [] && lg.bc.disk == old(lg.bc.disk)
    ensures off <= old(f.size) ==>
              && I.AllShaped(old(f.nodes)) && f.inum < |old(f.nodes)|
              && CrashSafe(lg.l, old(lg.bc.disk), lg.bc.disk, ps, k, f.g, old(f.nodes), f.inum, off, src)
    ensures r.Done? ==>
              && Ready(lg, f) && off' == off + Whole(old(f.size), off, |src|)
              && n == (if Whole(old(f.size), off, |src|) == |src| then |src| else -1)
              && (off > old(f.size) ==> f.nodes == old(f.nodes))
              && (off <= old(f.size) ==>
                    && I.AllShaped(f.nodes) && |f.nodes| == |old(f.nodes)| && Whole(old(f.size), off, |src|) <= |src|
                    && PrefixHeld(lg.l, old(lg.bc.disk), lg.bc.disk, f.g, old(f.nodes), f.nodes, f.inum, off, src,
                                  Whole(old(f.size), off, |src|)))
    ensures var hi := F.BlocksEnd(off, Whole(old(f.size), off, |src|));
            && (r.Done? ==> F.CanMap(f.g, old(f.disk), old(f.Me()), off / BSIZE, hi))
            && (f.g.size <= 12 * BPB && lg.l.size >= R.LOGSIZE ==>
                  (r.Done? <==> F.CanMap(f.g, old(f.disk), old(f.Me()), off / BSIZE, hi)))
  {
    hide Ready, V.Sectors, V.Recovered, V.WrittenOrNot, V.WriteSafe, F.BlocksEnd, F.CanMap, F.HoleFree, F.WriteSectors,
         F.Counted, V.LogHasRoom, Chain, CrashSafe, PrefixHeld, V.AllStoredBut, PieceOk, Writes, Stopped, Whole, Start,
         F.Spared, F.Bytes, I.Marked, I.Unique, I.MetaInUse, I.Complete, I.Stored, I.Replay, V.LogArea;
    ReadyFacts(lg, f);
    ghost var d0, n0, f0, x0, whole := lg.bc.disk, f.nodes, f.disk, f.Me(), Whole(f.size, off, |src|);
    WholeWithin(f.size, off, |src|);
    SoFarStart(lg.l, d0, f.g, n0, f.inum, off, src);
    StartFacts(0, 0);
    var i := 0;
    off', ps, k, r := off, [], 0, B.Done;
    while i < |src|
      invariant r.Done? && Ready(lg, f) && off' == off + i && i == Cut(|ps|, |src|) <= whole
      invariant SoFar(lg.l, d0, lg.bc.disk, ps, k, f.g, n0, f.nodes, f.inum, off, src)
      decreases |src| - i
    {
      var m := if |src| - i > PIECE then PIECE else |src| - i;
      ghost var j, d1, x1 := |ps|, f.disk, f.Me();
      ReadyFacts(lg, f);
      StartFacts(j, 0);
      assert i == Start(j) && i + m == Cut(j + 1, |src|);
      WholeExactly(x0.size, f.size, off, j, |src|);
      var w;
      ghost var p, k1;
      r, w, p, k1 := WritePiece(lg, f, src[i..i + m], off');
      if !r.Done? {
        SoFarStopped(lg.l, d0, ps, k, f.g, n0, f.inum, off, src, p, k1, lg.bc.disk);
        if f.g.size <= 12 * BPB && lg.l.size >= R.LOGSIZE {
          V.FileWriteFits(lg.l, f.g, off', m);
          NextCannot(f.g, f0, x0, d1, x1, off, i, i + m, whole);
        }
        ps, k := ps + [p], k1;
        return r, -1, off', ps, k;
      }
      if w < 0 {
        break;
      }
      ReadyFacts(lg, f);
      SoFarNext(lg.l, d0, ps, k, f.g, n0, f.inum, off, src, p, k1, lg.bc.disk);
      ps, k := ps + [p], k1;
      off', i := off' + w, i + w;
    }
    ReadyFacts(lg, f);
    F.CouldMap(f.g, f0, x0, f.disk, f.Me(), off / BSIZE, F.BlocksEnd(off, i));
    n := if i == |src| then |src| else -1;
  }
}
