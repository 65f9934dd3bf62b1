/**
 The file layer over the redo log: the block updates of a file operation, logged and
 committed as one transaction, reach the disk all together or not at all.
 */
module Volume {
  import opened Bitmap
  import opened Blocks
  import opened Counting
  import B = BufferCache
  import R = RedoLog
  import A = LogAdmission
  import L = Log
  import I = Inodes
  import F = FileLayer

  /** The log blocks among the first n blocks of the volume. */
  ghost function LogArea(l: R.Layout, n: nat): set<nat> {
    set s: nat | s < n && R.InLog(l, B.Addr(l.dev, s))
  }

  /** The first n sectors of the log's device, as the file layer numbers them. */
  function Sectors(l: R.Layout, d: B.Disk, n: nat): I.Disk {
    map a | a in d && a.dev == l.dev && a.sector < n :: a.sector := d[a]
  }

  lemma SectorAt(l: R.Layout, d: B.Disk, n: nat, s: nat)
    ensures s in Sectors(l, d, n) <==> B.Addr(l.dev, s) in d && s < n
    ensures s in Sectors(l, d, n) ==> Sectors(l, d, n)[s] == d[B.Addr(l.dev, s)]
  {
    var a := B.Addr(l.dev, s);
    assert a in d && s < n ==> a.sector in Sectors(l, d, n);
  }

  lemma UpdatedSectors(l: R.Layout, d: B.Disk, n: nat, s: nat, data: Block)
    requires B.Addr(l.dev, s) in d && s < n
    ensures Sectors(l, d[B.Addr(l.dev, s) := data], n) == Sectors(l, d, n)[s := data]
  {
    var d' := d[B.Addr(l.dev, s) := data];
    forall t: nat
      ensures t in Sectors(l, d', n) <==> t in Sectors(l, d, n)[s := data]
      ensures t in Sectors(l, d', n) ==> Sectors(l, d', n)[t] == Sectors(l, d, n)[s := data][t]
    {
      SectorAt(l, d, n, t);
      SectorAt(l, d', n, t);
    }
  }

  /** Two volumes that differ in the given blocks at most. */
  ghost predicate SameOutside(d: I.Disk, d': I.Disk, rs: set<nat>) {
    d'.Keys == d.Keys && forall b :: b in d && b !in rs ==> d'[b] == d[b]
  }

  /** A device whose home sectors are those of another. */
  lemma HomeDecides(l: R.Layout, d: B.Disk, d': B.Disk, n: nat)
    requires R.HasLog(l, d) && R.HasLog(l, d') && R.Home(l, d') == R.Home(l, d)
    ensures SameOutside(Sectors(l, d, n), Sectors(l, d', n), LogArea(l, n))
  {
    forall s: nat
      ensures s in Sectors(l, d', n) <==> s in Sectors(l, d, n)
      ensures s in Sectors(l, d, n) && s !in LogArea(l, n) ==> Sectors(l, d', n)[s] == Sectors(l, d, n)[s]
    {
      SectorAt(l, d, n, s);
      SectorAt(l, d', n, s);
      var a := B.Addr(l.dev, s);
      if s in LogArea(l, n) {
        assert a == R.LogBlock(l, s - l.start);
      } else if s < n {
        assert a in R.Home(l, d) <==> a in d;
        assert a in R.Home(l, d') <==> a in d';
        assert a in d ==> R.Home(l, d)[a] == d[a] && R.Home(l, d')[a] == d'[a];
      }
    }
  }

  // ---------- Files and the log area ----------

  /** No file has a block in the given area, which lies behind the bitmap. */
  ghost predicate Apart(g: I.Geo, d: I.Disk, nodes: seq<I.Inode>, rs: set<nat>)
    requires I.GeoOk(g) && I.AllShaped(nodes)
  {
    && (forall c {:trigger c in rs} :: c in rs ==> I.FirstData(g) <= c)
    && (forall i: nat, s: nat {:trigger I.Ref(d, nodes[i], s)} :: i < |nodes| && s < I.SLOTS ==>
          I.Ref(d, nodes[i], s) as nat !in rs)
  }

  /** The volume d holds the files of f, in memory as on disk, and marks the same blocks. */
  ghost predicate SameFiles(g: I.Geo, d: I.Disk, nodes: seq<I.Inode>, f: I.Disk)
    requires I.AllShaped(nodes)
  {
    && I.Consistent(g, d, nodes) && F.FreeSet(g, d) == F.FreeSet(g, f)
    && forall j: nat {:trigger F.Bytes(d, nodes[j])} {:trigger I.Stored(g, d, nodes, j)} :: j < |nodes| ==>
         F.Bytes(d, nodes[j]) == F.Bytes(f, nodes[j]) && (I.Stored(g, d, nodes, j) <==> I.Stored(g, f, nodes, j))
  }

  lemma RefsOutside(g: I.Geo, d: I.Disk, nodes: seq<I.Inode>, d': I.Disk, rs: set<nat>)
    requires I.Consistent(g, d, nodes) && Apart(g, d, nodes, rs) && SameOutside(d, d', rs)
    ensures I.SameRefs(d, d', nodes) && I.SameData(d, d', nodes)
  {
    hide GetWord, I.Unique, I.MetaInUse;
    forall i: nat, s: nat | i < |nodes| && s < I.SLOTS
      ensures I.Ref(d', nodes[i], s) == I.Ref(d, nodes[i], s)
    {
      assert I.Ref(d, nodes[i], I.NDIRECT) == nodes[i].addrs[I.NDIRECT];
    }
    F.SelfData(g, d, nodes);
  }

  lemma BitsOutside(g: I.Geo, d: I.Disk, nodes: seq<I.Inode>, d': I.Disk, rs: set<nat>, c: nat)
    requires I.Consistent(g, d, nodes) && Apart(g, d, nodes, rs) && SameOutside(d, d', rs) && c < g.size
    ensures I.InUse(g, d', c) == I.InUse(g, d, c)
  {
    hide GetBit, I.Marked, I.Unique, I.MetaInUse;
    I.BitmapInDisk(g, d, nodes, c);
  }

  /** Whatever happens in an area where no file has a block, the files stay. */
  lemma FilesOutside(g: I.Geo, d: I.Disk, nodes: seq<I.Inode>, d': I.Disk, rs: set<nat>)
    requires I.Consistent(g, d, nodes) && Apart(g, d, nodes, rs) && SameOutside(d, d', rs)
    ensures SameFiles(g, d', nodes, d)
  {
    hide GetWord, GetBit, I.InUse, I.GetInode, F.Bytes;
    RefsOutside(g, d, nodes, d', rs);
    forall c: nat | c < g.size
      ensures I.InUse(g, d', c) == I.InUse(g, d, c)
    {
      BitsOutside(g, d, nodes, d', rs, c);
    }
    F.SameFree(g, d, d');
    forall j: nat | j < |nodes|
      ensures F.Bytes(d', nodes[j]) == F.Bytes(d, nodes[j]) && (I.Stored(g, d', nodes, j) <==> I.Stored(g, d, nodes, j))
    {
      BytesOutside(g, d, nodes, d', j);
      I.MetaBlocks(g, j, 0);
    }
  }

  lemma BytesOutside(g: I.Geo, d: I.Disk, nodes: seq<I.Inode>, d': I.Disk, j: nat)
    requires I.AllShaped(nodes) && I.SameRefs(d, d', nodes) && I.SameData(d, d', nodes) && j < |nodes|
    ensures F.Bytes(d', nodes[j]) == F.Bytes(d, nodes[j])
  {
    hide I.Ref;
    forall n: nat {:trigger I.SlotOf(n)} | n < I.MAXFILE
      ensures I.Ref(d', nodes[j], I.SlotOf(n)) == I.Ref(d, nodes[j], I.SlotOf(n))
      ensures I.Ref(d, nodes[j], I.SlotOf(n)) != 0 ==> I.SameBlock(d, d', I.Ref(d, nodes[j], I.SlotOf(n)))
    {
      F.RefSame(d, d', nodes, j, I.SlotOf(n));
    }
    F.BytesKept(d, nodes[j], d', nodes[j]);
  }

  /**
   fs1_balloc takes the lowest free block.  On a volume cut off at n it takes the same block
   as on the whole one, unless every block below n is in use.
   */
  lemma LowestIsSame(g: I.Geo, d: I.Disk, n: nat, b: nat)
    requires n <= g.size && b < g.size && I.BBlock(g, b) in d
    requires !I.InUse(g, d, b) && forall c: nat :: c < b ==> I.InUse(g, d, c)
    ensures var cut := g.(size := n);
            && (b < n <==> exists c: nat :: c < n && !I.InUse(cut, d, c))
            && (b < n ==> !I.InUse(cut, d, b) && forall c: nat :: c < b ==> I.InUse(cut, d, c))
            && (b < n ==> I.Taken(cut, d, b) == I.Taken(g, d, b))
  {
    var cut := g.(size := n);
    forall c: nat | c < n
      ensures I.InUse(cut, d, c) == I.InUse(g, d, c)
    {
    }
  }

  // ---------- Updates through the log ----------

  /** Every update is to one of the first n sectors of the device and outside the log. */
  ghost predicate UpdatesFit(l: R.Layout, d: B.Disk, n: nat, us: seq<I.Update>) {
    forall i :: 0 <= i < |us| ==>
      us[i].sector < n && us[i].sector !in LogArea(l, n) && B.Addr(l.dev, us[i].sector) in d
  }

  lemma ReplayNext(d: I.Disk, us: seq<I.Update>, k: nat)
    requires k < |us|
    ensures I.Replay(d, us[..k + 1]) == I.Replay(d, us[..k])[us[k].sector := us[k].data]
  {
    assert us[..k + 1][..k] == us[..k];
  }

  /** A log with nothing in it, and no buffer held. */
  ghost predicate Idle(lg: L.Log)
    reads lg, lg.bc, lg.bc.buf, lg.bc.next, lg.bc.prev
  {
    lg.Valid() && lg.Pinned() && lg.lh == [] && lg.Cleared() && L.NoBusy(lg.bc.buf[..])
  }

  /** Nobody uses the log. */
  ghost predicate Quiet(lg: L.Log)
    reads lg, lg.bc, lg.bc.buf, lg.bc.next, lg.bc.prev
  {
    Idle(lg) && lg.State() == A.INITIAL
  }

  /** One operation has begun and logged nothing yet. */
  ghost predicate Begun(lg: L.Log)
    reads lg, lg.bc, lg.bc.buf, lg.bc.next, lg.bc.prev
  {
    Idle(lg) && lg.State() == A.Begin(A.INITIAL)
  }

  lemma IdleFacts(lg: L.Log)
    requires Idle(lg)
    ensures L.AtRest(lg.bc.buf[..], lg.bc.disk) && lg.bc.Contents() == lg.bc.disk && R.HasLog(lg.l, lg.bc.disk)
  {
    L.IdleView(lg.bc.buf[..], lg.bc.disk);
    assert L.LoggedAddrs(lg.l, []) == {};
  }

  /** The sectors that a sequence of updates names. */
  ghost function Touched(us: seq<I.Update>): set<nat> { set k | 0 <= k < |us| :: us[k].sector }

  /** log_write does not panic on any of the updates. */
  ghost predicate LogTakes(us: seq<I.Update>, outstanding: int, size: int) { TakesFirst(us, |us|, outstanding, size) }

  ghost predicate TakesFirst(us: seq<I.Update>, n: nat, outstanding: int, size: int)
    requires n <= |us|
  {
    forall k :: 0 <= k < n ==> Takes(us, k, outstanding, size)
  }

  /** log_write does not panic on update k: an operation is open and the earlier ones have left room. */
  ghost predicate Takes(us: seq<I.Update>, k: nat, outstanding: int, size: int)
    requires k < |us|
  {
    outstanding >= 1 && |Touched(us[..k])| < R.LOGSIZE && |Touched(us[..k])| < size - 1
  }

  ghost predicate SameMembers(lh: seq<Word>, t: set<nat>) { forall x: int :: x in lh <==> x in t }

  lemma OneMoreMember(lh: seq<Word>, lh': seq<Word>, t: set<nat>, w: Word)
    requires SameMembers(lh, t) && lh' == if w in lh then lh else lh + [w]
    ensures SameMembers(lh', t + {w as nat})
  {
  }

  lemma TouchedNext(us: seq<I.Update>, k: nat)
    requires k < |us|
    ensures Touched(us[..k + 1]) == Touched(us[..k]) + {us[k].sector}
  {
    forall x | x in Touched(us[..k + 1])
      ensures x in Touched(us[..k]) || x == us[k].sector
    {
      var i :| 0 <= i < k + 1 && us[..k + 1][i].sector == x;
      assert i < k ==> us[..k][i].sector == x;
    }
    forall x | x in Touched(us[..k])
      ensures x in Touched(us[..k + 1])
    {
      var i :| 0 <= i < k && us[..k][i].sector == x;
      assert us[..k + 1][i].sector == x;
    }
    assert us[..k + 1][k].sector == us[k].sector;
  }

  lemma SameCount(lh: seq<Word>, t: set<nat>)
    requires forall i, j :: 0 <= i < j < |lh| ==> lh[i] != lh[j]
    requires SameMembers(lh, t)
    ensures |lh| == |t|
  {
    var s: seq<int>, u: set<int> := lh, t;
    DistinctCount(s);
    assert (set x | x in s) == u;
  }

  /** Updates to few enough sectors are taken, and can be committed. */
  lemma {:induction false} FewFit(us: seq<I.Update>, bs: set<nat>, outstanding: int, size: int)
    requires forall k :: 0 <= k < |us| ==> us[k].sector in bs
    requires outstanding >= 1 && |bs| < R.LOGSIZE && |bs| < size - 1
    ensures LogTakes(us, outstanding, size) && |Touched(us)| < B.NBUF
  {
    forall k | 0 <= k <= |us|
      ensures |Touched(us[..k])| <= |bs|
    {
      Subset(Touched(us[..k]), bs);
    }
    assert us[..|us|] == us;
  }

  /**
   The updates, each through its buffer and log_write; the device stays as it is.  It gets
   through exactly when log_write does not panic.
   */
  method LogUpdates(lg: L.Log, us: seq<I.Update>, ghost n: nat) returns (r: B.Outcome)
    requires Idle(lg) && n <= 0x1_0000_0000 && UpdatesFit(lg.l, lg.bc.disk, n, us)
    modifies lg`lh, lg.bc`lru, lg.bc`stamp, lg.bc`clock, lg.bc.buf, lg.bc.next, lg.bc.prev
    ensures r.Done? <==> LogTakes(us, lg.outstanding, lg.l.size)
    ensures r.Done? ==> lg.Valid() && lg.Pinned() && L.NoBusy(lg.bc.buf[..]) && L.AtRest(lg.bc.buf[..], lg.bc.disk)
    ensures r.Done? ==> Sectors(lg.l, lg.bc.Contents(), n) == I.Replay(Sectors(lg.l, lg.bc.disk, n), us)
    ensures r.Done? ==> |lg.lh| == |Touched(us)|
  {
    hide B.Linked, B.Consistent, B.View, L.AtRest, L.NoBusy, Sectors, Touched, L.DirtyAddrs, L.LoggedAddrs, SameMembers,
         I.Replay, R.HasLog, R.Loggable;
    IdleFacts(lg);
    r := B.Done;
    assert us[..0] == [];
    StartEmpty(Sectors(lg.l, lg.bc.disk, n));
    for k := 0 to |us|
      invariant r.Done? && lg.Valid() && lg.Pinned() && L.NoBusy(lg.bc.buf[..]) && L.AtRest(lg.bc.buf[..], lg.bc.disk)
      invariant Sectors(lg.l, lg.bc.Contents(), n) == I.Replay(Sectors(lg.l, lg.bc.disk, n), us[..k])
      invariant SameMembers(lg.lh, Touched(us[..k])) && TakesFirst(us, k, lg.outstanding, lg.l.size)
    {
      ghost var view, lh := lg.bc.Contents(), lg.lh;
      L.ViewKeys(lg.bc.buf[..], lg.bc.disk);
      SameCount(lg.lh, Touched(us[..k]));
      TouchedNext(us, k);
      r := lg.Update(B.Addr(lg.l.dev, us[k].sector), us[k].data);
      assert r.Done? <==> Takes(us, k, lg.outstanding, lg.l.size);
      if !r.Done? {
        return;
      }
      OneMoreMember(lh, lg.lh, Touched(us[..k]), us[k].sector);
      UpdatedSectors(lg.l, view, n, us[k].sector, us[k].data);
      ReplayNext(Sectors(lg.l, lg.bc.disk, n), us, k);
    }
    assert us[..|us|] == us;
    SameCount(lg.lh, Touched(us));
  }

  lemma StartEmpty(d: I.Disk)
    ensures SameMembers([], Touched([])) && I.Replay(d, []) == d && Touched([]) == {}
  {
  }

  // ---------- A crash at any point ----------

  /**
   The disk after a transaction stopped after m of its sector writes, recovery was cut short
   once for each element of crashes, and then ran to its end.
   */
  ghost function Recovered(l: R.Layout, d: B.Disk, tx: R.Tx, m: nat, crashes: seq<nat>): (r: B.Disk)
    requires R.HasLog(l, d) && R.Count(d[R.LogBlock(l, 0)]) == 0 && R.TxFits(l, d, tx) && m <= R.WriteCount(tx)
    ensures R.Clean(l, r, R.Surviving(l, d, tx, m))
  {
    R.CrashAtomic(l, d, tx, m, crashes);
    R.Recover(l, R.Attempts(l, R.Apply(d, R.TxWrites(l, d, tx)[..m]), R.Surviving(l, d, tx, m), crashes))
  }

  /** The disk holds the files of before, or those of after. */
  ghost predicate Holds(l: R.Layout, r: B.Disk, before: bool, g: I.Geo,
                        n0: seq<I.Inode>, f0: I.Disk, n1: seq<I.Inode>, f1: I.Disk)
    requires I.AllShaped(n0) && I.AllShaped(n1)
  {
    if before then SameFiles(g, Sectors(l, r, g.size), n0, f0) else SameFiles(g, Sectors(l, r, g.size), n1, f1)
  }

  /** A disk whose home sectors are those of d has its files. */
  lemma HomeKeepsFiles(l: R.Layout, d: B.Disk, r: B.Disk, g: I.Geo, nodes: seq<I.Inode>)
    requires R.HasLog(l, d) && R.Clean(l, r, R.Home(l, d))
    requires I.Consistent(g, Sectors(l, d, g.size), nodes) && Apart(g, Sectors(l, d, g.size), nodes, LogArea(l, g.size))
    ensures SameFiles(g, Sectors(l, r, g.size), nodes, Sectors(l, d, g.size))
  {
    hide Sectors, LogArea, Apart, SameFiles, I.Consistent, R.Home;
    HomeDecides(l, d, r, g.size);
    FilesOutside(g, Sectors(l, d, g.size), nodes, Sectors(l, r, g.size), LogArea(l, g.size));
  }

  lemma NothingWritten(l: R.Layout, d: B.Disk)
    requires R.HasLog(l, d)
    ensures R.TxFits(l, d, R.Tx([], [])) && R.TxWrites(l, d, R.Tx([], [])) == [] && R.Apply(d, []) == d
  {
  }

  lemma SparedIsApart(g: I.Geo, d: I.Disk, nodes: seq<I.Inode>, rs: set<nat>)
    requires I.GeoOk(g) && I.AllShaped(nodes) && F.Spared(g, d, nodes, rs)
    ensures Apart(g, d, nodes, rs)
  {
  }

  /** Every update names a block that is there in the end. */
  lemma {:induction false} ReplayedThere(d: I.Disk, us: seq<I.Update>, k: nat)
    requires k < |us|
    ensures us[k].sector in I.Replay(d, us)
    decreases |us|
  {
    if k < |us| - 1 { ReplayedThere(d, us[..|us| - 1], k); }
  }

  /**
   The pending updates of a file start from the volume on the device; n0 are its inodes then.
   No file has a block in the log, and the log blocks within the volume are marked in use;
   there are none if the volume is taken to end where the log begins.
   */
  ghost predicate Pending(lg: L.Log, f: F.File, n0: seq<I.Inode>)
    reads lg, lg.bc, f
  {
    && f.Owned() && f.start == Sectors(lg.l, lg.bc.disk, f.g.size) && f.reserved == LogArea(lg.l, f.g.size)
    && I.Consistent(f.g, f.start, n0) && F.Spared(f.g, f.start, n0, f.reserved)
  }

  lemma PendingFits(lg: L.Log, f: F.File, n0: seq<I.Inode>)
    requires Pending(lg, f, n0)
    ensures UpdatesFit(lg.l, lg.bc.disk, f.g.size, f.issued)
  {
    hide I.Marked, I.Unique, I.MetaInUse, F.Spared, Sectors, LogArea, GetBit;
    forall k | 0 <= k < |f.issued|
      ensures f.issued[k].sector < f.g.size && B.Addr(lg.l.dev, f.issued[k].sector) in lg.bc.disk
    {
      ReplayedThere(f.start, f.issued, k);
      SectorAt(lg.l, lg.bc.disk, f.g.size, f.issued[k].sector);
    }
  }

  /**
   The updates that file operations have made since the volume was last on the device,
   committed as one transaction tx.  Wherever the machine stops and however often recovery
   is cut short, the files are those of before or those of after; a commit that returns has
   put the files of after on the device, and operations may begin again.  It returns exactly
   when log_write takes the updates and they are to fewer sectors than there are buffers.
   This is an operation from its first log_write on to the end of end_op.
   */
  method CommitFile(lg: L.Log, f: F.File, ghost n0: seq<I.Inode>) returns (r: B.Outcome, ghost tx: R.Tx, ghost k: nat)
    requires Begun(lg) && Pending(lg, f, n0)
    modifies lg, lg.bc, lg.bc.buf, lg.bc.next, lg.bc.prev
    ensures var d := old(lg.bc.disk);
            && R.HasLog(lg.l, d) && R.Count(d[R.LogBlock(lg.l, 0)]) == 0 && R.TxFits(lg.l, d, tx)
            && k <= |R.TxWrites(lg.l, d, tx)| && lg.bc.disk == R.Apply(d, R.TxWrites(lg.l, d, tx)[..k])
            && (forall m: nat, crashes: seq<nat> {:trigger Recovered(lg.l, d, tx, m, crashes)} ::
                  m <= R.WriteCount(tx) ==>
                    Holds(lg.l, Recovered(lg.l, d, tx, m, crashes), m <= |tx.secs|, f.g, n0, f.start, f.nodes, f.disk))
    ensures r.Done? ==> Quiet(lg) && k == |R.TxWrites(lg.l, old(lg.bc.disk), tx)|
    ensures r.Done? ==> SameFiles(f.g, Sectors(lg.l, lg.bc.disk, f.g.size), f.nodes, f.disk)
    ensures r.Done? ==> SameOutside(f.disk, Sectors(lg.l, lg.bc.disk, f.g.size), LogArea(lg.l, f.g.size))
    ensures r.Done? <==> LogTakes(f.issued, 1, lg.l.size) && |Touched(f.issued)| < B.NBUF
    ensures f.issued == [] ==> tx.secs == [] && lg.bc.disk == old(lg.bc.disk)
  {
    hide Sectors, LogArea, Apart, SameFiles, SameOutside, R.After, R.Home, R.Apply, B.Linked, B.Consistent, B.View,
         UpdatesFit, Recovered, F.Spared, LogTakes, Touched, I.Marked, I.Unique, I.MetaInUse, I.Complete;
    ghost var d, l := lg.bc.disk, lg.l;
    IdleFacts(lg);
    PendingFits(lg, f, n0);
    SparedIsApart(f.g, f.start, n0, f.reserved);
    SparedIsApart(f.g, f.disk, f.nodes, f.reserved);
    tx, k := R.Tx([], []), 0;
    NothingWritten(l, d);
    ghost var view := lg.bc.Contents();
    r := LogUpdates(lg, f.issued, f.g.size);
    if r.Done? {
      view := lg.bc.Contents();
      lg.CommitStart(L.Snap(lg.bc));
      tx := R.Tx(lg.lh, L.BlocksAt(l, view, lg.lh));
      if f.issued == [] { StartEmpty(f.start); }
      r, k := lg.EndLast();
    }
    forall m: nat, crashes: seq<nat> | m <= R.WriteCount(tx)
      ensures Holds(l, Recovered(l, d, tx, m, crashes), m <= |tx.secs|, f.g, n0, f.start, f.nodes, f.disk)
    {
      if m <= |tx.secs| {
        HomeKeepsFiles(l, d, Recovered(l, d, tx, m, crashes), f.g, n0);
      } else {
        HomeKeepsFiles(l, view, Recovered(l, d, tx, m, crashes), f.g, f.nodes);
      }
    }
    if r.Done? {
      HomeDecides(l, view, lg.bc.disk, f.g.size);
      FilesOutside(f.g, f.disk, f.nodes, Sectors(l, lg.bc.disk, f.g.size), LogArea(l, f.g.size));
    }
  }

  /**
   What recovery finds after a write to file i: every file as it was, or file i overwritten
   and the others as they were, with exactly the missing blocks taken.  The inodes on disk
   are those of these files, except that a write which only filled holes has not stored its
   inode.
   */
  ghost predicate WrittenOrNot(l: R.Layout, d: B.Disk, r: B.Disk, before: bool, g: I.Geo,
                               n0: seq<I.Inode>, n1: seq<I.Inode>, i: nat, off: nat, src: seq<Byte>)
    requires I.AllShaped(n0) && I.AllShaped(n1) && i < |n0| == |n1| && off <= n0[i].size
  {
    var was, now, n := Sectors(l, d, g.size), Sectors(l, r, g.size), if before then n0 else n1;
    && I.Consistent(g, now, n)
    && (forall j: nat {:trigger F.Bytes(now, n[j])} :: j < |n| && j != i ==> F.Bytes(now, n[j]) == F.Bytes(was, n0[j]))
    && AllStoredBut(g, now, n, i)
    && (if before then F.FreeSet(g, now) == F.FreeSet(g, was)
        else |F.FreeSet(g, now)| + F.Needed(was, n0[i], off / BSIZE, F.BlocksEnd(off, |src|)) == |F.FreeSet(g, was)|)
    && F.Bytes(now, n[i]) == (if before then F.Bytes(was, n0[i]) else F.Spliced(F.Bytes(was, n0[i]), off, src))
    && (I.Stored(g, was, n0, i) ==>
          (I.Stored(g, now, n, i) <==>
             before || off + |src| > n0[i].size || F.Addressed(n0[i], off / BSIZE, F.BlocksEnd(off, |src|))))
  }

  ghost predicate AllStoredBut(g: I.Geo, d: I.Disk, nodes: seq<I.Inode>, i: nat) {
    forall j: nat {:trigger I.Stored(g, d, nodes, j)} :: j < |nodes| && j != i ==> I.Stored(g, d, nodes, j)
  }

  /** What fs1_writei does to the volume f0 with inodes n0. */
  ghost predicate Wrote(g: I.Geo, f0: I.Disk, n0: seq<I.Inode>, f1: I.Disk, n1: seq<I.Inode>,
                        i: nat, off: nat, src: seq<Byte>)
    requires I.AllShaped(n0) && I.AllShaped(n1) && i < |n0| == |n1| && off <= n0[i].size
  {
    && F.OthersKept(f0, n0, f1, n1, i) && AllStoredBut(g, f1, n1, i)
    && F.Bytes(f1, n1[i]) == F.Spliced(F.Bytes(f0, n0[i]), off, src)
    && |F.FreeSet(g, f1)| + F.Needed(f0, n0[i], off / BSIZE, F.BlocksEnd(off, |src|)) == |F.FreeSet(g, f0)|
    && (I.Stored(g, f0, n0, i) ==>
          (I.Stored(g, f1, n1, i) <==>
             off + |src| > n0[i].size || F.Addressed(n0[i], off / BSIZE, F.BlocksEnd(off, |src|))))
  }

  lemma WriteAllOrNothing(l: R.Layout, d: B.Disk, r: B.Disk, before: bool, g: I.Geo,
                          n0: seq<I.Inode>, n1: seq<I.Inode>, f1: I.Disk, i: nat, off: nat, src: seq<Byte>)
    requires I.AllShaped(n0) && I.AllShaped(n1) && i < |n0| == |n1| && off <= n0[i].size
    requires Holds(l, r, before, g, n0, Sectors(l, d, g.size), n1, f1) && AllStoredBut(g, Sectors(l, d, g.size), n0, i)
    requires !before ==> Wrote(g, Sectors(l, d, g.size), n0, f1, n1, i, off, src)
    ensures WrittenOrNot(l, d, r, before, g, n0, n1, i, off, src)
  {
    hide Sectors, F.Bytes, F.Spliced, F.OthersKept, I.Consistent, I.Stored, F.FreeSet, F.Needed, F.Addressed;
    if !before {
      forall j: nat | j < |n1| && j != i
        ensures F.Bytes(f1, n1[j]) == F.Bytes(Sectors(l, d, g.size), n0[j])
      {
        F.OtherFilesSame(Sectors(l, d, g.size), n0, f1, n1, i, j);
      }
    }
  }

  /** Nothing that recovery can find after a crash in the transaction is half a write. */
  ghost predicate WriteSafe(l: R.Layout, d: B.Disk, tx: R.Tx, g: I.Geo,
                            n0: seq<I.Inode>, n1: seq<I.Inode>, i: nat, off: nat, src: seq<Byte>)
    requires R.HasLog(l, d) && R.Count(d[R.LogBlock(l, 0)]) == 0 && R.TxFits(l, d, tx)
    requires I.AllShaped(n0) && I.AllShaped(n1) && i < |n0| == |n1| && off <= n0[i].size
  {
    forall m: nat, crashes: seq<nat> {:trigger Recovered(l, d, tx, m, crashes)} :: m <= R.WriteCount(tx) ==>
      WrittenOrNot(l, d, Recovered(l, d, tx, m, crashes), m <= |tx.secs|, g, n0, n1, i, off, src)
  }

  /** A transaction that writes nothing. */
  lemma EmptySafe(l: R.Layout, d: B.Disk, tx: R.Tx, g: I.Geo, n0: seq<I.Inode>, i: nat, off: nat, src: seq<Byte>)
    requires R.HasLog(l, d) && R.Count(d[R.LogBlock(l, 0)]) == 0 && R.TxFits(l, d, tx) && tx.secs == []
    requires I.Consistent(g, Sectors(l, d, g.size), n0) && Apart(g, Sectors(l, d, g.size), n0, LogArea(l, g.size))
    requires AllStoredBut(g, Sectors(l, d, g.size), n0, i) && i < |n0| && off <= n0[i].size
    ensures WriteSafe(l, d, tx, g, n0, n0, i, off, src)
  {
    hide Sectors, LogArea, Apart, SameFiles, I.Marked, I.Unique, I.MetaInUse, I.Complete, R.Home, R.TxFits, R.HasLog,
         Recovered, WrittenOrNot, AllStoredBut;
    forall m: nat, crashes: seq<nat> | m <= R.WriteCount(tx)
      ensures WrittenOrNot(l, d, Recovered(l, d, tx, m, crashes), m <= |tx.secs|, g, n0, n0, i, off, src)
    {
      var r := Recovered(l, d, tx, m, crashes);
      HomeKeepsFiles(l, d, r, g, n0);
      WriteAllOrNothing(l, d, r, true, g, n0, n0, Sectors(l, d, g.size), i, off, src);
    }
  }

  lemma CommittedSafe(l: R.Layout, d: B.Disk, tx: R.Tx, g: I.Geo,
                      n0: seq<I.Inode>, n1: seq<I.Inode>, f1: I.Disk, i: nat, off: nat, src: seq<Byte>)
    requires R.HasLog(l, d) && R.Count(d[R.LogBlock(l, 0)]) == 0 && R.TxFits(l, d, tx)
    requires I.AllShaped(n0) && I.AllShaped(n1) && i < |n0| == |n1| && off <= n0[i].size
    requires forall m: nat, crashes: seq<nat> {:trigger Recovered(l, d, tx, m, crashes)} :: m <= R.WriteCount(tx) ==>
               Holds(l, Recovered(l, d, tx, m, crashes), m <= |tx.secs|, g, n0, Sectors(l, d, g.size), n1, f1)
    requires Wrote(g, Sectors(l, d, g.size), n0, f1, n1, i, off, src) && AllStoredBut(g, Sectors(l, d, g.size), n0, i)
    ensures WriteSafe(l, d, tx, g, n0, n1, i, off, src)
  {
    hide Sectors, Holds, Wrote, AllStoredBut, R.TxFits, R.HasLog, Recovered, WrittenOrNot;
    forall m: nat, crashes: seq<nat> | m <= R.WriteCount(tx)
      ensures WrittenOrNot(l, d, Recovered(l, d, tx, m, crashes), m <= |tx.secs|, g, n0, n1, i, off, src)
    {
      WriteAllOrNothing(l, d, Recovered(l, d, tx, m, crashes), m <= |tx.secs|, g, n0, n1, f1, i, off, src);
    }
  }

  /**
   fs1_writei between begin_op and end_op: a crash at any moment, and any number of
   crashes during recovery, leave the file either as it was or with src written at off, and
   every other file as it was.  When it returns the write is in memory and on the device.
   It returns when there are blocks for the range and sectors enough in the log.
   */
  method WriteFile(lg: L.Log, f: F.File, src: seq<Byte>, off: nat)
    returns (r: B.Outcome, n: int, ghost tx: R.Tx, ghost k: nat, ghost n1: seq<I.Inode>)
    requires Quiet(lg) && Pending(lg, f, f.nodes) && f.disk == f.start && f.issued == []
    requires off < 0x1_0000_0000 && |src| < 0x1_0000_0000
    requires AllStoredBut(f.g, f.disk, f.nodes, f.inum)
    modifies f, lg, lg.bc, lg.bc.buf, lg.bc.next, lg.bc.prev
    ensures var d := old(lg.bc.disk);
            && R.HasLog(lg.l, d) && R.Count(d[R.LogBlock(lg.l, 0)]) == 0 && R.TxFits(lg.l, d, tx)
            && k <= |R.TxWrites(lg.l, d, tx)| && lg.bc.disk == R.Apply(d, R.TxWrites(lg.l, d, tx)[..k])
            && (off > old(f.size) ==> tx.secs == [])
            && (off <= old(f.size) ==>
                  && |n1| == |old(f.nodes)| && I.AllShaped(n1) && I.AllShaped(old(f.nodes)) && f.inum < |n1|
                  && WriteSafe(lg.l, d, tx, f.g, old(f.nodes), n1, f.inum, off, src))
    ensures r.Done? && n == -1 <==> off > old(f.size) || off + |src| > I.MAXFILE * BSIZE
    ensures r.Done? ==> Quiet(lg) && f.Owned()
    ensures r.Done? && n == -1 ==> tx.secs == [] && lg.bc.disk == old(lg.bc.disk) && unchanged(f)
    ensures r.Done? && n != -1 ==> n == |src| && n1 == f.nodes && k == |R.TxWrites(lg.l, old(lg.bc.disk), tx)|
    ensures r.Done? && n != -1 ==>
              && off <= |F.Bytes(old(f.disk), old(f.Me()))|
              && F.Bytes(f.disk, f.Me()) == F.Spliced(F.Bytes(old(f.disk), old(f.Me())), off, src)
              && F.OthersKept(old(f.disk), old(f.nodes), f.disk, f.nodes, f.inum)
              && SameFiles(f.g, Sectors(lg.l, lg.bc.disk, f.g.size), f.nodes, f.disk)
              && SameOutside(f.disk, Sectors(lg.l, lg.bc.disk, f.g.size), LogArea(lg.l, f.g.size))
              && F.Counted(f.g, old(f.disk), old(f.Me()), f.disk, f.Me(), off / BSIZE, F.BlocksEnd(off, |src|))
              && (old(F.HoleFree(f.disk, f.Me())) ==> F.HoleFree(f.disk, f.Me()))
              && f.size == (if off + |src| > old(f.size) then off + |src| else old(f.size) as int)
              && WrittenOrNot(lg.l, old(lg.bc.disk), lg.bc.disk, false, f.g, old(f.nodes), n1, f.inum, off, src)
    ensures off <= old(f.size) && off + |src| <= I.MAXFILE * BSIZE ==>
              var lo, hi := off / BSIZE, F.BlocksEnd(off, |src|);
              && (r.Done? ==> F.CanMap(f.g, old(f.disk), old(f.Me()), lo, hi))
              && (F.CanMap(f.g, old(f.disk), old(f.Me()), lo, hi) ==>
                    (r.Done? <==> LogTakes(f.issued, 1, lg.l.size) && |Touched(f.issued)| < B.NBUF))
              && (F.CanMap(f.g, old(f.disk), old(f.Me()), lo, hi) && LogHasRoom(lg.l, F.WriteSectors(f.g, lo, hi)) ==>
                    r.Done?)
  {
    hide Sectors, LogArea, SameFiles, R.After, R.Home, R.Apply, B.Linked, B.Consistent, B.View, Recovered, SameOutside,
         WrittenOrNot, WriteSafe, Apart, F.Spared, F.Bytes, F.Spliced, F.OthersKept, LogTakes, Touched, F.Extends,
         F.Reach, F.BlocksEnd, I.Marked, I.Unique, I.MetaInUse, I.Complete, I.Stored, F.CanMap, F.FreeSet, F.Needed,
         F.HoleFree, F.WriteSectors, F.Counted, F.Addressed, R.HasLog, R.TxFits, R.TxWrites, L.NoBusy, R.Loggable,
         L.DirtyAddrs, L.LoggedAddrs;
    ghost var d, l, n0 := lg.bc.disk, lg.l, f.nodes;
    IdleFacts(lg);
    tx, k, n1 := R.Tx([], []), 0, n0;
    NothingWritten(l, d);
    SparedIsApart(f.g, f.start, n0, f.reserved);
    var admitted := lg.BeginOp();
    assert admitted;
    var w;
    w, n := f.Writei(src, off);
    r := if w.Panic? then B.Panic else B.Done;
    if w.Done? && n == -1 {
      StartEmpty(f.start);
      NothingTaken(l.size);
      r, tx, k := CommitFile(lg, f, n0);
    } else if w.Done? {
      ghost var lo, hi := off / BSIZE, F.BlocksEnd(off, |src|);
      if LogHasRoom(l, F.WriteSectors(f.g, lo, hi)) {
        UpdatesFew(f, F.Reach(f.g, f.disk, f.Me(), lo, hi) + {I.IBlock(f.inum)});
        F.ReachSize(f.g, f.disk, f.Me(), lo, hi, f.inum);
        FewFit(f.issued, F.Reach(f.g, f.disk, f.Me(), lo, hi) + {I.IBlock(f.inum)}, 1, l.size);
      }
      r, tx, k := CommitFile(lg, f, n0);
      n1 := f.nodes;
      if r.Done? {
        WriteAllOrNothing(l, d, lg.bc.disk, false, f.g, n0, n1, f.disk, f.inum, off, src);
      }
      CommittedSafe(l, d, tx, f.g, n0, n1, f.disk, f.inum, off, src);
      return;
    }
    if off <= old(f.size) { EmptySafe(l, d, tx, f.g, n0, f.inum, off, src); }
  }

  /** The log has room for n sectors, and so has the cache. */
  predicate LogHasRoom(l: R.Layout, n: int) { n < R.LOGSIZE && n < l.size - 1 }

  lemma NothingTaken(size: int)
    ensures LogTakes([], 1, size)
  {
  }

  lemma UpdatesFew(f: F.File, bs: set<nat>)
    requires F.Extends([], f.issued, bs)
    ensures forall k :: 0 <= k < |f.issued| ==> f.issued[k].sector in bs
  {
  }

  /** A write of at most 13 blocks' worth of bytes, as filewrite makes them, spans at most 14 blocks. */
  lemma FileWriteSpan(off: nat, n: nat)
    requires n <= (R.LOGSIZE - 4) / 2 * BSIZE
    ensures F.BlocksEnd(off, n) <= off / BSIZE + 14
  {
  }

  /** So on a volume of up to 12 bitmap blocks it fits a log of LOGSIZE blocks. */
  lemma FileWriteFits(l: R.Layout, g: I.Geo, off: nat, n: nat)
    requires n <= (R.LOGSIZE - 4) / 2 * BSIZE && 0 < g.size <= 12 * BPB && l.size >= R.LOGSIZE
    ensures LogHasRoom(l, F.WriteSectors(g, off / BSIZE, F.BlocksEnd(off, n)))
  {
    FileWriteSpan(off, n);
  }

  // ---------- Truncation ----------

  /** What recovery finds after file i was truncated: every file as it was, or file i empty and its blocks free. */
  ghost predicate EmptiedOrNot(l: R.Layout, d: B.Disk, r: B.Disk, before: bool, g: I.Geo,
                               n0: seq<I.Inode>, n1: seq<I.Inode>, i: nat)
    requires I.AllShaped(n0) && I.AllShaped(n1) && i < |n0| == |n1|
  {
    var was, now, n := Sectors(l, d, g.size), Sectors(l, r, g.size), if before then n0 else n1;
    && I.Consistent(g, now, n)
    && (forall j: nat {:trigger F.Bytes(now, n[j])} :: j < |n| && j != i ==> F.Bytes(now, n[j]) == F.Bytes(was, n0[j]))
    && AllStoredBut(g, now, n, i)
    && F.Bytes(now, n[i]) == (if before then F.Bytes(was, n0[i]) else [])
    && F.FreeSet(g, now) == (if before then F.FreeSet(g, was) else F.FreeSet(g, was) + F.BlocksOf(was, n0[i]))
    && (I.Stored(g, now, n, i) <==> !before || I.Stored(g, was, n0, i))
  }

  lemma TruncateAllOrNothing(l: R.Layout, d: B.Disk, r: B.Disk, before: bool, g: I.Geo,
                             n0: seq<I.Inode>, n1: seq<I.Inode>, f1: I.Disk, i: nat)
    requires I.AllShaped(n0) && I.AllShaped(n1) && i < |n0| == |n1|
    requires Holds(l, r, before, g, n0, Sectors(l, d, g.size), n1, f1) && AllStoredBut(g, Sectors(l, d, g.size), n0, i)
    requires F.OthersKept(Sectors(l, d, g.size), n0, f1, n1, i) && AllStoredBut(g, f1, n1, i) && I.Stored(g, f1, n1, i)
    requires F.Bytes(f1, n1[i]) == []
    requires F.FreeSet(g, f1) == F.FreeSet(g, Sectors(l, d, g.size)) + F.BlocksOf(Sectors(l, d, g.size), n0[i])
    ensures EmptiedOrNot(l, d, r, before, g, n0, n1, i)
  {
    hide Sectors, F.Bytes, F.OthersKept, I.Consistent, I.Stored, F.FreeSet, F.BlocksOf;
    if !before {
      forall j: nat | j < |n1| && j != i
        ensures F.Bytes(f1, n1[j]) == F.Bytes(Sectors(l, d, g.size), n0[j])
      {
        F.OtherFilesSame(Sectors(l, d, g.size), n0, f1, n1, i, j);
      }
    }
  }

  /** Exactly the blocks that were marked free join the free blocks. */
  lemma FreedSet(g: I.Geo, d: I.Disk, nodes: seq<I.Inode>, i: nat, d': I.Disk)
    requires I.Consistent(g, d, nodes) && i < |nodes| && F.BitsFreed(g, d, d', F.BlocksOf(d, nodes[i]))
    ensures F.FreeSet(g, d') == F.FreeSet(g, d) + F.BlocksOf(d, nodes[i])
  {
    hide GetBit, I.InUse, I.Unique, I.MetaInUse;
    forall b | b in F.BlocksOf(d, nodes[i])
      ensures b < g.size
    {
      var s :| 0 <= s < I.SLOTS && I.Ref(d, nodes[i], s) != 0 && I.Ref(d, nodes[i], s) == b;
    }
  }

  /**
   fs1_itrunc between begin_op and end_op: after a crash at any moment and any number of
   crashes during recovery the file is whole or empty, and in the latter case its blocks are
   free; every other file is as it was.
   */
  method TruncateFile(lg: L.Log, f: F.File) returns (r: B.Outcome, ghost tx: R.Tx, ghost k: nat)
    requires Quiet(lg) && Pending(lg, f, f.nodes) && f.disk == f.start && f.issued == []
    requires AllStoredBut(f.g, f.disk, f.nodes, f.inum)
    modifies f, lg, lg.bc, lg.bc.buf, lg.bc.next, lg.bc.prev
    ensures f.Owned() && F.Bytes(f.disk, f.Me()) == []
    ensures F.OthersKept(old(f.disk), old(f.nodes), f.disk, f.nodes, f.inum)
    ensures var d := old(lg.bc.disk);
            && R.HasLog(lg.l, d) && R.Count(d[R.LogBlock(lg.l, 0)]) == 0 && R.TxFits(lg.l, d, tx)
            && k <= |R.TxWrites(lg.l, d, tx)| && lg.bc.disk == R.Apply(d, R.TxWrites(lg.l, d, tx)[..k])
            && (forall m: nat, crashes: seq<nat> {:trigger Recovered(lg.l, d, tx, m, crashes)} ::
                  m <= R.WriteCount(tx) ==>
                    EmptiedOrNot(lg.l, d, Recovered(lg.l, d, tx, m, crashes), m <= |tx.secs|, f.g,
                                 old(f.nodes), f.nodes, f.inum))
    ensures r.Done? ==> Quiet(lg) && SameFiles(f.g, Sectors(lg.l, lg.bc.disk, f.g.size), f.nodes, f.disk)
    ensures r.Done? <==> LogTakes(f.issued, 1, lg.l.size) && |Touched(f.issued)| < B.NBUF
    ensures LogHasRoom(lg.l, (f.g.size - 1) / BPB + 2) ==> r.Done?
  {
    hide Sectors, LogArea, SameFiles, R.After, R.Home, R.Apply, B.Linked, B.Consistent, B.View, Recovered, EmptiedOrNot,
         F.Spared, F.Bytes, F.OthersKept, LogTakes, Touched, F.Extends, F.BitmapBlocks, F.BlocksOf, F.BitsFreed, Holds,
         I.Marked, I.Unique, I.MetaInUse, I.Complete, I.Stored, F.FreeSet, F.HoleFree;
    ghost var d, l, n0, f0 := lg.bc.disk, lg.l, f.nodes, f.disk;
    var admitted := lg.BeginOp();
    assert admitted;
    var w := f.Itrunc();
    FreedSet(f.g, f0, n0, f.inum, f.disk);
    if LogHasRoom(l, (f.g.size - 1) / BPB + 2) {
      UpdatesFew(f, F.BitmapBlocks(f.g) + {I.IBlock(f.inum)});
      F.ReachSize(f.g, f.disk, f.Me(), 0, 0, f.inum);
      FewFit(f.issued, F.BitmapBlocks(f.g) + {I.IBlock(f.inum)}, 1, l.size);
    }
    r, tx, k := CommitFile(lg, f, n0);
    forall m: nat, crashes: seq<nat> | m <= R.WriteCount(tx)
      ensures EmptiedOrNot(l, d, Recovered(l, d, tx, m, crashes), m <= |tx.secs|, f.g, n0, f.nodes, f.inum)
    {
      TruncateAllOrNothing(l, d, Recovered(l, d, tx, m, crashes), m <= |tx.secs|, f.g, n0, f.nodes, f.disk, f.inum);
    }
  }
}
