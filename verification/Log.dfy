/**
 The code of kernel/log.c over the buffer cache, proved to issue the sector
 writes that RedoLog shows to be crash safe.
 */
module Log {
  import opened Blocks
  import opened BufferCache
  import opened Counting
  import opened RedoLog
  import A = LogAdmission

  ghost function DirtyAddrs(bufs: seq<Buf>): set<Addr> {
    set i | 0 <= i < |bufs| && bufs[i].dirty :: bufs[i].addr
  }

  ghost predicate NoBusy(bufs: seq<Buf>) {
    forall i :: 0 <= i < |bufs| ==> !bufs[i].busy
  }

  /** Every buffer that is not logged agrees with the device, even while held. */
  ghost predicate AtRest(bufs: seq<Buf>, disk: Disk) {
    forall i :: 0 <= i < |bufs| && bufs[i].valid && !bufs[i].dirty ==>
        bufs[i].addr in disk && bufs[i].data == disk[bufs[i].addr]
  }

  /** Reading first and then second cannot find the cache full. */
  ghost predicate RoomFor(bufs: seq<Buf>, second: Addr) {
    exists i, j :: 0 <= i < |bufs| && 0 <= j < |bufs| && !bufs[i].dirty && i != j
        && (bufs[j].addr == second || !bufs[j].dirty)
  }

  lemma RestView(bufs: seq<Buf>, disk: Disk, a: Addr)
    requires Consistent(bufs, disk) && AtRest(bufs, disk) && a in disk && a !in DirtyAddrs(bufs)
    ensures View(bufs, disk)[a] == disk[a]
  {
    if i :| HoldsAt(bufs, a, i) {
      LookupHit(bufs, disk, i);
    }
  }

  /** Dirty buffers hold distinct sectors, so fewer than NBUF of those leave a clean buffer. */
  lemma CleanBufferExists(bufs: seq<Buf>, disk: Disk) returns (k: nat)
    requires Consistent(bufs, disk) && |DirtyAddrs(bufs)| < NBUF
    ensures k < NBUF && !bufs[k].dirty
  {
    if forall i :: 0 <= i < NBUF ==> bufs[i].dirty {
      AllDirty(bufs, disk, seq(NBUF, i requires 0 <= i < NBUF => bufs[i].addr));
    }
    k :| 0 <= k < NBUF && !bufs[k].dirty;
  }

  lemma NoCleanBuffer(bufs: seq<Buf>, n: nat, k: nat)
    requires |bufs| == n && k < n && !bufs[k].dirty
    ensures |DirtyAddrs(bufs)| < n
  {
    forall a | a in DirtyAddrs(bufs)
      ensures exists i :: i in Below(n) - {k} && 0 <= i < |bufs| && bufs[i].addr == a
    {
      var i :| 0 <= i < |bufs| && bufs[i].dirty && bufs[i].addr == a;
      assert i in Below(n) - {k};
    }
    ImageSize(Below(n) - {k}, DirtyAddrs(bufs), bufs);
  }

  lemma AllDirty(bufs: seq<Buf>, disk: Disk, addrs: seq<Addr>)
    requires Consistent(bufs, disk) && forall i :: 0 <= i < NBUF ==> bufs[i].dirty
    requires |addrs| == NBUF && forall i :: 0 <= i < NBUF ==> addrs[i] == bufs[i].addr
    ensures |DirtyAddrs(bufs)| == NBUF
  {
    DistinctCount(addrs);
    assert forall i :: 0 <= i < NBUF ==> addrs[i] in DirtyAddrs(bufs);
    assert (set x | x in addrs) == DirtyAddrs(bufs);
  }

  lemma {:induction false} ImageSize(ks: set<nat>, addrs: set<Addr>, bufs: seq<Buf>)
    requires forall a :: a in addrs ==> exists i :: i in ks && 0 <= i < |bufs| && bufs[i].addr == a
    ensures |addrs| <= |ks|
    decreases ks
  {
    if addrs != {} {
      var a :| a in addrs;
      var i :| i in ks && 0 <= i < |bufs| && bufs[i].addr == a;
      ImageSize(ks - {i}, addrs - {a}, bufs);
    }
  }

  /** The two reads that write_log and install_trans start with. */
  method ReadBoth(bc: Cache, first: Addr, second: Addr) returns (r: Outcome, b1: nat, b2: nat)
    requires bc.Valid() && first in bc.disk && second in bc.disk && first != second
    modifies bc.buf
    ensures bc.Valid() && bc.Contents() == old(bc.Contents())
    ensures r.Done? ==> && b1 < NBUF && b2 < NBUF && b1 != b2
                        && !old(bc.buf[..])[b1].busy && !old(bc.buf[..])[b2].busy
                        && bc.buf[..] == old(bc.buf[..])
                                         [b1 := Buf(first, true, true, old(bc.buf[..])[b1].dirty,
                                             old(bc.Contents())[first])]
                                         [b2 := Buf(second, true, true, old(bc.buf[..])[b2].dirty,
                                             old(bc.Contents())[second])]
                        && (old(bc.buf[..])[b1].dirty ==> old(bc.buf[..])[b1].addr == first)
                        && (old(bc.buf[..])[b2].dirty ==> old(bc.buf[..])[b2].addr == second)
                        && (bc.buf[b1].dirty || bc.buf[b1].data == bc.disk[first])
                        && (bc.buf[b2].dirty || bc.buf[b2].data == bc.disk[second])
    ensures NoBusy(old(bc.buf[..])) && RoomFor(old(bc.buf[..]), second) ==> r.Done?
    ensures AllPinned(old(bc.buf[..]), first) ==> !r.Done?
  {
    hide Linked, View;
    b2 := 0;
    r, b1 := bc.Bread(first);
    if r.Done? {
      if NoBusy(old(bc.buf[..])) && RoomFor(old(bc.buf[..]), second) {
        SecondReadable(old(bc.buf[..]), b1, bc.buf[b1], second);
        assert bc.buf[..] == old(bc.buf[..])[b1 := bc.buf[b1]];
      }
      r, b2 := bc.Bread(second);
    }
  }

  lemma SecondReadable(bufs: seq<Buf>, b1: nat, taken: Buf, second: Addr)
    requires |bufs| == NBUF && NoBusy(bufs) && RoomFor(bufs, second) && b1 < NBUF && taken.addr != second
    ensures var after := bufs[b1 := taken];
            && (exists i :: 0 <= i < NBUF && (after[i].addr == second || (!after[i].busy && !after[i].dirty)))
            && (forall i :: 0 <= i < NBUF && after[i].addr == second ==> !after[i].busy)
  {
    var i, j :| 0 <= i < |bufs| && 0 <= j < |bufs| && !bufs[i].dirty && i != j
        && (bufs[j].addr == second || !bufs[j].dirty);
    assert bufs[b1 := taken][if b1 == i then j else i] == bufs[if b1 == i then j else i];
  }

  /** The buffers after t and s were read and the block in s was copied over the one in t. */
  ghost function Copied(bufs: seq<Buf>, t: nat, s: nat, ta: Addr, sa: Addr, data: Block): seq<Buf>
    requires t < |bufs| && s < |bufs|
  {
    bufs[t := Buf(ta, false, true, false, data)][s := Buf(sa, false, true, bufs[s].dirty, data)]
  }

  lemma DirtyAfterCopy(bufs: seq<Buf>, t: nat, s: nat, ta: Addr, sa: Addr, data: Block, disk: Disk)
    requires |bufs| == NBUF && t < NBUF && s < NBUF && t != s && ta != sa
    requires bufs[s].dirty ==> bufs[s].addr == sa
    requires bufs[t].dirty ==> bufs[t].addr == ta
    requires ta in disk && Consistent(Copied(bufs, t, s, ta, sa, data), disk)
    ensures DirtyAddrs(Copied(bufs, t, s, ta, sa, data)) == DirtyAddrs(bufs) - {ta}
    ensures NoBusy(bufs) ==> NoBusy(Copied(bufs, t, s, ta, sa, data))
  {
    var bufs' := Copied(bufs, t, s, ta, sa, data);
    forall i | 0 <= i < NBUF
      ensures bufs'[i].dirty ==> bufs'[i].addr == bufs[i].addr != ta && bufs[i].dirty
      ensures bufs[i].dirty && bufs[i].addr != ta ==> bufs'[i].dirty && bufs'[i].addr == bufs[i].addr
    {
      assert bufs'[t].addr == ta;
    }
  }

  /** Copies one held block over another, writes it out and releases both. */
  method CopyHeld(bc: Cache, target: nat, source: nat)
    requires bc.Valid() && target < NBUF && source < NBUF && target != source
    requires bc.buf[target].busy && bc.buf[target].valid && bc.buf[source].busy && bc.buf[source].valid
    requires bc.buf[target].addr != bc.buf[source].addr
    requires bc.buf[source].dirty || bc.buf[source].data == bc.disk[bc.buf[source].addr]
    modifies bc, bc.buf, bc.next, bc.prev
    ensures bc.Valid()
    ensures bc.buf[..] == old(bc.buf[..])[target := Buf(old(bc.buf[target]).addr, false, true, false,
              old(bc.buf[source]).data)]
                                         [source := old(bc.buf[source]).(busy := false)]
    ensures bc.trace == old(bc.trace) + [Write(bc.buf[target].addr, old(bc.buf[source]).data)]
    ensures bc.disk == old(bc.disk)[bc.buf[target].addr := old(bc.buf[source]).data]
    ensures bc.Contents() == old(bc.Contents())[bc.buf[target].addr := old(bc.buf[source]).data]
  {
    hide Linked, View, Consistent;
    bc.Store(target, bc.buf[source].data);
    bc.Bwrite(target);
    bc.Brelse(source);
    bc.Brelse(target);
  }

  ghost predicate AllPinned(bufs: seq<Buf>, a: Addr) {
    forall i :: 0 <= i < |bufs| ==> bufs[i].dirty && bufs[i].addr != a
  }

  /** One turn of the loop of write_log: the cached block goes to its log block. */
  method LogOne(bc: Cache, log: Addr, home: Addr) returns (r: Outcome)
    requires bc.Valid() && log in bc.disk && home in bc.disk && log != home
    modifies bc, bc.buf, bc.next, bc.prev
    ensures bc.Valid()
    ensures r.Done? ==> && bc.trace == old(bc.trace) + [Write(log, old(bc.Contents())[home])]
                        && bc.disk == old(bc.disk)[log := old(bc.Contents())[home]]
                        && bc.Contents() == old(bc.Contents())[log := old(bc.Contents())[home]]
                        && DirtyAddrs(bc.buf[..]) == DirtyAddrs(old(bc.buf[..])) - {log}
                        && (NoBusy(old(bc.buf[..])) ==> NoBusy(bc.buf[..]))
    ensures !r.Done? ==> bc.trace == old(bc.trace) && bc.disk == old(bc.disk) && bc.Contents() == old(bc.Contents())
    ensures NoBusy(old(bc.buf[..])) && RoomFor(old(bc.buf[..]), home) ==> r.Done?
    ensures AllPinned(old(bc.buf[..]), log) ==> !r.Done?
  {
    hide Linked, View, RoomFor, AllPinned, Consistent;
    var to, from;
    r, to, from := ReadBoth(bc, log, home);
    if r.Done? {
      CopyHeld(bc, to, from);
      assert bc.buf[..] == Copied(old(bc.buf[..]), to, from, log, home, bc.buf[from].data);
      DirtyAfterCopy(old(bc.buf[..]), to, from, log, home, bc.buf[from].data, bc.disk);
    }
  }

  /** One turn of the loop of install_trans: the log block goes to its home sector. */
  method InstallOne(bc: Cache, log: Addr, home: Addr) returns (r: Outcome)
    requires bc.Valid() && log in bc.disk && home in bc.disk && log != home
    modifies bc, bc.buf, bc.next, bc.prev
    ensures bc.Valid()
    ensures r.Done? ==> && bc.trace == old(bc.trace) + [Write(home, old(bc.Contents())[log])]
                        && bc.disk == old(bc.disk)[home := old(bc.Contents())[log]]
                        && bc.Contents() == old(bc.Contents())[home := old(bc.Contents())[log]]
                        && DirtyAddrs(bc.buf[..]) == DirtyAddrs(old(bc.buf[..])) - {home}
                        && (NoBusy(old(bc.buf[..])) ==> NoBusy(bc.buf[..]))
    ensures !r.Done? ==> bc.trace == old(bc.trace) && bc.disk == old(bc.disk) && bc.Contents() == old(bc.Contents())
    ensures NoBusy(old(bc.buf[..])) && RoomFor(old(bc.buf[..]), home) ==> r.Done?
  {
    hide Linked, View, RoomFor, AllPinned, Consistent;
    var lbuf, dbuf;
    r, lbuf, dbuf := ReadBoth(bc, log, home);
    if r.Done? {
      CopyHeld(bc, dbuf, lbuf);
      assert bc.buf[..] == Copied(old(bc.buf[..]), dbuf, lbuf, home, log, bc.buf[lbuf].data);
      DirtyAfterCopy(old(bc.buf[..]), dbuf, lbuf, home, log, bc.buf[lbuf].data, bc.disk);
    }
  }

  // ---------- Sequences of writes through the cache ----------

  /** Device, readers' view and trace have all moved on by the same writes. */
  ghost predicate Issued(before: Snapshot, now: Snapshot, ws: seq<Write>) {
    && now.trace == before.trace + ws
    && now.disk == Apply(before.disk, ws)
    && now.view == Apply(before.view, ws)
  }

  datatype Snapshot = Snapshot(disk: Disk, view: Disk, trace: seq<Write>)

  ghost function Snap(bc: Cache): Snapshot
    reads bc, bc.buf
  {
    Snapshot(bc.disk, bc.Contents(), bc.trace)
  }

  lemma IssuedNone(s: Snapshot)
    ensures Issued(s, s, [])
  {
  }

  lemma IssuedThen(s0: Snapshot, s1: Snapshot, s2: Snapshot, ws: seq<Write>, vs: seq<Write>)
    requires Issued(s0, s1, ws) && Issued(s1, s2, vs)
    ensures Issued(s0, s2, ws + vs)
  {
    ApplyConcat(s0.disk, ws, vs);
    ApplyConcat(s0.view, ws, vs);
  }

  lemma IssuedNoMore(s0: Snapshot, s1: Snapshot, s2: Snapshot, ws: seq<Write>)
    requires Issued(s0, s1, ws) && Issued(s1, s2, [])
    ensures Issued(s0, s2, ws)
  {
    IssuedThen(s0, s1, s2, ws, []);
    assert ws + [] == ws;
  }

  lemma IssuedOne(s: Snapshot, s': Snapshot, w: Write)
    requires s'.trace == s.trace + [w] && s'.disk == s.disk[w.addr := w.data] && s'.view == s.view[w.addr := w.data]
    ensures Issued(s, s', [w])
  {
  }

  /** Extending a prefix of ws by its next write. */
  lemma IssuedNext(s0: Snapshot, s1: Snapshot, s2: Snapshot, ws: seq<Write>, k: nat)
    requires k < |ws| && Issued(s0, s1, ws[..k]) && Issued(s1, s2, [ws[k]])
    ensures Issued(s0, s2, ws[..k + 1])
  {
    IssuedThen(s0, s1, s2, ws[..k], [ws[k]]);
    assert ws[..k] + [ws[k]] == ws[..k + 1];
  }

  /** Home writes leave the log area alone. */
  lemma {:induction false} HomePhase(l: Layout, d: Disk, secs: seq<Word>, vals: seq<Block>, k: nat)
    requires Loggable(l, d, secs) && |vals| == |secs| && k <= |secs|
    ensures var d' := Apply(d, HomeWrites(l, secs, vals)[..k]);
            d'.Keys == d.Keys && forall a :: a in d && InLog(l, a) ==> d'[a] == d[a]
  {
    var ws := HomeWrites(l, secs, vals);
    if k == 0 {
      assert ws[..0] == [];
    } else {
      HomePhase(l, d, secs, vals, k - 1);
      ApplyStep(d, ws, k - 1);
    }
  }

  ghost function LoggedAddrs(l: Layout, secs: seq<Word>): (s: set<Addr>)
  {
    set i | 0 <= i < |secs| :: At(l, secs[i])
  }

  lemma {:induction false} LoggedCount(l: Layout, secs: seq<Word>)
    requires forall i, j :: 0 <= i < j < |secs| ==> secs[i] != secs[j]
    ensures |LoggedAddrs(l, secs)| == |secs|
  {
    if secs != [] {
      var m := |secs| - 1;
      LoggedCount(l, secs[..m]);
      assert LoggedAddrs(l, secs) == LoggedAddrs(l, secs[..m]) + {At(l, secs[m])};
    }
  }

  lemma RoomWhenPinned(bufs: seq<Buf>, disk: Disk, a: Addr)
    requires Consistent(bufs, disk) && |DirtyAddrs(bufs)| < NBUF && a in DirtyAddrs(bufs)
    ensures RoomFor(bufs, a)
  {
    var i := CleanBufferExists(bufs, disk);
    var j :| 0 <= j < |bufs| && bufs[j].dirty && bufs[j].addr == a;
  }

  lemma RoomWhenClean(bufs: seq<Buf>, a: Addr)
    requires |bufs| == NBUF && DirtyAddrs(bufs) == {}
    ensures RoomFor(bufs, a)
  {
    var x, y := bufs[0], bufs[1];
    assert x.addr in DirtyAddrs(bufs) || !x.dirty;
    assert y.addr in DirtyAddrs(bufs) || !y.dirty;
  }

  lemma FullIsPinned(bufs: seq<Buf>, a: Addr)
    requires |bufs| == NBUF && |DirtyAddrs(bufs)| >= NBUF && a !in DirtyAddrs(bufs)
    ensures AllPinned(bufs, a)
  {
    forall i | 0 <= i < |bufs|
      ensures bufs[i].dirty && bufs[i].addr != a
    {
      if !bufs[i].dirty {
        NoCleanBuffer(bufs, |bufs|, i);
      }
    }
  }

  ghost predicate InView(l: Layout, view: Disk, secs: seq<Word>) {
    forall i :: 0 <= i < |secs| ==> At(l, secs[i]) in view
  }

  /** The logged blocks as a reader sees them. */
  ghost function BlocksAt(l: Layout, view: Disk, secs: seq<Word>): (vals: seq<Block>)
    requires InView(l, view, secs)
    ensures |vals| == |secs| && forall i :: 0 <= i < |secs| ==> vals[i] == view[At(l, secs[i])]
  {
    if secs == [] then []
    else
      assert InView(l, view, secs[..|secs| - 1]);
      BlocksAt(l, view, secs[..|secs| - 1]) + [view[At(l, secs[|secs| - 1])]]
  }

  lemma KeysKept(l: Layout, d: Disk, d': Disk, secs: seq<Word>)
    requires HasLog(l, d) && Loggable(l, d, secs) && d'.Keys == d.Keys
    ensures HasLog(l, d') && Loggable(l, d', secs)
  {
  }

  lemma DirtySame(bufs: seq<Buf>, b: nat, x: Buf)
    requires b < |bufs| && x.dirty == bufs[b].dirty && (x.dirty ==> x.addr == bufs[b].addr)
    ensures DirtyAddrs(bufs[b := x]) == DirtyAddrs(bufs)
  {
    var bufs' := bufs[b := x];
    assert forall i :: 0 <= i < |bufs| ==>
        bufs'[i].dirty == bufs[i].dirty && (bufs[i].dirty ==> bufs'[i].addr == bufs[i].addr);
  }

  lemma ViewKeys(bufs: seq<Buf>, disk: Disk)
    ensures View(bufs, disk).Keys == disk.Keys
  {
  }

  /** Replaces the data of a held block, writes it out and releases it. */
  method ReplaceHeld(bc: Cache, b: nat, data: Block)
    requires bc.Valid() && b < NBUF && bc.buf[b].busy && bc.buf[b].valid
    modifies bc, bc.buf, bc.next, bc.prev
    ensures bc.Valid()
    ensures bc.buf[..] == old(bc.buf[..])[b := Buf(old(bc.buf[b]).addr, false, true, false, data)]
    ensures Issued(old(Snap(bc)), Snap(bc), [Write(old(bc.buf[b]).addr, data)])
  {
    hide Linked, View, Consistent;
    bc.Store(b, data);
    bc.Bwrite(b);
    bc.Brelse(b);
    IssuedOne(old(Snap(bc)), Snap(bc), Write(old(bc.buf[b]).addr, data));
  }

  /** write_head: stores the count and the sector numbers into the header block. */
  method WriteHeader(bc: Cache, header: Addr, lh: seq<Word>) returns (r: Outcome)
    requires bc.Valid() && header in bc.disk && header !in DirtyAddrs(bc.buf[..]) && |lh| <= LOGSIZE
    modifies bc, bc.buf, bc.next, bc.prev
    ensures bc.Valid() && header in old(bc.Contents())
    ensures Issued(old(Snap(bc)), Snap(bc), if r.Done? then [Write(header, Encode(old(bc.Contents())[header], lh))]
              else [])
    ensures r.Done? ==> DirtyAddrs(bc.buf[..]) == DirtyAddrs(old(bc.buf[..]))
    ensures r.Done? && NoBusy(old(bc.buf[..])) ==> NoBusy(bc.buf[..])
    ensures NoBusy(old(bc.buf[..])) && |DirtyAddrs(old(bc.buf[..]))| < NBUF ==> r.Done?
  {
    hide Linked, View, Encode, Issued;
    ViewKeys(bc.buf[..], bc.disk);
    if NoBusy(bc.buf[..]) && |DirtyAddrs(bc.buf[..])| < NBUF {
      ghost var k := CleanBufferExists(bc.buf[..], bc.disk);
    }
    var b;
    r, b := bc.Bread(header);
    if !r.Done? {
      IssuedNone(old(Snap(bc)));
      return;
    }
    var data := EncodeHeader(bc.buf[b].data, lh);
    ReplaceHeld(bc, b, data);
    assert !old(bc.buf[..])[b].dirty by {
      assert header in DirtyAddrs(old(bc.buf[..])) || !old(bc.buf[..])[b].dirty;
    }
    assert bc.buf[..] == old(bc.buf[..])[b := bc.buf[b]];
    DirtySame(old(bc.buf[..]), b, bc.buf[b]);
  }

  method EncodeHeader(head: Block, lh: seq<Word>) returns (data: Block)
    requires |lh| <= LOGSIZE
    ensures data == Encode(head, lh)
  {
    data := PutWord(head, 0, |lh|);
    for i := 0 to |lh|
      invariant data == EncodeUpTo(head, lh, i)
    {
      data := PutWord(data, i + 1, lh[i]);
    }
  }

  lemma LoggedNext(l: Layout, secs: seq<Word>, k: nat)
    requires k < |secs|
    ensures LoggedAddrs(l, secs[..k + 1]) == LoggedAddrs(l, secs[..k]) + {At(l, secs[k])}
  {
    assert At(l, secs[..k + 1][k]) == At(l, secs[k]);
    forall i | 0 <= i < k
      ensures At(l, secs[..k + 1][i]) == At(l, secs[..k][i])
    {
    }
  }

  lemma EnoughLogBlocks(l: Layout, d: Disk, secs: seq<Word>)
    requires HasLog(l, d) && Loggable(l, d, secs)
    ensures forall i: nat {:trigger LogBlock(l, i)} :: i <= |secs| ==> LogBlock(l, i) in d
  {
  }

  // ---------- The stages of a commit ----------

  /** A transaction's writes after those of the log blocks and the header. */
  lemma CommitTail(l: Layout, d: Disk, tx: Tx)
    requires HasLog(l, d) && TxFits(l, d, tx) && tx.secs != []
    ensures var n, ws := |tx.secs|, TxWrites(l, d, tx);
            && |ws| == 2 * n + 2
            && (forall k :: 0 <= k <= n ==> ws[..n + 1 + k] == ws[..n + 1] + HomeWrites(l, tx.secs, tx.vals)[..k])
            && ws[2 * n + 1] == Write(Header(l), Encode(Encode(d[Header(l)], tx.secs), []))
            && ws[..2 * n + 2] == ws
  {
    CommitParts(l, d, tx);
    var n, ws := |tx.secs|, TxWrites(l, d, tx);
    forall k | 0 <= k <= n
      ensures ws[..n + 1 + k] == ws[..n + 1] + HomeWrites(l, tx.secs, tx.vals)[..k]
    {
      assert ws[n + 1..][..k] == HomeWrites(l, tx.secs, tx.vals)[..k];
      assert ws[..n + 1 + k] == ws[..n + 1] + ws[n + 1..][..k];
    }
    assert ws[2 * n + 1] == ws[n + 1..][n];
  }

  ghost predicate LogHolds(l: Layout, d: Disk, vals: seq<Block>) {
    forall i :: 0 <= i < |vals| ==> LogBlock(l, i + 1) in d && d[LogBlock(l, i + 1)] == vals[i]
  }

  lemma AfterLog(l: Layout, s0: Snapshot, s1: Snapshot, secs: seq<Word>, vals: seq<Block>)
    requires HasLog(l, s0.view) && |vals| == |secs| < l.size
    requires Issued(s0, s1, LogWrites(l, vals)[..|secs|])
    ensures s1.view.Keys == s0.view.Keys && s1.view[Header(l)] == s0.view[Header(l)]
    ensures LogHolds(l, s1.view, vals)
  {
    LogPhase(l, s0.view, vals, |secs|);
  }

  lemma AfterHead(l: Layout, s0: Snapshot, s1: Snapshot, s2: Snapshot, secs: seq<Word>, vals: seq<Block>)
    requires HasLog(l, s0.view) && |vals| == |secs| <= LOGSIZE && |secs| < l.size
    requires s1.view.Keys == s0.view.Keys && s1.view[Header(l)] == s0.view[Header(l)]
    requires LogHolds(l, s1.view, vals)
    requires Issued(s1, s2, [Write(Header(l), Encode(s1.view[Header(l)], secs))])
    ensures s2.view.Keys == s0.view.Keys && s2.view[Header(l)] == Encode(s0.view[Header(l)], secs)
    ensures HasLog(l, s2.view) && LogBlocks(l, s2.view, |secs|) == vals
  {
    var w := [Write(Header(l), Encode(s1.view[Header(l)], secs))];
    ApplyStep(s1.view, w, 0);
    assert w[..0] == [] && w[..1] == w;
  }

  lemma AfterInstall(l: Layout, s2: Snapshot, s3: Snapshot, secs: seq<Word>, vals: seq<Block>, k: nat)
    requires HasLog(l, s2.view) && Loggable(l, s2.view, secs) && |vals| == |secs| && k <= |secs|
    requires Issued(s2, s3, HomeWrites(l, secs, vals)[..k])
    ensures HasLog(l, s3.view) && s3.view[Header(l)] == s2.view[Header(l)]
  {
    HomePhase(l, s2.view, secs, vals, k);
    LogBlocksInLog(l);
  }

  /** The last write of a commit; nothing is logged any more. */
  lemma AfterClear(l: Layout, s3: Snapshot, s4: Snapshot, secs: seq<Word>)
    requires HasLog(l, s3.disk) && Header(l) in s3.view
    requires Issued(s3, s4, [Write(Header(l), Encode(s3.view[Header(l)], []))])
    ensures HasLog(l, s4.disk) && Loggable(l, s4.disk, [])
    ensures Header(l) in s4.disk && Count(s4.disk[Header(l)]) == 0
  {
    hide GetWord, Encode;
    HeaderRoundTrip(s3.view[Header(l)], []);
    ApplyKeys(s3.disk, [Write(Header(l), Encode(s3.view[Header(l)], []))]);
    ApplyStep(s3.disk, [Write(Header(l), Encode(s3.view[Header(l)], []))], 0);
  }

  lemma NothingPinned(l: Layout, bufs: seq<Buf>, secs: seq<Word>)
    requires DirtyAddrs(bufs) == LoggedAddrs(l, secs) - LoggedAddrs(l, secs)
    ensures DirtyAddrs(bufs) == LoggedAddrs(l, [])
  {
  }

  lemma HeaderIdle(l: Layout, d: Disk, secs: seq<Word>, bufs: seq<Buf>)
    requires HasLog(l, d) && DirtyAddrs(bufs) == LoggedAddrs(l, secs) - LoggedAddrs(l, secs)
    ensures Header(l) in d && Header(l) !in DirtyAddrs(bufs) && |DirtyAddrs(bufs)| == 0
  {
    assert DirtyAddrs(bufs) == {};
  }

  /** A transaction writes home exactly what readers already see. */
  lemma AfterIsView(l: Layout, disk: Disk, view: Disk, secs: seq<Word>)
    requires Loggable(l, disk, secs) && view.Keys == disk.Keys && InView(l, view, secs)
    requires forall i, j :: 0 <= i < j < |secs| ==> secs[i] != secs[j]
    requires forall a :: a in disk && a !in LoggedAddrs(l, secs) ==> view[a] == disk[a]
    ensures After(l, Home(l, disk), Tx(secs, BlocksAt(l, view, secs))) == Home(l, view)
  {
    var tx := Tx(secs, BlocksAt(l, view, secs));
    assert HomeWrites(l, secs, tx.vals)[..|secs|] == HomeWrites(l, secs, tx.vals);
    AfterValues(l, Home(l, disk), tx, |secs|);
    var after := After(l, Home(l, disk), tx);
    forall a | a in Home(l, disk)
      ensures after[a] == view[a]
    {
      if a in LoggedAddrs(l, secs) {
        var i :| 0 <= i < |secs| && At(l, secs[i]) == a;
      }
    }
  }

  lemma PinnedNext(l: Layout, bufs: seq<Buf>, b: nat, secs: seq<Word>, secs': seq<Word>)
    requires b < |bufs| && bufs[b].addr.dev == l.dev && 0 <= bufs[b].addr.sector < 0x1_0000_0000
    requires DirtyAddrs(bufs) == LoggedAddrs(l, secs)
    requires secs' == if bufs[b].addr.sector in secs then secs else secs + [bufs[b].addr.sector]
    ensures DirtyAddrs(bufs[b := bufs[b].(dirty := true)]) == LoggedAddrs(l, secs')
  {
    var bufs' := bufs[b := bufs[b].(dirty := true)];
    var w: Word := bufs[b].addr.sector;
    assert DirtyAddrs(bufs') == DirtyAddrs(bufs) + {bufs[b].addr} by {
      forall a | a in DirtyAddrs(bufs)
        ensures a in DirtyAddrs(bufs')
      {
        var i :| 0 <= i < |bufs| && bufs[i].dirty && bufs[i].addr == a;
        assert bufs'[i].dirty && bufs'[i].addr == a;
      }
      assert bufs'[b].dirty && bufs'[b].addr == bufs[b].addr;
    }
    assert At(l, w) == bufs[b].addr;
    if w in secs {
      var i :| 0 <= i < |secs| && secs[i] == w;
      assert At(l, secs[i]) in LoggedAddrs(l, secs);
    } else {
      assert secs'[..|secs|] == secs && secs'[..|secs'|] == secs';
      LoggedNext(l, secs', |secs|);
    }
  }

  lemma HasHeader(l: Layout, d: Disk)
    requires HasLog(l, d)
    ensures Header(l) in d
  {
  }

  lemma NoneDirty(bufs: seq<Buf>)
    requires DirtyAddrs(bufs) == {}
    ensures forall i :: 0 <= i < |bufs| ==> !bufs[i].dirty
  {
    forall i | 0 <= i < |bufs|
      ensures !bufs[i].dirty
    {
      assert bufs[i].addr in DirtyAddrs(bufs) || !bufs[i].dirty;
    }
  }

  lemma AllAgree(bufs: seq<Buf>, disk: Disk, a: Addr)
    requires Consistent(bufs, disk) && NoBusy(bufs) && DirtyAddrs(bufs) == {} && a in disk
    ensures View(bufs, disk)[a] == disk[a] && !bufs[0].dirty && (forall i :: 0 <= i < NBUF ==> !bufs[i].dirty)
  {
    NoneDirty(bufs);
    RestView(bufs, disk, a);
  }

  lemma IdleView(bufs: seq<Buf>, disk: Disk)
    requires Consistent(bufs, disk) && NoBusy(bufs) && DirtyAddrs(bufs) == {}
    ensures View(bufs, disk) == disk
  {
    forall a | a in disk
      ensures View(bufs, disk)[a] == disk[a]
    {
      AllAgree(bufs, disk, a);
    }
  }

  /** Wherever a commit stops, the disk recovers to the old home sectors or to what readers saw. */
  lemma CommitStops(l: Layout, s0: Snapshot, s: Snapshot, tx: Tx, k: nat)
    requires HasLog(l, s0.disk) && TxFits(l, s0.disk, tx) && Header(l) in s0.disk && Count(s0.disk[Header(l)]) == 0
    requires k <= |TxWrites(l, s0.disk, tx)| && Issued(s0, s, TxWrites(l, s0.disk, tx)[..k])
    requires After(l, Home(l, s0.disk), tx) == Home(l, s0.view)
    ensures Committed(l, s.disk, Home(l, if k <= |tx.secs| then s0.disk else s0.view))
    ensures k == |TxWrites(l, s0.disk, tx)| ==>
      Header(l) in s.disk && Count(s.disk[Header(l)]) == 0 && Home(l, s.disk) == Home(l, s0.view)
  {
    CrashAtomic(l, s0.disk, tx, k, []);
    var ws := TxWrites(l, s0.disk, tx);
    if k == |ws| {
      assert ws[..k] == ws;
      CommitCompletes(l, s0.disk, tx);
      HasHeader(l, s.disk);
    }
  }

  // ---------- Full logs ----------

  /** A commit is due whose blocks pin every buffer, so that Log.Commit cannot get through. */
  predicate Stuck(y: A.System) { y.s.committing && |y.s.lh| >= NBUF }

  /** Some run of admitted operations ends in a panic: of log_write, of end_op, or of bget in the commit. */
  ghost predicate Unsafe(size: int) {
    exists es ::
      A.Runs(A.START, es, size) && (Stuck(A.After(A.START, es, size)) || PanicDue(A.After(A.START, es, size), size))
  }

  ghost predicate PanicDue(y: A.System, size: int) { exists e :: A.Enabled(y, e) && A.Panics(y, e, size) }

  /** Since LOGSIZE is NBUF, no size of the log is safe. */
  lemma NoSizeIsSafe(size: int)
    requires size >= 1
    ensures Unsafe(size)
  {
    hide A.Fill, A.Drain, A.Runs, A.After, A.Firsts;
    if size - 1 < LOGSIZE {
      A.FillRuns(size - 1, size);
      A.FirstsLength(size - 1);
      var e := A.Write(A.Writer(size - 1), 0);
      var y := A.After(A.START, A.Fill(size - 1), size);
      assert A.Enabled(y, e) && A.Panics(y, e, size);
      assert PanicDue(y, size);
    } else {
      A.DrainRuns(LOGSIZE, size);
      assert Stuck(A.After(A.START, A.Drain(LOGSIZE), size));
    }
  }

  // ---------- The log ----------

  class Log {
    const bc: Cache
    const l: Layout
    /** log.lh: the sectors logged so far, at most LOGSIZE of them. */
    var lh: seq<Word>
    var outstanding: int
    var committing: bool

    constructor (bc: Cache, l: Layout)
      ensures this.bc == bc && this.l == l && State() == A.INITIAL
    {
      this.bc := bc;
      this.l := l;
      lh, outstanding, committing := [], 0, false;
    }

    ghost function State(): A.State
      reads this
    {
      A.State(lh, outstanding, committing)
    }

    /** The logged sectors are home sectors that the log has room for. */
    ghost predicate Valid()
      reads this, bc, bc.buf, bc.next, bc.prev
    {
      && bc.Valid() && HasLog(l, bc.disk) && Loggable(l, bc.disk, lh)
    }

    /** The buffers pinned by log_write are exactly those of the logged sectors. */
    ghost predicate Pinned()
      reads this, bc, bc.buf
    {
      && DirtyAddrs(bc.buf[..]) == LoggedAddrs(l, lh)
      && (forall i, j :: 0 <= i < j < |lh| ==> lh[i] != lh[j])
    }

    /** The header on disk counts no blocks: nothing would be replayed. */
    ghost predicate Cleared()
      reads this, bc
    {
      Header(l) in bc.disk && Count(bc.disk[Header(l)]) == 0
    }

    /** One turn of write_log: one more of the writes ws has been issued since s0. */
    method LogTurn(tail: nat, ghost s0: Snapshot, ghost ws: seq<Write>) returns (r: Outcome)
      requires Valid() && Pinned() && tail < |lh|
      requires InView(l, s0.view, lh) && HasLog(l, s0.view) && ws == LogWrites(l, BlocksAt(l, s0.view, lh))
      requires Issued(s0, Snap(bc), ws[..tail])
      modifies bc, bc.buf, bc.next, bc.prev
      ensures Valid() && (r.Done? ==> Pinned())
      ensures Issued(s0, Snap(bc), ws[..if r.Done? then tail + 1 else tail])
      ensures r.Done? && NoBusy(old(bc.buf[..])) ==> NoBusy(bc.buf[..])
      ensures NoBusy(old(bc.buf[..])) && |lh| < NBUF ==> r.Done?
      ensures |lh| == NBUF ==> !r.Done?
    {
      hide Consistent, Linked, RoomFor, AllPinned, View, HasLog, Loggable, DirtyAddrs, LoggedAddrs, Apply, BlocksAt;
      ghost var s1 := Snap(bc);
      LogTurnRoom(tail);
      LogPhase(l, s0.view, BlocksAt(l, s0.view, lh), tail);
      r := LogOne(bc, LogBlock(l, tail + 1), At(l, lh[tail]));
      KeysKept(l, s1.disk, bc.disk, lh);
      if r.Done? {
        IssuedOne(s1, Snap(bc), ws[tail]);
        IssuedNext(s0, s1, Snap(bc), ws, tail);
      }
    }

    method WriteLog() returns (r: Outcome, ghost k: nat)
      requires Valid() && Pinned()
      modifies bc, bc.buf, bc.next, bc.prev
      ensures Valid() && (r.Done? ==> Pinned())
      ensures k <= |lh| && (r.Done? ==> k == |lh|) && InView(l, old(bc.Contents()), lh)
      ensures Issued(old(Snap(bc)), Snap(bc), LogWrites(l, BlocksAt(l, old(bc.Contents()), lh))[..k])
      ensures r.Done? && NoBusy(old(bc.buf[..])) ==> NoBusy(bc.buf[..])
      ensures NoBusy(old(bc.buf[..])) && |lh| < NBUF ==> r.Done?
      ensures |lh| == NBUF ==> !r.Done? && k == 0
    {
      hide Consistent, Linked, Apply;
      ghost var ws := LogWrites(l, BlocksAt(l, bc.Contents(), lh));
      k := 0;
      r := Done;
      IssuedNone(Snap(bc));
      assert ws[..0] == [];
      for tail := 0 to |lh|
        invariant Valid() && Pinned() && k == tail && r.Done?
        invariant Issued(old(Snap(bc)), Snap(bc), ws[..tail])
        invariant NoBusy(old(bc.buf[..])) ==> NoBusy(bc.buf[..])
        invariant |lh| == NBUF ==> tail == 0
      {
        r := LogTurn(tail, old(Snap(bc)), ws);
        if !r.Done? {
          return;
        }
        k := k + 1;
      }
    }

    /** What a turn of the loop in write_log can rely on. */
    lemma LogTurnRoom(tail: nat)
      requires Valid() && Pinned() && tail < |lh|
      ensures |lh| < NBUF ==> RoomFor(bc.buf[..], At(l, lh[tail]))
      ensures |lh| == NBUF ==> AllPinned(bc.buf[..], LogBlock(l, tail + 1))
      ensures LogBlock(l, tail + 1) !in DirtyAddrs(bc.buf[..]) && LogBlock(l, tail + 1) in bc.disk
      ensures At(l, lh[tail]) in bc.disk && LogBlock(l, tail + 1) != At(l, lh[tail])
      ensures |lh| < l.size && !InLog(l, At(l, lh[tail]))
    {
      LoggedCount(l, lh);
      LogBlocksInLog(l);
      assert At(l, lh[tail]) in LoggedAddrs(l, lh);
      assert LogBlock(l, tail + 1) !in LoggedAddrs(l, lh);
      if |lh| < NBUF {
        RoomWhenPinned(bc.buf[..], bc.disk, At(l, lh[tail]));
      } else if |lh| == NBUF {
        FullIsPinned(bc.buf[..], LogBlock(l, tail + 1));
      }
    }

    /** One turn of install_trans. */
    method InstallTurn(tail: nat, ghost s0: Snapshot, ghost dirty: set<Addr>, ghost ws: seq<Write>) returns (r: Outcome)
      requires Valid() && tail < |lh|
      requires HasLog(l, s0.view) && Loggable(l, s0.view, lh) && ws == HomeWrites(l, lh, LogBlocks(l, s0.view, |lh|))
      requires Issued(s0, Snap(bc), ws[..tail])
      requires DirtyAddrs(bc.buf[..]) == dirty - LoggedAddrs(l, lh[..tail])
      modifies bc, bc.buf, bc.next, bc.prev
      ensures Valid()
      ensures Issued(s0, Snap(bc), ws[..if r.Done? then tail + 1 else tail])
      ensures r.Done? ==> DirtyAddrs(bc.buf[..]) == dirty - LoggedAddrs(l, lh[..tail + 1])
      ensures r.Done? && NoBusy(old(bc.buf[..])) ==> NoBusy(bc.buf[..])
      ensures NoBusy(old(bc.buf[..])) && Roomy(dirty) ==> r.Done?
    {
      hide Consistent, Linked, RoomFor, View, HasLog, Loggable, DirtyAddrs, LoggedAddrs, Apply, LogBlocks, Roomy;
      ghost var s1 := Snap(bc);
      InstallTurnRoom(tail, dirty);
      InstallTurnValue(tail, s0, ws);
      r := InstallOne(bc, LogBlock(l, tail + 1), At(l, lh[tail]));
      KeysKept(l, s1.disk, bc.disk, lh);
      if r.Done? {
        IssuedOne(s1, Snap(bc), ws[tail]);
        IssuedNext(s0, s1, Snap(bc), ws, tail);
        LoggedNext(l, lh, tail);
      }
    }

    /** install_trans needs a buffer it may recycle, and the home blocks already cached or two such buffers. */
    ghost predicate Roomy(dirty: set<Addr>)
      reads this
    {
      || dirty == {}
      || (dirty == LoggedAddrs(l, lh) && |lh| < NBUF && forall i, j :: 0 <= i < j < |lh| ==> lh[i] != lh[j])
    }

    lemma InstallTurnRoom(tail: nat, dirty: set<Addr>)
      requires Valid() && tail < |lh|
      requires DirtyAddrs(bc.buf[..]) == dirty - LoggedAddrs(l, lh[..tail])
      ensures Roomy(dirty) ==> RoomFor(bc.buf[..], At(l, lh[tail]))
      ensures LogBlock(l, tail + 1) in bc.disk && At(l, lh[tail]) in bc.disk && LogBlock(l, tail + 1) != At(l, lh[tail])
    {
      LogBlocksInLog(l);
      if dirty == {} {
        RoomWhenClean(bc.buf[..], At(l, lh[tail]));
      } else if Roomy(dirty) {
        LoggedCount(l, lh);
        Subset(DirtyAddrs(bc.buf[..]), dirty);
        assert At(l, lh[tail]) in dirty;
        assert At(l, lh[tail]) !in LoggedAddrs(l, lh[..tail]);
        RoomWhenPinned(bc.buf[..], bc.disk, At(l, lh[tail]));
      }
    }

    /** The block to be installed is the one the log held when install_trans began. */
    lemma InstallTurnValue(tail: nat, s0: Snapshot, ws: seq<Write>)
      requires Valid() && tail < |lh|
      requires HasLog(l, s0.view) && Loggable(l, s0.view, lh) && ws == HomeWrites(l, lh, LogBlocks(l, s0.view, |lh|))
      requires Issued(s0, Snap(bc), ws[..tail]) && LogBlock(l, tail + 1) in bc.disk
      ensures ws[tail] == Write(At(l, lh[tail]), bc.Contents()[LogBlock(l, tail + 1)])
    {
      HomePhase(l, s0.view, lh, LogBlocks(l, s0.view, |lh|), tail);
      LogBlocksInLog(l);
    }

    method InstallTrans() returns (r: Outcome, ghost k: nat)
      requires Valid()
      modifies bc, bc.buf, bc.next, bc.prev
      ensures Valid() && HasLog(l, old(bc.Contents()))
      ensures k <= |lh| && (r.Done? ==> k == |lh|)
      ensures Issued(old(Snap(bc)), Snap(bc), HomeWrites(l, lh, LogBlocks(l, old(bc.Contents()), |lh|))[..k])
      ensures r.Done? ==> DirtyAddrs(bc.buf[..]) == DirtyAddrs(old(bc.buf[..])) - LoggedAddrs(l, lh)
      ensures r.Done? && NoBusy(old(bc.buf[..])) ==> NoBusy(bc.buf[..])
      ensures NoBusy(old(bc.buf[..])) && Roomy(DirtyAddrs(old(bc.buf[..]))) ==> r.Done?
    {
      hide Consistent, Linked, View, HasLog, Loggable, Apply, DirtyAddrs, LogBlocks, Roomy;
      ViewKeys(bc.buf[..], bc.disk);
      KeysKept(l, bc.disk, bc.Contents(), lh);
      EnoughLogBlocks(l, bc.Contents(), lh);
      ghost var ws := HomeWrites(l, lh, LogBlocks(l, bc.Contents(), |lh|));
      ghost var dirty := DirtyAddrs(bc.buf[..]);
      k := 0;
      r := Done;
      IssuedNone(Snap(bc));
      assert ws[..0] == [] && lh[..0] == [];
      assert dirty == dirty - LoggedAddrs(l, []);
      for tail := 0 to |lh|
        invariant Valid() && k == tail && r.Done?
        invariant Issued(old(Snap(bc)), Snap(bc), ws[..tail])
        invariant DirtyAddrs(bc.buf[..]) == dirty - LoggedAddrs(l, lh[..tail])
        invariant NoBusy(old(bc.buf[..])) ==> NoBusy(bc.buf[..])
      {
        r := InstallTurn(tail, old(Snap(bc)), dirty, ws);
        if !r.Done? {
          return;
        }
        k := k + 1;
      }
      assert lh[..|lh|] == lh;
    }

    /** The first half of commit(): the log blocks, then the header. */
    method Seal(ghost ws: seq<Write>) returns (r: Outcome, ghost k: nat)
      requires Valid() && Pinned() && AtRest(bc.buf[..], bc.disk) && lh != []
      requires InView(l, bc.Contents(), lh) && TxFits(l, bc.disk, Tx(lh, BlocksAt(l, bc.Contents(), lh)))
      requires ws == TxWrites(l, bc.disk, Tx(lh, BlocksAt(l, bc.Contents(), lh)))
      modifies bc, bc.buf, bc.next, bc.prev
      ensures k <= |lh| + 1 <= |ws| && (r.Done? ==> k == |lh| + 1)
      ensures Issued(old(Snap(bc)), Snap(bc), ws[..k])
      ensures r.Done? ==> Valid() && Pinned() && HasLog(l, old(bc.disk)) && HasLog(l, bc.Contents()) && |lh| < l.size
      ensures r.Done? ==> bc.Contents()[Header(l)] == Encode(old(bc.disk)[Header(l)], lh)
      ensures r.Done? ==> LogBlocks(l, bc.Contents(), |lh|) == BlocksAt(l, old(bc.Contents()), lh)
      ensures r.Done? && NoBusy(old(bc.buf[..])) ==> NoBusy(bc.buf[..])
      ensures NoBusy(old(bc.buf[..])) && |lh| < NBUF ==> r.Done?
      ensures |lh| == NBUF ==> !r.Done?
    {
      hide Consistent, Linked, View, HasLog, Loggable, Apply, DirtyAddrs, LoggedAddrs, LogBlocks, AtRest, BlocksAt,
           Encode, TxFits, CommitWrites, After, Home, InView;
      ghost var s0, vals := Snap(bc), BlocksAt(l, bc.Contents(), lh);
      CommitStart(s0);
      CommitParts(l, s0.disk, Tx(lh, vals));
      r, k := WriteLog();
      if !r.Done? {
        return;
      }
      ghost var s1 := Snap(bc);
      AfterLog(l, s0, s1, lh, vals);
      HeaderPinned();
      r := WriteHeader(bc, Header(l), lh);
      if r.Done? {
        AfterHead(l, s0, s1, Snap(bc), lh, vals);
        IssuedNext(s0, s1, Snap(bc), ws, k);
        k := k + 1;
        ViewKeys(bc.buf[..], bc.disk);
        KeysKept(l, s0.disk, bc.disk, lh);
        KeysKept(l, s0.disk, bc.Contents(), lh);
      } else {
        IssuedNoMore(s0, s1, Snap(bc), ws[..k]);
      }
    }

    lemma HeaderPinned()
      requires Valid() && Pinned()
      ensures Header(l) in bc.disk && Header(l) !in DirtyAddrs(bc.buf[..]) && |DirtyAddrs(bc.buf[..])| == |lh|
    {
      LoggedCount(l, lh);
      LogBlocksInLog(l);
    }

    /** The second half of commit(): the home blocks, then the cleared header. */
    method Install(ghost s0: Snapshot, ghost vals: seq<Block>, ghost ws: seq<Write>) returns (r: Outcome, ghost k: nat)
      requires Valid() && Pinned() && lh != []
      requires HasLog(l, s0.disk) && TxFits(l, s0.disk, Tx(lh, vals)) && ws == TxWrites(l, s0.disk, Tx(lh, vals))
      requires Issued(s0, Snap(bc), ws[..|lh| + 1])
      requires HasLog(l, bc.Contents()) && |lh| < l.size && LogBlocks(l, bc.Contents(), |lh|) == vals
      requires bc.Contents()[LogBlock(l, 0)] == Encode(s0.disk[LogBlock(l, 0)], lh)
      modifies this`lh, bc, bc.buf, bc.next, bc.prev
      ensures k <= |ws| && (r.Done? ==> k == |ws|)
      ensures Issued(s0, Snap(bc), ws[..k])
      ensures r.Done? ==> Valid() && Pinned() && lh == []
      ensures NoBusy(old(bc.buf[..])) && |old(lh)| < NBUF ==> r.Done?
      ensures r.Done? && NoBusy(old(bc.buf[..])) ==> NoBusy(bc.buf[..])
    {
      hide Consistent, Linked, View, HasLog, Loggable, Apply, DirtyAddrs, LoggedAddrs, LogBlocks, Encode, TxFits,
           CommitWrites, Issued;
      ghost var s2, secs := Snap(bc), lh;
      CommitTail(l, s0.disk, Tx(lh, vals));
      ViewKeys(bc.buf[..], bc.disk);
      KeysKept(l, s2.disk, s2.view, lh);
      r, k := InstallTrans();
      IssuedThen(s0, s2, Snap(bc), ws[..|lh| + 1], HomeWrites(l, lh, vals)[..k]);
      ghost var s3 := Snap(bc);
      k := |secs| + 1 + k;
      if !r.Done? {
        return;
      }
      AfterInstall(l, s2, s3, secs, vals, |secs|);
      HeaderIdle(l, bc.disk, secs, bc.buf[..]);
      lh := [];
      r := WriteHeader(bc, Header(l), lh);
      if !r.Done? {
        IssuedNoMore(s0, s3, Snap(bc), ws[..k]);
      } else {
        IssuedNext(s0, s3, Snap(bc), ws, k);
        k := k + 1;
        AfterClear(l, s3, Snap(bc), secs);
        NothingPinned(l, bc.buf[..], secs);
      }
    }

    /**
     commit(): issues a prefix of the transaction's writes, all of them when it returns.
     With every buffer idle it gets through exactly when the transaction has fewer
     blocks than the cache has buffers.
     */
    method Commit() returns (r: Outcome, ghost k: nat)
      requires Valid() && Pinned() && AtRest(bc.buf[..], bc.disk)
      modifies this`lh, bc, bc.buf, bc.next, bc.prev
      ensures InView(l, old(bc.Contents()), old(lh)) && HasLog(l, old(bc.disk))
      ensures var tx := Tx(old(lh), BlocksAt(l, old(bc.Contents()), old(lh)));
              && TxFits(l, old(bc.disk), tx) && k <= |TxWrites(l, old(bc.disk), tx)|
              && Issued(old(Snap(bc)), Snap(bc), TxWrites(l, old(bc.disk), tx)[..k])
              && (r.Done? ==> k == |TxWrites(l, old(bc.disk), tx)|)
              && After(l, Home(l, old(bc.disk)), tx) == Home(l, old(bc.Contents()))
      ensures r.Done? ==> Valid() && Pinned() && lh == [] && (NoBusy(old(bc.buf[..])) ==> NoBusy(bc.buf[..]))
      ensures NoBusy(old(bc.buf[..])) ==> (r.Done? <==> |old(lh)| < NBUF)
      ensures old(Cleared()) ==>
                Committed(l, bc.disk, Home(l, if k <= |old(lh)| then old(bc.disk) else old(bc.Contents())))
      ensures old(Cleared()) && r.Done? ==> Cleared() && Home(l, bc.disk) == Home(l, old(bc.Contents()))
    {
      hide Consistent, Linked, View, HasLog, Loggable, Apply, DirtyAddrs, LoggedAddrs, LogBlocks, AtRest, BlocksAt,
           Encode, TxFits, After, Home, InView;
      ghost var s0, vals := Snap(bc), [];
      CommitStart(s0);
      vals := BlocksAt(l, s0.view, lh);
      ghost var ws := TxWrites(l, s0.disk, Tx(lh, vals));
      if 0 < |lh| {
        r, k := Seal(ws);
        if r.Done? {
          r, k := Install(s0, vals, ws);
        }
      } else {
        r, k := Done, 0;
        IssuedNone(s0);
        assert ws[..0] == [];
      }
      if old(Cleared()) { CommitStops(l, s0, Snap(bc), Tx(old(lh), vals), k); }
    }

    lemma CommitStart(s0: Snapshot)
      requires Valid() && Pinned() && AtRest(bc.buf[..], bc.disk) && s0 == Snap(bc)
      ensures HasLog(l, s0.disk) && HasLog(l, s0.view) && InView(l, s0.view, lh)
      ensures TxFits(l, s0.disk, Tx(lh, BlocksAt(l, s0.view, lh)))
      ensures Header(l) in s0.view && Header(l) in s0.disk && s0.view[Header(l)] == s0.disk[Header(l)]
      ensures After(l, Home(l, s0.disk), Tx(lh, BlocksAt(l, s0.view, lh))) == Home(l, s0.view)
      ensures Header(l) !in DirtyAddrs(bc.buf[..]) && |lh| <= LOGSIZE && |lh| < l.size
      ensures Loggable(l, s0.disk, lh) && s0.view.Keys == s0.disk.Keys
      ensures |DirtyAddrs(bc.buf[..])| == |lh|
    {
      hide Consistent, Linked, View, AtRest, Apply, BlocksAt;
      LoggedCount(l, lh);
      ViewKeys(bc.buf[..], bc.disk);
      LogBlocksInLog(l);
      assert Header(l) !in LoggedAddrs(l, lh);
      RestView(bc.buf[..], bc.disk, Header(l));
      forall a | a in s0.disk && a !in LoggedAddrs(l, lh)
        ensures s0.view[a] == s0.disk[a]
      {
        RestView(bc.buf[..], bc.disk, a);
      }
      AfterIsView(l, s0.disk, s0.view, lh);
    }

    /** read_head: loads the sector numbers from the on-disk header. */
    method ReadHead() returns (r: Outcome)
      requires bc.Valid() && Header(l) in bc.disk && Count(bc.disk[Header(l)]) <= LOGSIZE
      requires NoBusy(bc.buf[..]) && DirtyAddrs(bc.buf[..]) == {}
      modifies this`lh, bc, bc.buf, bc.next, bc.prev
      ensures r.Done? && bc.Valid() && bc.disk == old(bc.disk) && bc.trace == old(bc.trace)
      ensures NoBusy(bc.buf[..]) && DirtyAddrs(bc.buf[..]) == {}
      ensures lh == Sectors(bc.disk[Header(l)])
    {
      hide Linked, View, GetWord, Consistent, DirtyAddrs;
      AllAgree(bc.buf[..], bc.disk, Header(l));
      var b;
      r, b := bc.Bread(Header(l));
      var data := bc.buf[b].data;
      lh := [];
      for i := 0 to Count(data)
        modifies this`lh
        invariant lh == Sectors(data)[..i]
      {
        lh := lh + [GetWord(data, i + 1)];
      }
      bc.Brelse(b);
      assert bc.buf[..] == old(bc.buf[..])[b := bc.buf[b]];
      DirtySame(old(bc.buf[..]), b, bc.buf[b]);
    }

    /** recover_from_log(), run at boot on an idle cache: it issues exactly the recovery writes. */
    method RecoverFromLog() returns (r: Outcome)
      requires bc.Valid() && NoBusy(bc.buf[..]) && DirtyAddrs(bc.buf[..]) == {}
      requires HasLog(l, bc.disk) && Replayable(l, bc.disk) && Loggable(l, bc.disk, Sectors(bc.disk[LogBlock(l, 0)]))
      modifies this`lh, bc, bc.buf, bc.next, bc.prev
      ensures r.Done? && Valid() && Pinned() && lh == [] && Cleared()
      ensures bc.trace == old(bc.trace) + RecoverWrites(l, old(bc.disk))
      ensures bc.disk == Recover(l, old(bc.disk))
    {
      hide Consistent, Linked, View, HasLog, Loggable, Apply, LogBlocks, Encode, RoomFor;
      ghost var d0 := bc.disk;
      r := ReadHead();
      ghost var s1, secs := Snap(bc), lh;
      ViewKeys(bc.buf[..], bc.disk);
      IdleView(bc.buf[..], bc.disk);
      ghost var k;
      r, k := InstallTrans();
      ghost var s2, vals := Snap(bc), LogBlocks(l, d0, |lh|);
      assert HomeWrites(l, secs, vals)[..|secs|] == HomeWrites(l, secs, vals);
      AfterInstall(l, s1, s2, secs, vals, |secs|);
      assert {} - LoggedAddrs(l, secs) == {};
      lh := [];
      HasHeader(l, s2.disk);
      r := WriteHeader(bc, Header(l), lh);
      IssuedThen(s1, s2, Snap(bc), HomeWrites(l, secs, vals), [Write(Header(l), Encode(d0[Header(l)], []))]);
      AfterClear(l, s2, Snap(bc), secs);
      assert LoggedAddrs(l, []) == {};
    }

    // ---------- Operations ----------

    /** One pass of the loop in begin_op; the caller sleeps and tries again when it is not admitted. */
    method BeginOp() returns (admitted: bool)
      modifies this`outstanding
      ensures admitted == old(A.MayBegin(State()))
      ensures State() == if admitted then A.Begin(old(State())) else old(State())
    {
      if committing {
        return false;
      } else if |lh| + (outstanding + 1) * A.MAXOPBLOCKS > LOGSIZE {
        return false;
      }
      outstanding := outstanding + 1;
      return true;
    }

    /** The locked part of end_op. */
    method EndOp() returns (r: Outcome, doCommit: bool)
      modifies this`outstanding, this`committing
      ensures r.Panic? <==> old(A.EndPanics(State()))
      ensures r.Done? || r.Panic?
      ensures r.Done? ==> State() == A.End(old(State())) && doCommit == committing
    {
      doCommit := false;
      outstanding := outstanding - 1;
      if committing {
        return Panic, doCommit;
      }
      if outstanding == 0 {
        doCommit := true;
        committing := true;
      }
      r := Done;
    }

    /** The end of end_op once the commit is done: operations may begin again. */
    method Reopen()
      requires lh == []
      modifies this`committing
      ensures State() == A.CommitDone(old(State()))
    {
      committing := false;
    }

    /** end_op of the only operation: the commit, and then operations may begin again. */
    method EndLast() returns (r: Outcome, ghost k: nat)
      requires Valid() && Pinned() && AtRest(bc.buf[..], bc.disk) && outstanding == 1 && !committing
      modifies this, bc, bc.buf, bc.next, bc.prev
      ensures InView(l, old(bc.Contents()), old(lh)) && HasLog(l, old(bc.disk))
      ensures var tx := Tx(old(lh), BlocksAt(l, old(bc.Contents()), old(lh)));
              && TxFits(l, old(bc.disk), tx) && k <= |TxWrites(l, old(bc.disk), tx)|
              && Issued(old(Snap(bc)), Snap(bc), TxWrites(l, old(bc.disk), tx)[..k])
              && (r.Done? ==> k == |TxWrites(l, old(bc.disk), tx)|)
              && After(l, Home(l, old(bc.disk)), tx) == Home(l, old(bc.Contents()))
      ensures r.Done? ==> Valid() && Pinned() && State() == A.INITIAL
      ensures r.Done? && NoBusy(old(bc.buf[..])) ==> NoBusy(bc.buf[..])
      ensures NoBusy(old(bc.buf[..])) ==> (r.Done? <==> |old(lh)| < NBUF)
      ensures old(Cleared()) && r.Done? ==> Cleared() && Home(l, bc.disk) == Home(l, old(bc.Contents()))
    {
      hide Consistent, Linked, View, HasLog, Loggable, Apply, DirtyAddrs, LoggedAddrs, AtRest, BlocksAt, TxFits, After,
           Home, InView, Issued, TxWrites, NoBusy;
      var doCommit;
      r, doCommit := EndOp();
      assert doCommit;
      r, k := Commit();
      if r.Done? {
        Reopen();
      }
    }

    /**
     log_write: records the sector, once, and pins the buffer.  Nothing reaches the
     device, and readers see the same contents.
     */
    method LogWrite(b: nat) returns (r: Outcome)
      requires Valid() && Pinned() && b < NBUF && bc.buf[b].busy && bc.buf[b].valid
      requires bc.buf[b].addr.dev == l.dev && !InLog(l, bc.buf[b].addr) && bc.buf[b].addr.sector < 0x1_0000_0000
      modifies this`lh, bc.buf
      ensures r.Panic? <==> old(A.WritePanics(State(), l.size))
      ensures r.Done? || r.Panic?
      ensures r.Done? ==> State() == A.LogWrite(old(State()), old(bc.buf[b]).addr.sector)
      ensures r.Done? ==> Valid() && Pinned() && bc.Contents() == old(bc.Contents())
      ensures r.Done? ==> bc.buf[..] == old(bc.buf[..])[b := old(bc.buf[b]).(dirty := true)]
    {
      hide Linked, Consistent, View;
      if |lh| >= LOGSIZE || |lh| >= l.size - 1 || outstanding < 1 {
        return Panic;
      }
      var sector := bc.buf[b].addr.sector;
      var i := 0;
      while i < |lh| && lh[i] != sector
        invariant 0 <= i <= |lh|
        invariant sector !in lh[..i]
      {
        i := i + 1;
      }
      HomeInDisk(b);
      if i == |lh| {
        lh := lh + [sector];
      } else {
        lh := lh[i := sector];
      }
      bc.Pin(b);
      PinnedNext(l, old(bc.buf[..]), b, old(lh), lh);
      r := Done;
    }

    /**
     bread, a store into the buffer, log_write and brelse: one update of what readers see,
     none of the device.  With every buffer idle it fails exactly when the sector does not
     exist or log_write panics.
     */
    method Update(a: Addr, data: Block) returns (r: Outcome)
      requires Valid() && Pinned() && a.dev == l.dev && !InLog(l, a) && a.sector < 0x1_0000_0000
      modifies this`lh, bc`lru, bc`stamp, bc`clock, bc.buf, bc.next, bc.prev
      ensures r.Done? ==> Valid() && Pinned() && bc.Contents() == old(bc.Contents())[a := data]
      ensures r.Done? ==> State() == A.LogWrite(old(State()), a.sector)
      ensures r.Done? && NoBusy(old(bc.buf[..])) ==> NoBusy(bc.buf[..])
      ensures r.Done? && AtRest(old(bc.buf[..]), bc.disk) ==> AtRest(bc.buf[..], bc.disk)
      ensures NoBusy(old(bc.buf[..])) ==> (r.Done? <==> a in bc.disk && !old(A.WritePanics(State(), l.size)))
    {
      hide Linked, Consistent, View, HasLog, Loggable, DirtyAddrs, LoggedAddrs;
      HeaderPinned();
      ghost var was := bc.buf[..];
      if |lh| < NBUF { ghost var k := CleanBufferExists(was, bc.disk); }
      var b;
      r, b := bc.Bread(a);
      if r.Done? {
        DirtySame(was, b, bc.buf[b]);
        assert bc.buf[..] == was[b := bc.buf[b]];
        bc.Store(b, data);
        DirtySame(was, b, bc.buf[b]);
        assert bc.buf[..] == was[b := bc.buf[b]];
        r := LogWrite(b);
        if r.Done? {
          ghost var logged := bc.buf[..];
          bc.Brelse(b);
          DirtySame(logged, b, bc.buf[b]);
          assert bc.buf[..] == logged[b := bc.buf[b]] == was[b := bc.buf[b]];
        }
      }
    }

    lemma HomeInDisk(b: nat)
      requires bc.Valid() && b < NBUF && bc.buf[b].valid
      ensures bc.buf[b].addr in bc.disk
    {
    }
  }
}
