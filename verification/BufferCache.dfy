/**
 The buffer cache of kernel/bio.c: NBUF buffers on a doubly linked list kept
 in order of last release, over a disk whose sector writes are atomic.

 Links are indices into the buffer array; index NBUF is the list head.
 */
module BufferCache {
  import opened Blocks
  import opened Counting

  const NBUF: nat := 30
  const HEAD: nat := NBUF
  const NODEV: nat := 0xFFFF_FFFF

  datatype Addr = Addr(dev: nat, sector: nat)
  datatype Buf = Buf(addr: Addr, busy: bool, valid: bool, dirty: bool, data: Block)
  datatype Write = Write(addr: Addr, data: Block)

  type Disk = map<Addr, Block>

  /** MustSleep: the buffer is held by another process.  Panic: the kernel halts. */
  datatype Outcome = Done | MustSleep | Panic

  // ---------- What the cache stands for ----------

  ghost predicate HoldsAt(bufs: seq<Buf>, a: Addr, i: int) {
    0 <= i < |bufs| && bufs[i].addr == a && bufs[i].valid
  }

  /** The value of a sector as its next holder will see it. */
  ghost function Lookup(bufs: seq<Buf>, disk: Disk, a: Addr): Block
    requires a in disk
  {
    if exists i :: HoldsAt(bufs, a, i) then
      var i :| HoldsAt(bufs, a, i);
      bufs[i].data
    else
      disk[a]
  }

  /** The plain disk that the cache and the device together implement. */
  ghost function View(bufs: seq<Buf>, disk: Disk): Disk {
    map a | a in disk :: Lookup(bufs, disk, a)
  }

  /**
   At most one buffer per real sector; only clean idle buffers may be recycled,
   so those must agree with the device.
   */
  ghost predicate Consistent(bufs: seq<Buf>, disk: Disk) {
    && |bufs| == NBUF
    && (forall a :: a in disk ==> a.dev != NODEV)
    && (forall i, j :: 0 <= i < j < |bufs| && bufs[i].addr == bufs[j].addr ==> bufs[i].addr.dev == NODEV)
    && (forall i :: 0 <= i < |bufs| && bufs[i].dirty ==> bufs[i].valid)
    && (forall i :: 0 <= i < |bufs| && bufs[i].valid ==> bufs[i].addr in disk)
    && (forall i :: 0 <= i < |bufs| && bufs[i].valid && !bufs[i].dirty && !bufs[i].busy ==>
                      bufs[i].data == disk[bufs[i].addr])
  }

  lemma LookupHit(bufs: seq<Buf>, disk: Disk, i: int)
    requires Consistent(bufs, disk)
    requires 0 <= i < |bufs| && bufs[i].valid
    ensures Lookup(bufs, disk, bufs[i].addr) == bufs[i].data
  {
    assert HoldsAt(bufs, bufs[i].addr, i);
  }

  /** Two cache states with the same valid contents for a sector agree on it. */
  lemma LookupSame(bufs: seq<Buf>, disk: Disk, bufs': seq<Buf>, disk': Disk, a: Addr)
    requires Consistent(bufs, disk) && Consistent(bufs', disk')
    requires a in disk && a in disk'
    requires forall i :: 0 <= i < NBUF && bufs[i].addr == a && bufs[i].valid ==>
                           bufs'[i].addr == a && bufs'[i].valid && bufs'[i].data == bufs[i].data
    requires forall i :: 0 <= i < NBUF && bufs'[i].addr == a && bufs'[i].valid ==>
                           HoldsAt(bufs, a, i) || bufs'[i].data == Lookup(bufs, disk, a)
    requires (forall i :: !HoldsAt(bufs, a, i)) ==> disk'[a] == disk[a]
    ensures Lookup(bufs', disk', a) == Lookup(bufs, disk, a)
  {
    if i :| HoldsAt(bufs, a, i) {
      LookupHit(bufs, disk, i);
      LookupHit(bufs', disk', i);
    } else if j :| HoldsAt(bufs', a, j) {
      LookupHit(bufs', disk', j);
    }
  }

  lemma ClaimKeepsView(bufs: seq<Buf>, disk: Disk, b: nat)
    requires Consistent(bufs, disk) && b < NBUF
    ensures Consistent(bufs[b := bufs[b].(busy := true)], disk)
    ensures View(bufs[b := bufs[b].(busy := true)], disk) == View(bufs, disk)
  {
    var bufs' := bufs[b := bufs[b].(busy := true)];
    forall x | x in disk
      ensures Lookup(bufs', disk, x) == Lookup(bufs, disk, x)
    {
      LookupSame(bufs, disk, bufs', disk, x);
    }
  }

  lemma RecycleKeepsView(bufs: seq<Buf>, disk: Disk, b: nat, a: Addr)
    requires Consistent(bufs, disk) && b < NBUF && !bufs[b].busy && !bufs[b].dirty
    requires forall i :: 0 <= i < NBUF ==> bufs[i].addr != a
    ensures Consistent(bufs[b := Buf(a, true, false, false, bufs[b].data)], disk)
    ensures View(bufs[b := Buf(a, true, false, false, bufs[b].data)], disk) == View(bufs, disk)
  {
    var bufs' := bufs[b := Buf(a, true, false, false, bufs[b].data)];
    forall x | x in disk
      ensures Lookup(bufs', disk, x) == Lookup(bufs, disk, x)
    {
      if x == bufs[b].addr && bufs[b].valid {
        LookupHit(bufs, disk, b);
        assert forall i :: !HoldsAt(bufs', x, i);
      } else {
        LookupSame(bufs, disk, bufs', disk, x);
      }
    }
  }

  lemma FillKeepsView(bufs: seq<Buf>, disk: Disk, b: nat)
    requires Consistent(bufs, disk) && b < NBUF && !bufs[b].valid && bufs[b].addr in disk
    ensures var full := bufs[b].(valid := true, dirty := false, data := disk[bufs[b].addr]);
            Consistent(bufs[b := full], disk) && View(bufs[b := full], disk) == View(bufs, disk)
  {
    var a := bufs[b].addr;
    var bufs' := bufs[b := bufs[b].(valid := true, dirty := false, data := disk[a])];
    assert forall i :: !HoldsAt(bufs, a, i);
    assert Lookup(bufs, disk, a) == disk[a];
    forall x | x in disk
      ensures Lookup(bufs', disk, x) == Lookup(bufs, disk, x)
    {
      LookupSame(bufs, disk, bufs', disk, x);
    }
  }

  lemma StoreChangesView(bufs: seq<Buf>, disk: Disk, b: nat, data: Block)
    requires Consistent(bufs, disk) && b < NBUF && bufs[b].busy && bufs[b].valid
    ensures Consistent(bufs[b := bufs[b].(data := data)], disk)
    ensures View(bufs[b := bufs[b].(data := data)], disk) == View(bufs, disk)[bufs[b].addr := data]
  {
    var bufs' := bufs[b := bufs[b].(data := data)];
    LookupHit(bufs', disk, b);
    forall x | x in disk && x != bufs[b].addr
      ensures Lookup(bufs', disk, x) == Lookup(bufs, disk, x)
    {
      LookupSame(bufs, disk, bufs', disk, x);
    }
  }

  lemma PinKeepsView(bufs: seq<Buf>, disk: Disk, b: nat)
    requires Consistent(bufs, disk) && b < NBUF && bufs[b].busy && bufs[b].valid
    ensures Consistent(bufs[b := bufs[b].(dirty := true)], disk)
    ensures View(bufs[b := bufs[b].(dirty := true)], disk) == View(bufs, disk)
  {
    var bufs' := bufs[b := bufs[b].(dirty := true)];
    forall x | x in disk
      ensures Lookup(bufs', disk, x) == Lookup(bufs, disk, x)
    {
      LookupSame(bufs, disk, bufs', disk, x);
    }
  }

  lemma WriteKeepsView(bufs: seq<Buf>, disk: Disk, b: nat)
    requires Consistent(bufs, disk) && b < NBUF && bufs[b].busy && bufs[b].valid
    ensures var disk' := disk[bufs[b].addr := bufs[b].data];
            && Consistent(bufs[b := bufs[b].(dirty := false)], disk')
            && View(bufs[b := bufs[b].(dirty := false)], disk') == View(bufs, disk)
  {
    var bufs' := bufs[b := bufs[b].(dirty := false)];
    var disk' := disk[bufs[b].addr := bufs[b].data];
    assert HoldsAt(bufs, bufs[b].addr, b);
    forall x | x in disk
      ensures Lookup(bufs', disk', x) == Lookup(bufs, disk, x)
    {
      LookupSame(bufs, disk, bufs', disk', x);
    }
  }

  lemma ReleaseKeepsView(bufs: seq<Buf>, disk: Disk, b: nat)
    requires Consistent(bufs, disk) && b < NBUF && bufs[b].valid
    requires bufs[b].dirty || bufs[b].data == disk[bufs[b].addr]
    ensures Consistent(bufs[b := bufs[b].(busy := false)], disk)
    ensures View(bufs[b := bufs[b].(busy := false)], disk) == View(bufs, disk)
  {
    var bufs' := bufs[b := bufs[b].(busy := false)];
    forall x | x in disk
      ensures Lookup(bufs', disk, x) == Lookup(bufs, disk, x)
    {
      LookupSame(bufs, disk, bufs', disk, x);
    }
  }

  // ---------- The list ----------

  /** The i-th node of the ring; the head stands before the first and after the last buffer. */
  ghost function Node(list: seq<nat>, i: int): nat {
    if 0 <= i < |list| then list[i] else HEAD
  }

  ghost predicate Adjacent(next: seq<nat>, prev: seq<nat>, x: nat, y: nat)
    requires |next| == |prev| == NBUF + 1 && x <= HEAD && y <= HEAD
  {
    next[x] == y && prev[y] == x
  }

  ghost predicate Distinct(list: seq<nat>) {
    && (forall i :: 0 <= i < |list| ==> list[i] < NBUF)
    && (forall i, j :: 0 <= i < j < |list| ==> list[i] != list[j])
  }

  ghost predicate JoinedAt(next: seq<nat>, prev: seq<nat>, list: seq<nat>, i: int)
    requires |next| == |prev| == NBUF + 1 && Distinct(list)
  {
    Adjacent(next, prev, Node(list, i - 1), Node(list, i))
  }

  /** next and prev thread exactly the buffers of the list, in order, through the head. */
  ghost predicate Linked(next: seq<nat>, prev: seq<nat>, list: seq<nat>) {
    && |next| == |prev| == NBUF + 1
    && Distinct(list)
    && forall i :: 0 <= i <= |list| ==> JoinedAt(next, prev, list, i)
  }

  lemma Neighbours(next: seq<nat>, prev: seq<nat>, list: seq<nat>, k: nat)
    requires Linked(next, prev, list) && k < |list|
    ensures next[list[k]] == Node(list, k + 1) <= HEAD && prev[list[k]] == Node(list, k - 1) <= HEAD
    ensures next[HEAD] == Node(list, 0) && prev[HEAD] == Node(list, |list| - 1)
  {
    assert JoinedAt(next, prev, list, k) && JoinedAt(next, prev, list, k + 1);
    assert JoinedAt(next, prev, list, 0) && JoinedAt(next, prev, list, |list|);
  }

  lemma Unlink(next: seq<nat>, prev: seq<nat>, list: seq<nat>, k: nat)
    requires Linked(next, prev, list) && k < |list|
    requires next[list[k]] <= HEAD && prev[list[k]] <= HEAD
    ensures Linked(next[prev[list[k]] := next[list[k]]], prev[next[list[k]] := prev[list[k]]],
              list[..k] + list[k + 1..])
  {
    Neighbours(next, prev, list, k);
    var rest := list[..k] + list[k + 1..];
    var next', prev' := next[prev[list[k]] := next[list[k]]], prev[next[list[k]] := prev[list[k]]];
    forall i | 0 <= i <= |rest|
      ensures JoinedAt(next', prev', rest, i)
    {
      if i < k {
        assert JoinedAt(next, prev, list, i);
      } else if i > k {
        assert JoinedAt(next, prev, list, i + 1);
      }
    }
  }

  lemma PushFront(next: seq<nat>, prev: seq<nat>, list: seq<nat>, b: nat)
    requires Linked(next, prev, list) && b < NBUF && b !in list
    requires next[HEAD] <= HEAD
    ensures Linked(next[b := next[HEAD]][HEAD := b], prev[b := HEAD][next[HEAD] := b], [b] + list)
  {
    var more := [b] + list;
    var next', prev' := next[b := next[HEAD]][HEAD := b], prev[b := HEAD][next[HEAD] := b];
    assert JoinedAt(next, prev, list, 0);
    forall i | 0 <= i <= |more|
      ensures JoinedAt(next', prev', more, i)
    {
      if i > 0 {
        assert JoinedAt(next, prev, list, i - 1);
      }
    }
  }

  /** The list with buffer b taken out. */
  ghost function Without(lru: seq<nat>, b: nat): seq<nat> {
    if lru == [] then []
    else if lru[0] == b then Without(lru[1..], b)
    else [lru[0]] + Without(lru[1..], b)
  }

  lemma {:induction false} WithoutAbsent(lru: seq<nat>, b: nat)
    requires b !in lru
    ensures Without(lru, b) == lru
  {
    if lru != [] {
      WithoutAbsent(lru[1..], b);
    }
  }

  lemma {:induction false} WithoutAt(lru: seq<nat>, k: nat)
    requires k < |lru|
    requires forall i, j :: 0 <= i < j < |lru| ==> lru[i] != lru[j]
    ensures Without(lru, lru[k]) == lru[..k] + lru[k + 1..]
  {
    if k == 0 {
      WithoutAbsent(lru[1..], lru[0]);
    } else {
      WithoutAt(lru[1..], k - 1);
      assert lru[1..][..k - 1] + lru[1..][k..] == lru[1..k] + lru[k + 1..];
      assert [lru[0]] + (lru[1..k] + lru[k + 1..]) == lru[..k] + lru[k + 1..];
    }
  }

  /** Stamping the moved buffer with the current time keeps the list in order of last release. */
  lemma StampsFollow(lru: seq<nat>, stamp: seq<int>, b: nat, clock: int)
    requires |lru| == |stamp| == NBUF && b < NBUF && b in lru
    requires forall i :: 0 <= i < NBUF ==> lru[i] < NBUF && stamp[lru[i]] < clock
    requires forall i, j :: 0 <= i < j < NBUF ==> stamp[lru[i]] > stamp[lru[j]]
    ensures var lru', stamp' := [b] + Without(lru, b), stamp[b := clock];
            && |lru'| == NBUF && (forall i :: 0 <= i < NBUF ==> lru'[i] < NBUF && stamp'[lru'[i]] < clock + 1)
            && (forall i, j :: 0 <= i < j < NBUF ==> stamp'[lru'[i]] > stamp'[lru'[j]])
  {
    var k :| 0 <= k < |lru| && lru[k] == b;
    WithoutAt(lru, k);
    var lru' := [b] + Without(lru, b);
    forall i | 0 < i < NBUF
      ensures lru'[i] == lru[if i <= k then i - 1 else i]
    {
      MovedAt(lru, k, i);
    }
    hide Without;
    var stamp' := stamp[b := clock];
    forall i, j | 0 <= i < j < NBUF
      ensures stamp'[lru'[i]] > stamp'[lru'[j]]
    {
      var v := if j <= k then j - 1 else j;
      assert lru'[j] == lru[v] && stamp[lru[v]] < clock;
      if i > 0 {
        var u := if i <= k then i - 1 else i;
        assert lru'[i] == lru[u] && stamp[lru[u]] > stamp[lru[v]];
      }
    }
  }

  lemma MovedAt(lru: seq<nat>, k: nat, i: nat)
    requires k < |lru| && 0 < i < |lru|
    ensures ([lru[k]] + (lru[..k] + lru[k + 1..]))[i] == lru[if i <= k then i - 1 else i]
  {
  }

  /** Every buffer occurs on the list (the list is a permutation of the buffers). */
  lemma ListCovers(lru: seq<nat>, n: nat, b: nat)
    requires |lru| == n && b < n
    requires forall i :: 0 <= i < n ==> lru[i] < n
    requires forall i, j :: 0 <= i < j < n ==> lru[i] != lru[j]
    ensures b in lru
  {
    if b !in lru {
      var t := set x | x in lru;
      DistinctCount(lru);
      assert t <= Below(n) - {b};
      Subset(t, Below(n) - {b});
    }
  }

  // ---------- The cache ----------

  /** The list built by binit: every buffer, the highest index first. */
  method Binit(next: array<nat>, prev: array<nat>, ghost lru: seq<nat>)
    requires next.Length == prev.Length == NBUF + 1 && next != prev
    requires |lru| == NBUF && forall i :: 0 <= i < NBUF ==> lru[i] == NBUF - 1 - i
    modifies next, prev
    ensures Linked(next[..], prev[..], lru)
  {
    next[HEAD] := HEAD;
    prev[HEAD] := HEAD;
    for b := 0 to NBUF
      invariant Linked(next[..], prev[..], lru[NBUF - b..])
    {
      ghost var nextWas: seq<nat>, prevWas: seq<nat>, list := next[..], prev[..], lru[NBUF - b..];
      assert JoinedAt(nextWas, prevWas, list, 0);
      PushFront(nextWas, prevWas, list, b);
      next[b] := next[HEAD];
      prev[b] := HEAD;
      prev[next[HEAD]] := b;
      next[HEAD] := b;
      assert next[..] == nextWas[b := nextWas[HEAD]][HEAD := b];
      assert prev[..] == prevWas[b := HEAD][nextWas[HEAD] := b];
      assert [b] + list == lru[NBUF - b - 1..];
    }
  }

  lemma FirstNode(next: seq<nat>, prev: seq<nat>, list: seq<nat>)
    requires Linked(next, prev, list)
    ensures |next| == |prev| == NBUF + 1 && next[HEAD] <= HEAD
  {
    assert JoinedAt(next, prev, list, 0);
  }

  /** A buffer is on the list once. */
  lemma OnList(next: seq<nat>, prev: seq<nat>, lru: seq<nat>, b: nat)
    requires Linked(next, prev, lru) && b in lru
    ensures forall i, j :: 0 <= i < j < |lru| ==> lru[i] != lru[j]
    ensures b !in Without(lru, b)
  {
    var k :| 0 <= k < |lru| && lru[k] == b;
    WithoutAt(lru, k);
  }

  /** The relinking done by brelse. */
  method MoveToFront(next: array<nat>, prev: array<nat>, ghost lru: seq<nat>, b: nat)
    requires next.Length == prev.Length == NBUF + 1 && next != prev
    requires Linked(next[..], prev[..], lru) && b < NBUF && b in lru
    modifies next, prev
    ensures Linked(next[..], prev[..], [b] + Without(lru, b))
  {
    hide Linked, Without;
    ghost var next0: seq<nat>, prev0: seq<nat> := next[..], prev[..];
    ghost var k :| 0 <= k < |lru| && lru[k] == b;
    OnList(next0, prev0, lru, b);
    Neighbours(next0, prev0, lru, k);
    Unlink(next0, prev0, lru, k);
    WithoutAt(lru, k);

    prev[next[b]] := prev[b];
    next[prev[b]] := next[b];
    ghost var next1: seq<nat>, prev1: seq<nat> := next[..], prev[..];
    assert next1 == next0[prev0[b] := next0[b]] && prev1 == prev0[next0[b] := prev0[b]];
    FirstNode(next1, prev1, Without(lru, b));
    PushFront(next1, prev1, Without(lru, b), b);

    next[b] := next[HEAD];
    prev[b] := HEAD;
    prev[next[HEAD]] := b;
    next[HEAD] := b;
    assert next[..] == next1[b := next1[HEAD]][HEAD := b];
    assert prev[..] == prev1[b := HEAD][next1[HEAD] := b];
  }

  class Cache {
    const buf: array<Buf>
    const next: array<nat>
    const prev: array<nat>
    var disk: Disk
    /** Sector writes issued so far, oldest first. */
    ghost var trace: seq<Write>
    /** The list from most to least recently released. */
    ghost var lru: seq<nat>
    /** When each buffer was last released. */
    ghost var stamp: seq<int>
    ghost var clock: int

    ghost predicate Valid()
      reads this, buf, next, prev
    {
      && buf.Length == NBUF && next.Length == prev.Length == NBUF + 1 && next != prev
      && Consistent(buf[..], disk)
      && Linked(next[..], prev[..], lru)
      && |lru| == |stamp| == NBUF
      && (forall i :: 0 <= i < NBUF ==> stamp[lru[i]] < clock)
      && (forall i, j :: 0 <= i < j < NBUF ==> stamp[lru[i]] > stamp[lru[j]])
    }

    ghost function Contents(): Disk
      reads this, buf
    {
      View(buf[..], disk)
    }

    constructor (device: Disk)
      requires forall a :: a in device ==> a.dev != NODEV
      ensures Valid() && fresh(buf) && fresh(next) && fresh(prev)
      ensures disk == device && trace == []
      ensures Contents() == device
      ensures forall i :: 0 <= i < NBUF ==> !buf[i].busy && !buf[i].valid && !buf[i].dirty
    {
      disk := device;
      trace := [];
      buf := new Buf[NBUF](_ => Buf(Addr(NODEV, 0), false, false, false, ZeroBlock()));
      next := new nat[NBUF + 1](_ => HEAD);
      prev := new nat[NBUF + 1](_ => HEAD);
      lru := seq(NBUF, i requires 0 <= i < NBUF => NBUF - 1 - i);
      stamp := seq(NBUF, i => i);
      clock := NBUF;
      new;
      Binit(next, prev, lru);
      assert forall i :: !HoldsAt(buf[..], Addr(0, 0), i);
      assert forall a :: a in disk ==> Lookup(buf[..], disk, a) == disk[a];
    }

    /** The first loop of bget: the buffer caching a sector, or HEAD. */
    method FindCached(a: Addr) returns (b: nat)
      requires Valid()
      ensures b <= HEAD
      ensures b < HEAD ==> buf[b].addr == a
      ensures b == HEAD ==> forall i :: 0 <= i < NBUF ==> buf[i].addr != a
    {
      Neighbours(next[..], prev[..], lru, 0);
      b := next[HEAD];
      ghost var k := 0;
      while b != HEAD
        invariant 0 <= k <= NBUF
        invariant b == if k == NBUF then HEAD else lru[k]
        invariant forall i :: 0 <= i < k ==> buf[lru[i]].addr != a
        decreases NBUF - k
      {
        if buf[b].addr == a {
          return;
        }
        Neighbours(next[..], prev[..], lru, k);
        b := next[b];
        k := k + 1;
      }
      forall i | 0 <= i < NBUF
        ensures buf[i].addr != a
      {
        ListCovers(lru, NBUF, i);
      }
    }

    /** The second loop of bget: the least recently released clean idle buffer, or HEAD. */
    method FindVictim() returns (b: nat)
      requires Valid()
      ensures b <= HEAD
      ensures b < HEAD ==> !buf[b].busy && !buf[b].dirty
      ensures b < HEAD ==> forall i :: 0 <= i < NBUF && !buf[i].busy && !buf[i].dirty ==> stamp[b] <= stamp[i]
      ensures b == HEAD ==> forall i :: 0 <= i < NBUF ==> buf[i].busy || buf[i].dirty
    {
      Neighbours(next[..], prev[..], lru, 0);
      b := prev[HEAD];
      ghost var k := NBUF - 1;
      while b != HEAD
        invariant -1 <= k < NBUF
        invariant b == if k == -1 then HEAD else lru[k]
        invariant forall i :: k < i < NBUF ==> buf[lru[i]].busy || buf[lru[i]].dirty
        decreases k
      {
        if !buf[b].busy && !buf[b].dirty {
          forall i | 0 <= i < NBUF && !buf[i].busy && !buf[i].dirty
            ensures stamp[b] <= stamp[i]
          {
            ListCovers(lru, NBUF, i);
          }
          return;
        }
        Neighbours(next[..], prev[..], lru, k);
        b := prev[b];
        k := k - 1;
      }
      forall i | 0 <= i < NBUF
        ensures buf[i].busy || buf[i].dirty
      {
        ListCovers(lru, NBUF, i);
      }
    }

    /** bget: claims the buffer of a sector, recycling the least recently released clean one on a miss. */
    method Bget(a: Addr) returns (r: Outcome, b: nat)
      requires Valid()
      modifies buf
      ensures Valid()
      ensures r.MustSleep? ==> exists i :: 0 <= i < NBUF && old(buf[..])[i].addr == a && old(buf[..])[i].busy
      ensures a.dev != NODEV && !r.MustSleep? ==> forall i :: 0 <= i < NBUF && old(buf[..])[i].addr == a ==>
                !old(buf[..])[i].busy
      ensures r.Panic? <==> (forall i :: 0 <= i < NBUF ==>
                old(buf[i]).addr != a && (old(buf[i]).busy || old(buf[i]).dirty))
      ensures !r.Done? ==> buf[..] == old(buf[..])
      ensures r.Done? ==> b < NBUF && !old(buf[b]).busy
      ensures r.Done? ==> buf[..] == old(buf[..])[b := if old(buf[b]).addr == a then old(buf[b]).(busy := true)
                                                      else Buf(a, true, false, false, old(buf[b]).data)]
      ensures r.Done? && old(buf[b]).addr != a ==>
                && (forall i :: 0 <= i < NBUF ==> old(buf[i]).addr != a) && !old(buf[b]).dirty
                && (forall i :: 0 <= i < NBUF && !old(buf[i]).busy && !old(buf[i]).dirty ==> stamp[b] <= stamp[i])
      ensures Contents() == old(Contents())
    {
      ghost var was := buf[..];
      b := FindCached(a);
      if b != HEAD && buf[b].busy {
        return MustSleep, b;
      }
      if b != HEAD {
        buf[b] := buf[b].(busy := true);
        assert buf[..] == was[b := was[b].(busy := true)];
        ClaimKeepsView(was, disk, b);
      } else {
        b := FindVictim();
        if b == HEAD {
          return Panic, b;
        }
        buf[b] := Buf(a, true, false, false, buf[b].data);
        assert buf[..] == was[b := Buf(a, true, false, false, was[b].data)];
        RecycleKeepsView(was, disk, b, a);
      }
      r := Done;
    }

    /**
     bread: a held buffer with the latest value written for the sector, unless the
     sector's buffer is held (sleep), no buffer can be recycled or the device has no
     such sector (panic).
     */
    method Bread(a: Addr) returns (r: Outcome, b: nat)
      requires Valid()
      modifies buf
      ensures Valid()
      ensures r.MustSleep? ==> exists i :: 0 <= i < NBUF && old(buf[..])[i].addr == a && old(buf[..])[i].busy
      ensures a.dev != NODEV && !r.MustSleep? ==> forall i :: 0 <= i < NBUF && old(buf[..])[i].addr == a ==>
                !old(buf[..])[i].busy
      ensures r.Panic? <==>
                (!r.MustSleep? &&
                 (a !in disk || forall i :: 0 <= i < NBUF ==>
                     old(buf[i]).addr != a && (old(buf[i]).busy || old(buf[i]).dirty)))
      ensures r.Done? ==> b < NBUF && !old(buf[b]).busy && a in disk
      ensures r.Done? ==> buf[..] == old(buf[..])[b := Buf(a, true, true, old(buf[b]).dirty, old(Contents())[a])]
      ensures r.Done? && old(buf[b]).dirty ==> old(buf[b]).addr == a
      ensures r.Done? ==> buf[b].dirty || buf[b].data == disk[a]
      ensures Contents() == old(Contents())
    {
      ghost var was := buf[..];
      r, b := Bget(a);
      if r.Done? {
        ghost var mid := buf[..];
        if !buf[b].valid {
          if a !in disk {
            return Panic, b;
          }
          buf[b] := buf[b].(valid := true, dirty := false, data := disk[a]);
          assert buf[..] == mid[b := mid[b].(valid := true, dirty := false, data := disk[a])];
          FillKeepsView(mid, disk, b);
        }
        LookupHit(buf[..], disk, b);
        assert buf[..][b] == Buf(a, true, true, was[b].dirty, View(was, disk)[a]);
      }
    }

    /** The holder of a buffer changes its data in place. */
    method Store(b: nat, data: Block)
      requires Valid() && b < NBUF && buf[b].busy && buf[b].valid
      modifies buf
      ensures Valid()
      ensures buf[..] == old(buf[..])[b := old(buf[b]).(data := data)]
      ensures Contents() == old(Contents())[buf[b].addr := data]
    {
      ghost var was := buf[..];
      buf[b] := buf[b].(data := data);
      assert buf[..] == was[b := was[b].(data := data)];
      StoreChangesView(was, disk, b, data);
    }

    /** The last step of log_write: the buffer is pinned until its block is on disk. */
    method Pin(b: nat)
      requires Valid() && b < NBUF && buf[b].busy && buf[b].valid
      modifies buf
      ensures Valid()
      ensures buf[..] == old(buf[..])[b := old(buf[b]).(dirty := true)]
      ensures Contents() == old(Contents())
    {
      ghost var was := buf[..];
      buf[b] := buf[b].(dirty := true);
      assert buf[..] == was[b := was[b].(dirty := true)];
      PinKeepsView(was, disk, b);
    }

    /** bwrite: the only operation that changes the device; readers see no difference. */
    method Bwrite(b: nat)
      requires Valid() && b < NBUF && buf[b].busy && buf[b].valid
      modifies this`disk, this`trace, buf
      ensures Valid()
      ensures buf[..] == old(buf[..])[b := old(buf[b]).(dirty := false)]
      ensures trace == old(trace) + [Write(buf[b].addr, buf[b].data)]
      ensures disk == old(disk)[buf[b].addr := buf[b].data]
      ensures Contents() == old(Contents())
    {
      ghost var was := buf[..];
      ghost var before := disk;
      disk := disk[buf[b].addr := buf[b].data];
      trace := trace + [Write(buf[b].addr, buf[b].data)];
      buf[b] := buf[b].(dirty := false);
      assert buf[..] == was[b := was[b].(dirty := false)];
      WriteKeepsView(was, before, b);
    }

    /**
     brelse: moves the buffer to the front of the list.  A holder that changed the
     data must have logged or written it first.
     */
    method Brelse(b: nat)
      requires Valid() && b < NBUF && buf[b].busy && buf[b].valid
      requires buf[b].dirty || buf[b].data == disk[buf[b].addr]
      modifies this`lru, this`stamp, this`clock, buf, next, prev
      ensures Valid()
      ensures buf[..] == old(buf[..])[b := old(buf[b]).(busy := false)]
      ensures lru == [b] + Without(old(lru), b)
      ensures stamp == old(stamp)[b := old(clock)] && clock == old(clock) + 1
      ensures Contents() == old(Contents())
    {
      ghost var was := buf[..];
      ListCovers(lru, NBUF, b);
      MoveToFront(next, prev, lru, b);
      buf[b] := buf[b].(busy := false);

      assert buf[..] == was[b := was[b].(busy := false)];
      ReleaseKeepsView(was, disk, b);
      StampsFollow(lru, stamp, b, clock);
      lru := [b] + Without(lru, b);
      stamp := stamp[b := clock];
      clock := clock + 1;
    }
  }
}
