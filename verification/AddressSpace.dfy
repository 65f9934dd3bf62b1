/**
 Page tables of kernel/vm.c over the page allocator of kernel/kalloc.c: copying an
 address space.  Memory is a sequence of page frames, each holding bytes or the 512
 entries of a page directory or page table.  Pages are numbered from virtual address 0.
 */
module AddressSpace {
  import opened Blocks
  import opened Options

  const ENTRIES: nat := 512
  const PGSIZE: nat := 4096

  /** Directory slots below the two that setupkvm uses for its backpointers. */
  const SLOTS: nat := 510
  const PAGES: nat := 261120

  /** The pages below 0x3fa00000, the bound that freevm gives to deallocuvm. */
  const FREED: nat := 260608

  /** A frame and the low twelve bits. */
  datatype Entry = Entry(frame: nat, flags: nat)

  /** PTE_P. */
  predicate Present(e: Entry) { e.flags % 2 == 1 }

  datatype Page = Bytes(bytes: seq<Byte>) | Table(entries: seq<Entry>)

  predicate IsTable(m: seq<Page>, t: nat) { t < |m| && m[t].Table? && |m[t].entries| == ENTRIES }

  function ZeroTable(): Page { Table(seq(ENTRIES, _ => Entry(0, 0))) }

  /** What kfree fills a page with. */
  function Junk(): Page { Bytes(seq(PGSIZE, _ => 1)) }

  // ---------- A directory and what it maps ----------

  predicate SlotOk(m: seq<Page>, d: nat, i: nat)
    requires IsTable(m, d) && i < SLOTS
  {
    Present(m[d].entries[i]) ==> IsTable(m, m[d].entries[i].frame) && m[d].entries[i].frame != d
  }

  predicate SlotsApart(m: seq<Page>, d: nat, i: nat, j: nat)
    requires IsTable(m, d) && i < SLOTS && j < SLOTS
  {
    i != j && Present(m[d].entries[i]) && Present(m[d].entries[j]) ==> m[d].entries[i].frame != m[d].entries[j].frame
  }

  /** A page directory whose present user slots name page tables, no two the same. */
  ghost predicate Dir(m: seq<Page>, d: nat) {
    && IsTable(m, d)
    && (forall i :: 0 <= i < SLOTS ==> SlotOk(m, d, i))
    && (forall i, j :: 0 <= i < SLOTS && 0 <= j < SLOTS ==> SlotsApart(m, d, i, j))
  }

  /** The entry for page v; not present if it has no page table. */
  function Leaf(m: seq<Page>, d: nat, v: nat): Entry
    requires IsTable(m, d) && v < PAGES && SlotOk(m, d, v / ENTRIES)
  {
    var pde := m[d].entries[v / ENTRIES];
    if Present(pde) then m[pde.frame].entries[v % ENTRIES] else Entry(0, 0)
  }

  /** Frame k is the directory or one of its page tables. */
  ghost predicate InDir(m: seq<Page>, d: nat, k: nat)
    requires IsTable(m, d)
  {
    k == d || exists i :: 0 <= i < SLOTS && Present(m[d].entries[i]) && m[d].entries[i].frame == k
  }

  /** A directory depends on itself and its tables only. */
  lemma SameDir(m: seq<Page>, m': seq<Page>, d: nat)
    requires Dir(m, d) && |m'| == |m| && forall k :: 0 <= k < |m| && InDir(m, d, k) ==> m'[k] == m[k]
    ensures Dir(m', d) && forall v :: 0 <= v < PAGES ==> Leaf(m', d, v) == Leaf(m, d, v)
    ensures forall k :: InDir(m', d, k) <==> InDir(m, d, k)
  {
    assert InDir(m, d, d);
    forall i | 0 <= i < SLOTS ensures SlotOk(m', d, i) {
      assert SlotOk(m, d, i);
      if Present(m[d].entries[i]) { assert InDir(m, d, m[d].entries[i].frame); }
    }
    forall i, j | 0 <= i < SLOTS && 0 <= j < SLOTS ensures SlotsApart(m', d, i, j) {
      assert SlotsApart(m, d, i, j);
    }
    forall v | 0 <= v < PAGES ensures Leaf(m', d, v) == Leaf(m, d, v) {
      assert SlotOk(m, d, v / ENTRIES);
      if Present(m[d].entries[v / ENTRIES]) { assert InDir(m, d, m[d].entries[v / ENTRIES].frame); }
    }
  }

  /** After walkpgdir has given page v a page table in frame t. */
  function WithTable(m: seq<Page>, d: nat, i: nat, t: nat): seq<Page>
    requires IsTable(m, d) && t < |m| && i < ENTRIES && t != d
  {
    m[t := ZeroTable()][d := Table(m[d].entries[i := Entry(t, 7)])]
  }

  /** A new, empty page table changes no mapping. */
  lemma WithTableKeeps(m: seq<Page>, d: nat, i: nat, t: nat)
    requires Dir(m, d) && t < |m| && i < SLOTS && !InDir(m, d, t) && !Present(m[d].entries[i])
    ensures Dir(WithTable(m, d, i, t), d)
    ensures forall v :: 0 <= v < PAGES ==> Leaf(WithTable(m, d, i, t), d, v) == Leaf(m, d, v)
    ensures forall k :: InDir(WithTable(m, d, i, t), d, k) <==> InDir(m, d, k) || k == t
  {
    var m' := WithTable(m, d, i, t);
    assert forall j :: 0 <= j < SLOTS && j != i ==> m'[d].entries[j] == m[d].entries[j];
    assert m'[d].entries[i] == Entry(t, 7);
    forall j | 0 <= j < SLOTS ensures SlotOk(m', d, j) { assert SlotOk(m, d, j); }
    forall j, k | 0 <= j < SLOTS && 0 <= k < SLOTS ensures SlotsApart(m', d, j, k) {
      assert SlotsApart(m, d, j, k);
    }
    forall v | 0 <= v < PAGES ensures Leaf(m', d, v) == Leaf(m, d, v) {
      assert SlotOk(m, d, v / ENTRIES);
      if Present(m[d].entries[v / ENTRIES]) { assert InDir(m, d, m[d].entries[v / ENTRIES].frame); }
    }
  }

  /** Storing an entry for page v. */
  function WithLeaf(m: seq<Page>, d: nat, v: nat, e: Entry): seq<Page>
    requires IsTable(m, d) && v < PAGES && SlotOk(m, d, v / ENTRIES) && Present(m[d].entries[v / ENTRIES])
  {
    var t := m[d].entries[v / ENTRIES].frame;
    m[t := Table(m[t].entries[v % ENTRIES := e])]
  }

  lemma WithLeafMaps(m: seq<Page>, d: nat, v: nat, e: Entry)
    requires Dir(m, d) && v < PAGES && SlotOk(m, d, v / ENTRIES) && Present(m[d].entries[v / ENTRIES])
    ensures Dir(WithLeaf(m, d, v, e), d)
    ensures forall w :: 0 <= w < PAGES ==> Leaf(WithLeaf(m, d, v, e), d, w) == if w == v then e else Leaf(m, d, w)
    ensures forall k :: InDir(WithLeaf(m, d, v, e), d, k) <==> InDir(m, d, k)
  {
    var m' := WithLeaf(m, d, v, e);
    forall j | 0 <= j < SLOTS ensures SlotOk(m', d, j) { assert SlotOk(m, d, j); }
    forall j, k | 0 <= j < SLOTS && 0 <= k < SLOTS ensures SlotsApart(m', d, j, k) {
      assert SlotsApart(m, d, j, k);
    }
    forall w | 0 <= w < PAGES ensures Leaf(m', d, w) == if w == v then e else Leaf(m, d, w) {
      assert SlotOk(m, d, w / ENTRIES) && SlotsApart(m, d, v / ENTRIES, w / ENTRIES);
      assert v == v / ENTRIES * ENTRIES + v % ENTRIES && w == w / ENTRIES * ENTRIES + w % ENTRIES;
    }
  }

  // ---------- Spaces and their bytes ----------

  predicate LeafOk(m: seq<Page>, e: Entry) {
    Present(e) ==> e.frame < |m| && m[e.frame].Bytes? && |m[e.frame].bytes| == PGSIZE
  }

  /** An address space: a directory whose present entries name pages of bytes. */
  ghost predicate Space(m: seq<Page>, d: nat) {
    Dir(m, d) && forall v :: 0 <= v < PAGES ==> LeafOk(m, Leaf(m, d, v))
  }

  /** Pages v of one space and w of the other lie in different frames. */
  predicate PagesApart(m: seq<Page>, a: nat, v: nat, b: nat, w: nat)
    requires IsTable(m, a) && v < PAGES && SlotOk(m, a, v / ENTRIES)
    requires IsTable(m, b) && w < PAGES && SlotOk(m, b, w / ENTRIES)
  {
    Present(Leaf(m, a, v)) && Present(Leaf(m, b, w)) ==> Leaf(m, a, v).frame != Leaf(m, b, w).frame
  }

  ghost predicate Separate(m: seq<Page>, a: nat, b: nat) {
    && Space(m, a) && Space(m, b)
    && forall v, w :: 0 <= v < PAGES && 0 <= w < PAGES ==> PagesApart(m, a, v, b, w)
  }

  /** The bytes at page v, if it is mapped. */
  function Read(m: seq<Page>, d: nat, v: nat): seq<Byte>
    requires Space(m, d) && v < PAGES
  {
    if Present(Leaf(m, d, v)) then m[Leaf(m, d, v).frame].bytes else []
  }

  /** A store through space d. */
  datatype Store = Store(page: nat, offset: nat, byte: Byte)

  function Write(m: seq<Page>, d: nat, w: Store): seq<Page>
    requires Space(m, d)
  {
    if w.page < PAGES && w.offset < PGSIZE && Present(Leaf(m, d, w.page)) then
      var f := Leaf(m, d, w.page).frame;
      m[f := Bytes(m[f].bytes[w.offset := w.byte])]
    else m
  }

  /** Directories are not pages of bytes, so a store changes no mapping of any space. */
  lemma WriteKeepsSpace(m: seq<Page>, a: nat, w: Store, b: nat)
    requires Space(m, a) && Space(m, b)
    ensures Space(Write(m, a, w), b) && forall v :: 0 <= v < PAGES ==> Leaf(Write(m, a, w), b, v) == Leaf(m, b, v)
  {
    var m' := Write(m, a, w);
    forall k | 0 <= k < |m| && InDir(m, b, k) ensures m'[k] == m[k] {
      assert k != b ==>
               exists i :: 0 <= i < SLOTS && SlotOk(m, b, i) && Present(m[b].entries[i]) && m[b].entries[i].frame == k;
      assert w.page < PAGES ==> LeafOk(m, Leaf(m, a, w.page));
    }
    SameDir(m, m', b);
    forall v | 0 <= v < PAGES ensures LeafOk(m', Leaf(m', b, v)) {
      assert LeafOk(m, Leaf(m, b, v));
    }
  }

  lemma WriteIsolated(m: seq<Page>, a: nat, w: Store, b: nat, v: nat)
    requires Separate(m, a, b) && v < PAGES
    ensures Space(Write(m, a, w), b) && Read(Write(m, a, w), b, v) == Read(m, b, v)
  {
    WriteKeepsSpace(m, a, w, b);
    assert w.page < PAGES ==> PagesApart(m, a, w.page, b, v);
  }

  lemma WriteKeepsSeparate(m: seq<Page>, a: nat, w: Store, b: nat)
    requires Separate(m, a, b)
    ensures Separate(Write(m, a, w), a, b) && Separate(Write(m, b, w), a, b)
  {
    WriteKeepsSpace(m, a, w, b);
    WriteKeepsSpace(m, a, w, a);
    WriteKeepsSpace(m, b, w, a);
    WriteKeepsSpace(m, b, w, b);
    forall v, u | 0 <= v < PAGES && 0 <= u < PAGES
      ensures PagesApart(Write(m, a, w), a, v, b, u) && PagesApart(Write(m, b, w), a, v, b, u)
    {
      assert PagesApart(m, a, v, b, u);
    }
  }

  /** Stores through spaces a and b in some order; byB[k] says which one made the k-th. */
  function Stores(m: seq<Page>, a: nat, b: nat, byB: seq<bool>, ws: seq<Store>): seq<Page>
    requires Separate(m, a, b) && |byB| == |ws|
    decreases |ws|
  {
    if ws == [] then m
    else
      var d := if byB[0] then b else a;
      WriteKeepsSeparate(m, a, ws[0], b);
      Stores(Write(m, d, ws[0]), a, b, byB[1..], ws[1..])
  }

  /** The stores of b alone. */
  function Own(byB: seq<bool>, ws: seq<Store>): seq<Store>
    requires |byB| == |ws|
  {
    if ws == [] then [] else (if byB[0] then [ws[0]] else []) + Own(byB[1..], ws[1..])
  }

  function Alone(m: seq<Page>, b: nat, ws: seq<Store>): seq<Page>
    requires Space(m, b)
    decreases |ws|
  {
    if ws == [] then m
    else
      WriteKeepsSpace(m, b, ws[0], b);
      Alone(Write(m, b, ws[0]), b, ws[1..])
  }

  /** Two memories in which space b looks the same. */
  ghost predicate SameView(m: seq<Page>, n: seq<Page>, b: nat) {
    && Space(m, b) && Space(n, b)
    && forall v :: 0 <= v < PAGES ==> Leaf(m, b, v) == Leaf(n, b, v) && Read(m, b, v) == Read(n, b, v)
  }

  lemma WriteSameView(m: seq<Page>, n: seq<Page>, b: nat, w: Store)
    requires SameView(m, n, b)
    ensures SameView(Write(m, b, w), Write(n, b, w), b)
  {
    WriteKeepsSpace(m, b, w, b);
    WriteKeepsSpace(n, b, w, b);
    forall v | 0 <= v < PAGES ensures Read(Write(m, b, w), b, v) == Read(Write(n, b, w), b, v) {
      assert Read(m, b, v) == Read(n, b, v) && (w.page < PAGES ==> Read(m, b, w.page) == Read(n, b, w.page));
      assert LeafOk(m, Leaf(m, b, v)) && LeafOk(n, Leaf(n, b, v));
      assert w.page < PAGES ==> LeafOk(m, Leaf(m, b, w.page)) && LeafOk(n, Leaf(n, b, w.page));
    }
  }

  /** Whatever the other space does, b reads what it would read if it ran alone. */
  lemma {:induction false} Isolation(m: seq<Page>, a: nat, b: nat, byB: seq<bool>, ws: seq<Store>, alone: seq<Page>)
    requires Separate(m, a, b) && |byB| == |ws| && SameView(m, alone, b)
    ensures SameView(Stores(m, a, b, byB, ws), Alone(alone, b, Own(byB, ws)), b)
    decreases |ws|
  {
    if ws != [] {
      WriteKeepsSeparate(m, a, ws[0], b);
      var rest := Own(byB[1..], ws[1..]);
      if byB[0] {
        WriteSameView(m, alone, b, ws[0]);
        assert ([ws[0]] + rest)[1..] == rest;
        Isolation(Write(m, b, ws[0]), a, b, byB[1..], ws[1..], Write(alone, b, ws[0]));
      } else {
        WriteKeepsSpace(m, a, ws[0], b);
        forall v | 0 <= v < PAGES ensures Read(Write(m, a, ws[0]), b, v) == Read(m, b, v) {
          WriteIsolated(m, a, ws[0], b, v);
        }
        Isolation(Write(m, a, ws[0]), a, b, byB[1..], ws[1..], alone);
        assert [] + rest == rest;
      }
    }
  }

  lemma SeparateFlips(m: seq<Page>, a: nat, b: nat)
    requires Separate(m, a, b)
    ensures Separate(m, b, a)
  {
    forall v, w | 0 <= v < PAGES && 0 <= w < PAGES ensures PagesApart(m, b, v, a, w) {
      assert PagesApart(m, a, w, b, v);
    }
  }

  function Others(byB: seq<bool>): seq<bool> {
    if byB == [] then [] else [!byB[0]] + Others(byB[1..])
  }

  lemma {:induction false} StoresFlip(m: seq<Page>, a: nat, b: nat, byB: seq<bool>, ws: seq<Store>)
    requires Separate(m, a, b) && Separate(m, b, a) && |byB| == |ws|
    ensures |Others(byB)| == |ws| && Stores(m, b, a, Others(byB), ws) == Stores(m, a, b, byB, ws)
    decreases |ws|
  {
    if ws != [] {
      var m' := Write(m, if byB[0] then b else a, ws[0]);
      WriteKeepsSeparate(m, a, ws[0], b);
      SeparateFlips(m', a, b);
      StoresFlip(m', a, b, byB[1..], ws[1..]);
      assert Others(byB)[1..] == Others(byB[1..]);
    }
  }

  /** Each of two separate spaces reads what it would read if it ran alone. */
  lemma BothIsolated(m: seq<Page>, a: nat, b: nat, byB: seq<bool>, ws: seq<Store>)
    requires Separate(m, a, b) && |byB| == |ws|
    ensures |Others(byB)| == |ws|
    ensures SameView(Stores(m, a, b, byB, ws), Alone(m, b, Own(byB, ws)), b)
    ensures SameView(Stores(m, a, b, byB, ws), Alone(m, a, Own(Others(byB), ws)), a)
  {
    SeparateFlips(m, a, b);
    StoresFlip(m, a, b, byB, ws);
    Isolation(m, a, b, byB, ws, m);
    Isolation(m, b, a, Others(byB), ws, m);
  }

  // ---------- Copying a space ----------

  datatype Mapping = Mapped | NoTable | Remap

  /**
   NoMemory: the copy fails; Panic: a page that the code takes for granted is missing; Overwrote: the call
   fails after storing through a null page; Fault: such a store traps.
   */
  datatype Outcome = Copied(d: nat) | NoMemory | Panic | Overwrote | Fault

  // ---------- What copying has done so far ----------

  /** Frames that were in use are as they were; the parent uses no other. */
  ghost predicate ParentKept(m0: seq<Page>, m: seq<Page>, p: nat, was: seq<nat>) {
    && |m| == |m0| && Dir(m0, p)
    && (forall k :: 0 <= k < |m0| && k !in was ==> m[k] == m0[k])
    && (forall k :: k in was ==> !InDir(m0, p, k))
    && (forall v :: 0 <= v < PAGES && Present(Leaf(m0, p, v)) ==> Leaf(m0, p, v).frame !in was)
  }

  lemma ParentSame(m0: seq<Page>, m: seq<Page>, p: nat, was: seq<nat>)
    requires ParentKept(m0, m, p, was)
    ensures Dir(m, p) && forall v :: 0 <= v < PAGES ==> Leaf(m, p, v) == Leaf(m0, p, v)
  {
    SameDir(m0, m, p);
  }

  lemma KeptAgain(m0: seq<Page>, m: seq<Page>, m': seq<Page>, p: nat, was: seq<nat>)
    requires ParentKept(m0, m, p, was) && |m'| == |m| && forall k :: 0 <= k < |m| && k !in was ==> m'[k] == m0[k]
    ensures ParentKept(m0, m', p, was)
  {
  }

  lemma KeptOutside(m0: seq<Page>, m: seq<Page>, m': seq<Page>, p: nat, was: seq<nat>)
    requires ParentKept(m0, m, p, was) && |m'| == |m| && forall k :: 0 <= k < |m| && k !in was ==> m'[k] == m[k]
    ensures ParentKept(m0, m', p, was)
  {
  }

  lemma ParentFrame(m0: seq<Page>, m: seq<Page>, p: nat, was: seq<nat>, v: nat)
    requires ParentKept(m0, m, p, was) && Space(m0, p) && v < PAGES && Present(Leaf(m0, p, v))
    ensures var f := Leaf(m0, p, v).frame;
      f < |m0| == |m| && f !in was && m[f] == m0[f] && m[f].Bytes? && |m[f].bytes| == PGSIZE
  {
    assert LeafOk(m0, Leaf(m0, p, v));
  }

  /** Page v of the child: the parent's bytes and flags in a frame that was free and is not shared. */
  ghost predicate PageCopied(m0: seq<Page>, m: seq<Page>, p: nat, c: nat, v: nat, was: seq<nat>, free: seq<nat>)
    requires Dir(m0, p) && Dir(m, c) && v < PAGES
  {
    && Present(Leaf(m0, p, v)) && Leaf(m, c, v).flags == Leaf(m0, p, v).flags
    && Leaf(m0, p, v).frame < |m0| && Leaf(m, c, v).frame < |m|
    && m[Leaf(m, c, v).frame] == m0[Leaf(m0, p, v).frame]
    && Leaf(m, c, v).frame in was && Leaf(m, c, v).frame !in free && !InDir(m, c, Leaf(m, c, v).frame)
  }

  /** The child has its first n pages and no others, in frames of its own. */
  ghost predicate Copying(m0: seq<Page>, m: seq<Page>, p: nat, c: nat, n: nat, was: seq<nat>, free: seq<nat>) {
    && Dir(m0, p) && Dir(m, c) && |m| == |m0| && n <= PAGES
    && (forall k :: k in free ==> k in was)
    && (forall k :: InDir(m, c, k) ==> k in was && k !in free)
    && (forall v :: 0 <= v < n ==> PageCopied(m0, m, p, c, v, was, free))
    && (forall v :: n <= v < PAGES ==> !Present(Leaf(m, c, v)))
    && (forall v, w :: 0 <= v < w < n ==> Leaf(m, c, v).frame != Leaf(m, c, w).frame)
  }

  lemma SpaceAt(m: seq<Page>, d: nat, v: nat)
    requires Space(m, d) && v < PAGES
    ensures Dir(m, d) && LeafOk(m, Leaf(m, d, v))
  {
  }

  lemma CopyingShape(m0: seq<Page>, m: seq<Page>, p: nat, c: nat, n: nat, was: seq<nat>, free: seq<nat>)
    requires Copying(m0, m, p, c, n, was, free)
    ensures Dir(m, c) && |m| == |m0|
    ensures forall k :: k in free ==> k in was
    ensures forall k :: InDir(m, c, k) ==> k in was && k !in free
  {
  }

  lemma Unmapped(m0: seq<Page>, m: seq<Page>, p: nat, c: nat, n: nat, was: seq<nat>, free: seq<nat>)
    requires Copying(m0, m, p, c, n, was, free) && n < PAGES
    ensures Dir(m, c) && !Present(Leaf(m, c, n))
  {
  }

  // ---------- Giving a space back ----------

  ghost predicate IsLeaf(m: seq<Page>, d: nat, k: nat)
    requires Dir(m, d)
  {
    exists v :: 0 <= v < PAGES && Present(Leaf(m, d, v)) && Leaf(m, d, v).frame == k
  }

  predicate LeafApart(m: seq<Page>, d: nat, v: nat, w: nat)
    requires IsTable(m, d) && v < PAGES && SlotOk(m, d, v / ENTRIES) && w < PAGES && SlotOk(m, d, w / ENTRIES)
  {
    v != w && Present(Leaf(m, d, v)) && Present(Leaf(m, d, w)) ==> Leaf(m, d, v).frame != Leaf(m, d, w).frame
  }

  /** A space whose frames are all different and none of them free. */
  ghost predicate Owned(m: seq<Page>, d: nat, free: seq<nat>) {
    && Dir(m, d)
    && (forall k :: InDir(m, d, k) ==> k !in free)
    && (forall k: nat :: IsLeaf(m, d, k) ==> k < |m| && k !in free && !InDir(m, d, k))
    && (forall v, w :: 0 <= v < PAGES && 0 <= w < PAGES ==> LeafApart(m, d, v, w))
  }

  ghost predicate LeafBetween(m: seq<Page>, d: nat, lo: nat, hi: nat, k: nat)
    requires Dir(m, d) && hi <= PAGES
  {
    exists v :: lo <= v < hi && Present(Leaf(m, d, v)) && Leaf(m, d, v).frame == k
  }

  /** The pages from lo to hi are no longer mapped and their frames are free; nothing else has changed. */
  ghost predicate LeavesFreed(m: seq<Page>, free: seq<nat>, m': seq<Page>, free': seq<nat>, d: nat, lo: nat, hi: nat) {
    && hi <= PAGES && Dir(m, d) && Dir(m', d) && |m'| == |m| && m'[d] == m[d]
    && (forall v :: 0 <= v < PAGES ==>
          if lo <= v < hi then !Present(Leaf(m', d, v)) else Leaf(m', d, v) == Leaf(m, d, v))
    && (forall k: nat :: k in free' <==> k in free || LeafBetween(m, d, lo, hi, k))
    && (forall k :: 0 <= k < |m| && !InDir(m, d, k) && !LeafBetween(m, d, lo, hi, k) ==> m'[k] == m[k])
  }

  lemma LeafFreeable(m: seq<Page>, free: seq<nat>, m': seq<Page>, free': seq<nat>, d: nat, lo: nat, n: nat)
    requires Owned(m, d, free) && LeavesFreed(m, free, m', free', d, lo, n) && lo <= n < PAGES
    requires Present(Leaf(m', d, n))
    ensures Leaf(m', d, n).frame < |m| && Leaf(m', d, n).frame !in free' && !InDir(m', d, Leaf(m', d, n).frame)
    ensures IsLeaf(m, d, Leaf(m', d, n).frame)
  {
    var f := Leaf(m', d, n).frame;
    assert IsLeaf(m, d, f);
    forall v | 0 <= v < n && Present(Leaf(m, d, v)) ensures Leaf(m, d, v).frame != f { assert LeafApart(m, d, v, n); }
    assert forall k :: InDir(m', d, k) <==> InDir(m, d, k);
  }

  lemma LeafFreed(m: seq<Page>, free: seq<nat>, m': seq<Page>, free': seq<nat>, d: nat, lo: nat, n: nat,
                  m'': seq<Page>)
    requires Owned(m, d, free) && LeavesFreed(m, free, m', free', d, lo, n) && lo <= n < PAGES
    requires Present(Leaf(m', d, n)) && Leaf(m', d, n).frame < |m'| && m'' == m'[Leaf(m', d, n).frame := Junk()]
    ensures Dir(m'', d) && Present(m''[d].entries[n / ENTRIES])
    ensures LeavesFreed(m, free, WithLeaf(m'', d, n, Entry(0, 0)), [Leaf(m', d, n).frame] + free', d, lo, n + 1)
  {
    hide Junk;
    LeafFreeable(m, free, m', free', d, lo, n);
    SameDir(m', m'', d);
    var f, r := Leaf(m', d, n).frame, WithLeaf(m'', d, n, Entry(0, 0));
    WithLeafMaps(m'', d, n, Entry(0, 0));
    assert SlotOk(m'', d, n / ENTRIES);
    assert InDir(m'', d, m''[d].entries[n / ENTRIES].frame);
    forall k: nat ensures LeafBetween(m, d, lo, n + 1, k) <==> LeafBetween(m, d, lo, n, k) || k == f {
      assert Leaf(m, d, n).frame == f;
    }
    assert forall k :: InDir(m'', d, k) <==> InDir(m, d, k);
  }

  /** Pages that were never mapped need nothing, at either end. */
  lemma LeavesSkipped(m: seq<Page>, free: seq<nat>, m': seq<Page>, free': seq<nat>, d: nat,
                      lo: nat, hi: nat, lo': nat, hi': nat)
    requires LeavesFreed(m, free, m', free', d, lo, hi) && lo' <= lo && hi <= hi' <= PAGES
    requires forall v :: lo' <= v < hi' && !(lo <= v < hi) ==> !Present(Leaf(m, d, v))
    ensures LeavesFreed(m, free, m', free', d, lo', hi')
  {
    forall k: nat ensures LeafBetween(m, d, lo', hi', k) <==> LeafBetween(m, d, lo, hi, k) {}
  }

  lemma LeavesStillFree(m: seq<Page>, free: seq<nat>, m': seq<Page>, free': seq<nat>, d: nat, lo: nat, v: nat,
                        next: nat)
    requires LeavesFreed(m, free, m', free', d, lo, v) && v <= next <= lo && next <= PAGES
    ensures LeavesFreed(m, free, m', free', d, lo, next)
  {
    forall k: nat ensures !LeafBetween(m, d, lo, next, k) && !LeafBetween(m, d, lo, v, k) {}
  }

  lemma NothingFreed(m: seq<Page>, free: seq<nat>, d: nat, lo: nat, hi: nat)
    requires Dir(m, d) && hi <= PAGES && hi <= lo
    ensures LeavesFreed(m, free, m, free, d, lo, hi)
  {
  }

  /** Where deallocuvm's loop, stepping a whole table over each empty slot, first finds a table. */
  function FirstVisited(m: seq<Page>, d: nat, from: nat, to: nat): (v: nat)
    requires IsTable(m, d) && to <= PAGES
    ensures from <= v && (v < to ==> Present(m[d].entries[v / ENTRIES]))
    ensures from < to && Present(m[d].entries[from / ENTRIES]) ==> v == from
    decreases if from < to then to - from else 0
  {
    if from >= to || Present(m[d].entries[from / ENTRIES]) then from else FirstVisited(m, d, from + ENTRIES, to)
  }

  lemma OwnedDir(m: seq<Page>, d: nat, free: seq<nat>)
    requires Owned(m, d, free)
    ensures Dir(m, d) && IsTable(m, d)
  {
  }

  lemma SlotSteps(v: nat)
    ensures (v + 1) % ENTRIES == 0 || (v + 1) / ENTRIES == v / ENTRIES
    ensures (v + ENTRIES) % ENTRIES == v % ENTRIES
  {
  }

  /** From the start of a table it steps over unmapped pages only. */
  lemma {:induction false} AlignedMissesNothing(m: seq<Page>, d: nat, from: nat, to: nat, v: nat)
    requires Dir(m, d) && to <= PAGES && from % ENTRIES == 0
    requires from <= v < to && v < FirstVisited(m, d, from, to)
    ensures !Present(Leaf(m, d, v))
    decreases if from < to then to - from else 0
  {
    if v < from + ENTRIES { assert v / ENTRIES == from / ENTRIES; }
    else { AlignedMissesNothing(m, d, from + ENTRIES, to, v); }
  }

  /** From inside an empty slot it steps over the first pages of the next table, mapped or not. */
  lemma UnalignedMisses(m: seq<Page>, d: nat, from: nat, to: nat, v: nat)
    requires IsTable(m, d) && from % ENTRIES != 0 && from + ENTRIES < to <= PAGES
    requires !Present(m[d].entries[from / ENTRIES]) && (from / ENTRIES + 1) * ENTRIES <= v < from + ENTRIES
    ensures from <= v < FirstVisited(m, d, from, to)
  {
    assert from < (from / ENTRIES + 1) * ENTRIES;
  }

  /** All mapped pages from `from` on have been freed exactly when none lay before the first one visited. */
  lemma FreesAllExactly(m: seq<Page>, free: seq<nat>, m': seq<Page>, free': seq<nat>, d: nat, from: nat, lo: nat,
                        to: nat)
    requires LeavesFreed(m, free, m', free', d, lo, to) && from <= lo
    ensures LeavesFreed(m, free, m', free', d, from, to) <==>
            forall v :: from <= v < lo && v < to ==> !Present(Leaf(m, d, v))
  {
    if forall v :: from <= v < lo && v < to ==> !Present(Leaf(m, d, v)) {
      forall v | from <= v < to && !(lo <= v < to) ensures !Present(Leaf(m, d, v)) {}
      LeavesSkipped(m, free, m', free', d, lo, to, from, to);
    }
  }

  lemma FreedShape(m: seq<Page>, free: seq<nat>, m': seq<Page>, free': seq<nat>, d: nat, lo: nat, hi: nat)
    requires LeavesFreed(m, free, m', free', d, lo, hi)
    ensures Dir(m', d) && |m'| == |m| && IsTable(m', d) && m'[d] == m[d] && Dir(m, d)
    ensures forall i :: 0 <= i < SLOTS ==> SlotOk(m', d, i)
    ensures forall v :: hi <= v < PAGES ==> Leaf(m', d, v) == Leaf(m, d, v)
  {
  }

  lemma SlotEmpty(m: seq<Page>, d: nat, v: nat)
    requires Dir(m, d) && v < PAGES && v % ENTRIES == 0 && !Present(m[d].entries[v / ENTRIES])
    ensures v + ENTRIES <= PAGES && forall w :: v <= w < v + ENTRIES ==> !Present(Leaf(m, d, w))
  {
    forall w | v <= w < v + ENTRIES ensures !Present(Leaf(m, d, w)) { assert w / ENTRIES == v / ENTRIES; }
  }

  ghost predicate TableBefore(m: seq<Page>, d: nat, n: nat, k: nat)
    requires IsTable(m, d) && n <= SLOTS
  {
    exists i :: 0 <= i < n && Present(m[d].entries[i]) && m[d].entries[i].frame == k
  }

  lemma TableFreeable(m: seq<Page>, d: nat, i: nat)
    requires Dir(m, d) && i < SLOTS && Present(m[d].entries[i])
    ensures var t := m[d].entries[i].frame; t < |m| && t != d && InDir(m, d, t) && !TableBefore(m, d, i, t)
    ensures forall k: nat :: TableBefore(m, d, i + 1, k) <==> TableBefore(m, d, i, k) || k == m[d].entries[i].frame
  {
    assert SlotOk(m, d, i);
    forall j | 0 <= j < i && Present(m[d].entries[j]) ensures m[d].entries[j].frame != m[d].entries[i].frame {
      assert SlotsApart(m, d, i, j);
    }
  }

  /** What is free after the pages: nothing of the directory yet. */
  lemma LeavesAllFreed(m: seq<Page>, free: seq<nat>, m': seq<Page>, free': seq<nat>, d: nat)
    requires Owned(m, d, free) && LeavesFreed(m, free, m', free', d, 0, FREED)
    ensures IsTable(m, d) && |m'| == |m| && m'[d] == m[d]
    ensures forall k: nat :: k in free' <==> k in free || LeafBetween(m, d, 0, FREED, k)
    ensures forall k: nat :: InDir(m, d, k) ==> k !in free'
    ensures forall k: nat :: InDir(m, d, k) <==> k == d || TableBefore(m, d, SLOTS, k)
    ensures forall k :: 0 <= k < |m| && !InDir(m, d, k) && !LeafBetween(m, d, 0, FREED, k) ==> m'[k] == m[k]
  {
    forall k: nat | LeafBetween(m, d, 0, FREED, k) ensures IsLeaf(m, d, k) {}
  }

  // ---------- Counting the frames ----------

  /** Frames that c copied pages take: the three of setupkvm, the pages, and a table for each 512 of them. */
  function Need(c: nat): nat { 3 + c + (c + ENTRIES - 1) / ENTRIES }

  /** Frames that page v takes, with its table if it is the first in it. */
  function Cost(v: nat): nat { if v % ENTRIES == 0 then 2 else 1 }

  lemma NeedNext(c: nat)
    ensures Need(c + 1) == Need(c) + Cost(c)
  {
    RoundUp(c);
    RoundUp(c + 1);
    assert c == c / ENTRIES * ENTRIES + c % ENTRIES;
  }

  lemma RoundUp(c: nat)
    ensures (c + ENTRIES - 1) / ENTRIES == c / ENTRIES + if c % ENTRIES == 0 then 0 else 1
    ensures (c + 1) / ENTRIES == c / ENTRIES + if c % ENTRIES == ENTRIES - 1 then 1 else 0
    ensures (c + 1) % ENTRIES == if c % ENTRIES == ENTRIES - 1 then 0 else c % ENTRIES + 1
  {
  }

  lemma {:induction false} NeedGrows(c: nat, n: nat)
    requires c <= n
    ensures Need(c) <= Need(n)
    decreases n
  {
    if c < n {
      NeedGrows(c, n - 1);
      NeedNext(n - 1);
    }
  }

  /** Slot i of a space with n pages has a table exactly if one of the pages needs it. */
  ghost predicate TablesFor(m: seq<Page>, c: nat, n: nat)
    requires IsTable(m, c)
  {
    forall i :: 0 <= i < SLOTS ==> (Present(m[c].entries[i]) <==> i * ENTRIES < n)
  }

  lemma TableThere(m: seq<Page>, c: nat, v: nat)
    requires IsTable(m, c) && TablesFor(m, c, v) && v < PAGES
    ensures Present(m[c].entries[v / ENTRIES]) <==> v % ENTRIES != 0
  {
    assert v == v / ENTRIES * ENTRIES + v % ENTRIES;
  }

  lemma TablesNext(m: seq<Page>, m': seq<Page>, c: nat, v: nat)
    requires IsTable(m, c) && IsTable(m', c) && TablesFor(m, c, v) && v < PAGES
    requires forall i :: 0 <= i < SLOTS ==>
      (Present(m'[c].entries[i]) <==> Present(m[c].entries[i]) || i == v / ENTRIES)
    ensures TablesFor(m', c, v + 1)
  {
    assert v == v / ENTRIES * ENTRIES + v % ENTRIES;
  }

  /** Every frame that was free is exactly one of: still free, lost, part of the new space. */
  ghost predicate Accounted(m: seq<Page>, c: nat, was: seq<nat>, free: seq<nat>, lost: set<nat>) {
    && Dir(m, c)
    && (forall k: nat :: k in was <==> k in free || k in lost || InDir(m, c, k) || IsLeaf(m, c, k))
    && (forall k: nat :: k in lost ==> k !in free && !InDir(m, c, k) && !IsLeaf(m, c, k))
  }

  lemma TopApart(m: seq<Page>, c: nat, was: seq<nat>, free: seq<nat>, lost: set<nat>, k: nat)
    requires Accounted(m, c, was, free, lost) && k in lost
    ensures IsTable(m, c) && k !in free && !InDir(m, c, k)
  {
  }

  lemma SameLeaves(m: seq<Page>, m': seq<Page>, c: nat)
    requires Dir(m, c) && Dir(m', c) && forall v :: 0 <= v < PAGES ==> Leaf(m', c, v) == Leaf(m, c, v)
    ensures forall k: nat :: IsLeaf(m', c, k) <==> IsLeaf(m, c, k)
  {
  }

  lemma CopyingTaken(m0: seq<Page>, m: seq<Page>, m': seq<Page>, p: nat, c: nat, n: nat,
                     was: seq<nat>, free: seq<nat>, free': seq<nat>, f: nat, top: set<nat>)
    requires Copying(m0, m, p, c, n, was, free) && Accounted(m, c, was, free, top)
    requires free == [f] + free' && f !in free' && f < |m| == |m'| && m' == m[f := m'[f]]
    ensures Copying(m0, m', p, c, n, was, free') && Accounted(m', c, was, free', top + {f}) && f !in top
    ensures Dir(m, c) && Dir(m', c) && m'[c] == m[c] && forall v :: 0 <= v < PAGES ==> Leaf(m', c, v) == Leaf(m, c, v)
    ensures (forall k :: InDir(m', c, k) <==> InDir(m, c, k)) && forall k :: k in free' ==> !InDir(m', c, k)
  {
    assert InDir(m, c, c);
    SameDir(m, m', c);
    forall v | 0 <= v < n ensures PageCopied(m0, m', p, c, v, was, free') {
      assert PageCopied(m0, m, p, c, v, was, free);
    }
    SameLeaves(m, m', c);
    CopyingOwned(m0, m, p, c, n, was, free);
  }

  lemma ExtendedAccounted(m: seq<Page>, m': seq<Page>, c: nat, v: nat,
                          was: seq<nat>, free: seq<nat>, free': seq<nat>, f: nat, top: set<nat>)
    requires Accounted(m, c, was, free, top) && v < PAGES && Dir(m', c) && !Present(Leaf(m, c, v))
    requires forall w :: 0 <= w < PAGES && w != v ==> Leaf(m', c, w) == Leaf(m, c, w)
    requires Leaf(m', c, v).frame == f && Present(Leaf(m', c, v)) && f in free && f !in free'
    requires forall k :: InDir(m', c, k) <==> InDir(m, c, k) || (k in free && k != f && k !in free')
    requires forall k :: k in free' ==> k in free
    ensures Accounted(m', c, was, free', top)
  {
    forall k: nat ensures IsLeaf(m', c, k) <==> IsLeaf(m, c, k) || k == f {
      if IsLeaf(m, c, k) {
        var w :| 0 <= w < PAGES && Present(Leaf(m, c, w)) && Leaf(m, c, w).frame == k;
        assert Leaf(m', c, w) == Leaf(m, c, w);
      }
    }
  }

  lemma CopyingOwned(m0: seq<Page>, m: seq<Page>, p: nat, c: nat, n: nat, was: seq<nat>, free: seq<nat>)
    requires Copying(m0, m, p, c, n, was, free)
    ensures Owned(m, c, free)
  {
    forall k: nat | IsLeaf(m, c, k) ensures k < |m| && k !in free && !InDir(m, c, k) {
      var v :| 0 <= v < PAGES && Present(Leaf(m, c, v)) && Leaf(m, c, v).frame == k;
      assert PageCopied(m0, m, p, c, v, was, free);
    }
  }

  lemma CopyStarts(m0: seq<Page>, m: seq<Page>, p: nat, c: nat, was: seq<nat>, free: seq<nat>)
    requires Dir(m0, p) && Dir(m, c) && |m| == |m0| && |was| >= 3 && free == was[3..] && c == was[2]
    requires forall i, j :: 0 <= i < j < |was| ==> was[i] != was[j]
    requires forall i :: 0 <= i < SLOTS ==> !Present(m[c].entries[i])
    ensures Copying(m0, m, p, c, 0, was, free) && Accounted(m, c, was, free, {was[0], was[1]}) && TablesFor(m, c, 0)
  {
    assert was == [was[0], was[1], was[2]] + free;
    assert forall k :: InDir(m, c, k) <==> k == c;
    assert forall v :: 0 <= v < PAGES ==> !Present(Leaf(m, c, v));
  }

  lemma ParentUnseen(m0: seq<Page>, m: seq<Page>, p: nat, was: seq<nat>)
    requires Space(m0, p) && ParentKept(m0, m, p, was)
    ensures SameView(m0, m, p)
  {
    ParentSame(m0, m, p, was);
    forall v | 0 <= v < PAGES ensures LeafOk(m, Leaf(m, p, v)) { assert LeafOk(m0, Leaf(m0, p, v)); }
    forall v | 0 <= v < PAGES ensures Read(m0, p, v) == Read(m, p, v) { assert LeafOk(m0, Leaf(m0, p, v)); }
  }

  /** A finished copy is a space apart from its parent, which is as it was. */
  lemma CopyIsApart(m0: seq<Page>, m: seq<Page>, p: nat, c: nat, n: nat, was: seq<nat>, free: seq<nat>)
    requires Space(m0, p) && ParentKept(m0, m, p, was) && Copying(m0, m, p, c, n, was, free)
    ensures SameView(m0, m, p) && Separate(m, p, c)
    ensures forall v :: 0 <= v < n ==> Read(m, c, v) == Read(m0, p, v)
  {
    ParentUnseen(m0, m, p, was);
    forall v | 0 <= v < PAGES ensures LeafOk(m, Leaf(m, c, v)) {
      assert LeafOk(m0, Leaf(m0, p, v));
      assert v < n ==> PageCopied(m0, m, p, c, v, was, free);
    }
    forall v, w | 0 <= v < PAGES && 0 <= w < PAGES ensures PagesApart(m, p, v, c, w) {
      assert w < n ==> PageCopied(m0, m, p, c, w, was, free);
    }
    forall v | 0 <= v < n ensures Read(m, c, v) == Read(m0, p, v) {
      assert PageCopied(m0, m, p, c, v, was, free);
    }
  }

  function PagesIn(sz: nat): nat { (sz + PGSIZE - 1) / PGSIZE }

  /** The pages of a size: those that begin below it. */
  lemma PagesExactly(sz: nat, v: nat)
    ensures v < PagesIn(sz) <==> v * 4096 < sz
  {
  }

  /** The first n pages are there. */
  ghost predicate AllThere(m: seq<Page>, p: nat, n: nat)
    requires Dir(m, p) && n <= PAGES
  {
    forall v :: 0 <= v < n ==> Present(Leaf(m, p, v))
  }

  lemma FaultsFirst(n: nat, frames: nat)
    requires frames < 3
    ensures frames < Need(n)
  {
  }

  /** The ways copying can end exclude each other: which it is depends on the pages and the free frames only. */
  lemma OutcomeExact(m: seq<Page>, p: nat, n: nat, frames: nat, count: nat, r: Outcome)
    requires Dir(m, p) && count <= n <= PAGES && Need(count) <= frames && AllThere(m, p, count)
    requires !r.Fault? && !r.Overwrote?
    requires r.Copied? ==> count == n
    requires r.Panic? ==> count < n && !Present(Leaf(m, p, count))
    requires r.NoMemory? ==> count < n && Present(Leaf(m, p, count)) && frames < Need(count + 1)
    ensures r.Copied? <==> frames >= Need(n) && AllThere(m, p, n)
    ensures r.Panic? <==>
      exists k: nat :: k < n && AllThere(m, p, k) && !Present(Leaf(m, p, k)) && frames >= Need(k)
  {
    if r.NoMemory? {
      NeedGrows(count + 1, n);
      forall k: nat | k < n && AllThere(m, p, k) && !Present(Leaf(m, p, k)) ensures frames < Need(k) {
        NeedGrows(count + 1, k);
      }
    }
  }

  /** Frames lost by a copy that had c pages of its frames mapped when it failed. */
  function Lost(frames: nat, c: nat): int { 2 + (frames - Need(c)) + if c <= FREED then 0 else c - FREED }

  /** A failed copy loses at most three frames exactly when there were too few to copy two pages beyond 0x3fa00000. */
  lemma LosesAtMostThree(frames: nat, c: nat)
    requires Need(c) <= frames < Need(c + 1)
    ensures Lost(frames, c) <= 3 <==> frames < Need(FREED + 2)
  {
    NeedNext(c);
    if c < FREED + 2 { NeedGrows(c + 1, FREED + 2); } else { NeedGrows(FREED + 2, c); }
  }

  /** Copying the largest space with one frame too few loses 513. */
  lemma LosesMany()
    ensures Need(PAGES - 1) <= Need(PAGES) - 1 < Need(PAGES) && Lost(Need(PAGES) - 1, PAGES - 1) == 513
  {
  }

  /** Exactly the lost frames are not free again, and the parent is as it was. */
  ghost predicate GivenBack(m0: seq<Page>, m: seq<Page>, p: nat, was: seq<nat>, free: seq<nat>, lost: set<nat>) {
    && ParentKept(m0, m, p, was)
    && (forall k: nat :: k in free <==> k in was && k !in lost)
    && (forall k: nat :: k in lost ==> k in was)
  }

  lemma BackMeansKept(m0: seq<Page>, m: seq<Page>, p: nat, was: seq<nat>, free: seq<nat>, lost: set<nat>)
    requires GivenBack(m0, m, p, was, free, lost)
    ensures ParentKept(m0, m, p, was)
  {
  }

  /** The frames of pages lo to n of a space. */
  ghost function FramesOf(m: seq<Page>, c: nat, lo: nat, n: nat): (fs: set<nat>)
    requires Dir(m, c) && n <= PAGES
    decreases n
  {
    if n <= lo then {} else FramesOf(m, c, lo, n - 1) + {Leaf(m, c, n - 1).frame}
  }

  lemma {:induction false} InFrames(m: seq<Page>, c: nat, lo: nat, n: nat, v: nat)
    requires Dir(m, c) && lo <= v < n <= PAGES
    ensures Leaf(m, c, v).frame in FramesOf(m, c, lo, n)
    decreases n
  {
    if v < n - 1 { InFrames(m, c, lo, n - 1, v); }
  }

  lemma {:induction false} OfFrames(m: seq<Page>, c: nat, lo: nat, n: nat, f: nat) returns (v: nat)
    requires Dir(m, c) && n <= PAGES && f in FramesOf(m, c, lo, n)
    ensures lo <= v < n && Leaf(m, c, v).frame == f
    decreases n
  {
    if Leaf(m, c, n - 1).frame == f { v := n - 1; } else { v := OfFrames(m, c, lo, n - 1, f); }
  }

  lemma {:induction false} FramesCount(m: seq<Page>, c: nat, lo: nat, n: nat)
    requires Dir(m, c) && n <= PAGES
    requires forall v, w :: 0 <= v < w < n ==> Leaf(m, c, v).frame != Leaf(m, c, w).frame
    ensures |FramesOf(m, c, lo, n)| == if n <= lo then 0 else n - lo
    decreases n
  {
    if n > lo {
      hide Dir;
      FramesCount(m, c, lo, n - 1);
      var f := Leaf(m, c, n - 1).frame;
      if f in FramesOf(m, c, lo, n - 1) { var v := OfFrames(m, c, lo, n - 1, f); }
    }
  }

  /** A frame beyond freevm's bound is a leaf of the copy and of no page below the bound. */
  lemma HighFrame(m0: seq<Page>, m: seq<Page>, p: nat, c: nat, n: nat, was: seq<nat>, free: seq<nat>, k: nat)
    requires Copying(m0, m, p, c, n, was, free) && k in FramesOf(m, c, FREED, n)
    ensures IsLeaf(m, c, k) && k in was && k !in free && !LeafBetween(m, c, 0, FREED, k) && !InDir(m, c, k)
  {
    var v := OfFrames(m, c, FREED, n, k);
    assert PageCopied(m0, m, p, c, v, was, free);
    forall w | 0 <= w < FREED && Present(Leaf(m, c, w)) ensures Leaf(m, c, w).frame != k {
      assert w < v;
    }
  }

  lemma LowOrHigh(m0: seq<Page>, m: seq<Page>, p: nat, c: nat, n: nat, was: seq<nat>, free: seq<nat>, k: nat)
    requires Copying(m0, m, p, c, n, was, free)
    ensures IsLeaf(m, c, k) <==> LeafBetween(m, c, 0, FREED, k) || k in FramesOf(m, c, FREED, n)
    ensures LeafBetween(m, c, 0, FREED, k) || InDir(m, c, k) ==> k in was
  {
    if IsLeaf(m, c, k) {
      var v :| 0 <= v < PAGES && Present(Leaf(m, c, v)) && Leaf(m, c, v).frame == k;
      assert v < n;
      if v >= FREED { InFrames(m, c, FREED, n, v); }
    }
    if k in FramesOf(m, c, FREED, n) { HighFrame(m0, m, p, c, n, was, free, k); }
    if LeafBetween(m, c, 0, FREED, k) {
      var v :| 0 <= v < FREED && Present(Leaf(m, c, v)) && Leaf(m, c, v).frame == k;
      assert PageCopied(m0, m, p, c, v, was, free);
    }
  }

  lemma BackAt(m0: seq<Page>, m: seq<Page>, m': seq<Page>, p: nat, c: nat, n: nat,
               was: seq<nat>, free: seq<nat>, free': seq<nat>, lost: set<nat>, k: nat)
    requires ParentKept(m0, m, p, was) && Copying(m0, m, p, c, n, was, free) && Accounted(m, c, was, free, lost)
    requires |m'| == |m| && (k in free' <==> k in free || LeafBetween(m, c, 0, FREED, k) || InDir(m, c, k))
    requires k < |m| && !LeafBetween(m, c, 0, FREED, k) && !InDir(m, c, k) ==> m'[k] == m[k]
    ensures k in free' <==> k in was && k !in lost + FramesOf(m, c, FREED, n)
    ensures k in lost + FramesOf(m, c, FREED, n) ==> k in was
    ensures !(k in lost && k in FramesOf(m, c, FREED, n))
    ensures k < |m| && k !in was ==> m'[k] == m0[k]
  {
    hide FramesOf, LeafBetween, InDir, IsLeaf;
    LowOrHigh(m0, m, p, c, n, was, free, k);
    if k in FramesOf(m, c, FREED, n) { HighFrame(m0, m, p, c, n, was, free, k); }
  }

  /** The pages beyond freevm's bound are what a failed copy loses besides what it never mapped. */
  lemma AllGivenBack(m0: seq<Page>, m: seq<Page>, m': seq<Page>, p: nat, c: nat, n: nat,
                     was: seq<nat>, free: seq<nat>, free': seq<nat>, lost: set<nat>)
    requires ParentKept(m0, m, p, was) && Copying(m0, m, p, c, n, was, free) && Accounted(m, c, was, free, lost)
    requires |m'| == |m|
    requires forall k: nat :: k in free' <==> k in free || LeafBetween(m, c, 0, FREED, k) || InDir(m, c, k)
    requires forall k :: 0 <= k < |m| && !LeafBetween(m, c, 0, FREED, k) && !InDir(m, c, k) ==> m'[k] == m[k]
    ensures GivenBack(m0, m', p, was, free', lost + FramesOf(m, c, FREED, n))
    ensures |lost + FramesOf(m, c, FREED, n)| == |lost| + if n <= FREED then 0 else n - FREED
  {
    hide Copying, IsLeaf, LeafBetween, InDir, FramesOf, Dir, ParentKept, Accounted;
    CopyDistinct(m0, m, p, c, n, was, free);
    var high := FramesOf(m, c, FREED, n);
    FramesCount(m, c, FREED, n);
    forall k: nat
      ensures k in free' <==> k in was && k !in lost + high
      ensures k in lost + high ==> k in was
      ensures !(k in lost && k in high)
      ensures k < |m| && k !in was ==> m'[k] == m0[k]
    {
      BackAt(m0, m, m', p, c, n, was, free, free', lost, k);
    }
    KeptAgain(m0, m, m', p, was);
    assert lost !! high;
  }

  lemma CopyDistinct(m0: seq<Page>, m: seq<Page>, p: nat, c: nat, n: nat, was: seq<nat>, free: seq<nat>)
    requires Copying(m0, m, p, c, n, was, free)
    ensures Dir(m, c) && n <= PAGES && |m| == |m0|
    ensures forall v, w :: 0 <= v < w < n ==> Leaf(m, c, v).frame != Leaf(m, c, w).frame
    ensures forall k :: k in free ==> k in was
  {
  }

  lemma Extended(m0: seq<Page>, m: seq<Page>, m': seq<Page>, p: nat, c: nat, v: nat,
                 was: seq<nat>, free: seq<nat>, free': seq<nat>, f: nat)
    requires Copying(m0, m, p, c, v, was, free) && v < PAGES && f in free && f < |m|
    requires |m'| == |m| && Dir(m', c) && (forall k :: k in free' ==> k in free && k != f)
    requires forall w :: 0 <= w < PAGES && w != v ==> Leaf(m', c, w) == Leaf(m, c, w)
    requires Leaf(m', c, v) == Entry(f, Leaf(m0, p, v).flags) && Present(Leaf(m0, p, v))
    requires Leaf(m0, p, v).frame < |m0| && m'[f] == m0[Leaf(m0, p, v).frame]
    requires forall k :: InDir(m', c, k) ==> InDir(m, c, k) || (k in free && k != f && k !in free')
    requires forall k :: 0 <= k < |m| && !InDir(m, c, k) && k !in free ==> m'[k] == m[k]
    ensures Copying(m0, m', p, c, v + 1, was, free')
  {
    forall w | 0 <= w < v + 1 ensures PageCopied(m0, m', p, c, w, was, free') {
      if w < v { assert PageCopied(m0, m, p, c, w, was, free); }
    }
    forall u, w | 0 <= u < w < v + 1 ensures Leaf(m', c, u).frame != Leaf(m', c, w).frame {
      assert PageCopied(m0, m, p, c, u, was, free);
    }
  }

  // ---------- The two upper levels ----------

  /**
   Directory d under the tables pml4 and pdpt: they lead to it, the kernel half is in place, and
   slots 511 and 510 point back.
   */
  ghost predicate Rooted(m: seq<Page>, d: nat, pml4: nat, pdpt: nat, kernelTable: nat) {
    && IsTable(m, d) && IsTable(m, pml4) && IsTable(m, pdpt)
    && m[pml4].entries[0] == Entry(pdpt, 7) && m[pml4].entries[511] == Entry(kernelTable, 7)
    && m[pdpt].entries[0] == Entry(d, 7)
    && m[d].entries[511] == Entry(pml4, 1) && m[d].entries[510] == Entry(pdpt, 1)
  }

  /** What the processor finds at index i of the table that an entry names. */
  function Next(m: seq<Page>, e: Entry, i: nat): Entry
    requires i < 512
  {
    if Present(e) && IsTable(m, e.frame) then m[e.frame].entries[i] else Entry(0, 0)
  }

  /** The processor's walk from the table in CR3 to the entry for address a, nine bits for each level. */
  function Translate(m: seq<Page>, cr3: nat, a: nat): Entry {
    var e4 := Next(m, Entry(cr3, 1), a / 0x80_0000_0000 % 512);
    var e3 := Next(m, e4, a / 0x4000_0000 % 512);
    var e2 := Next(m, e3, a / 0x20_0000 % 512);
    Next(m, e2, a / 0x1000 % 512)
  }

  /** With the table that slot 511 names in CR3, as switchuvm loads it, every user address has the entry of its page. */
  lemma SwitchedTranslates(m: seq<Page>, d: nat, pml4: nat, pdpt: nat, kernelTable: nat, a: nat)
    requires Dir(m, d) && Rooted(m, d, pml4, pdpt, kernelTable) && a < PAGES * PGSIZE
    ensures Translate(m, m[d].entries[511].frame, a) == Leaf(m, d, a / PGSIZE)
  {
    var v := a / PGSIZE;
    assert a / 0x80_0000_0000 == 0 && a / 0x4000_0000 == 0;
    assert a / 0x20_0000 == v / 512 < SLOTS;
    assert SlotOk(m, d, v / ENTRIES);
  }

  /** So the processor finds the parent's bytes, with the parent's flags, at every address of the copy. */
  lemma ChildTranslates(m0: seq<Page>, m: seq<Page>, p: nat, c: nat, n: nat, was: seq<nat>, free: seq<nat>,
                        pml4: nat, pdpt: nat, kernelTable: nat, a: nat)
    requires Copying(m0, m, p, c, n, was, free) && Rooted(m, c, pml4, pdpt, kernelTable) && a < n * PGSIZE
    ensures var e, e0 := Translate(m, m[c].entries[511].frame, a), Leaf(m0, p, a / PGSIZE);
            && Present(e) && e.flags == e0.flags && e.frame < |m| && e0.frame < |m0| && m[e.frame] == m0[e0.frame]
  {
    hide Translate;
    SwitchedTranslates(m, c, pml4, pdpt, kernelTable, a);
    assert PageCopied(m0, m, p, c, a / PGSIZE, was, free);
  }

  /** The upper levels are outside the space, so that mapping pages leaves them alone. */
  lemma StillRooted(m: seq<Page>, m': seq<Page>, d: nat, pml4: nat, pdpt: nat, kernelTable: nat)
    requires Rooted(m, d, pml4, pdpt, kernelTable) && |m'| == |m| && m'[pml4] == m[pml4] && m'[pdpt] == m[pdpt]
    requires IsTable(m', d) && m'[d].entries[510..] == m[d].entries[510..]
    ensures Rooted(m', d, pml4, pdpt, kernelTable)
  {
    assert m'[d].entries[510..][0] == m'[d].entries[510] && m'[d].entries[510..][1] == m'[d].entries[511];
    assert m[d].entries[510..][0] == m[d].entries[510] && m[d].entries[510..][1] == m[d].entries[511];
  }

  // ---------- Storing through a null page ----------

  const KERNBASE: nat := 0xFFFF_FFFF_8000_0000

  predicate Writable(e: Entry) { Present(e) && e.flags / 2 % 2 == 1 }

  /** The kernel address of a page, 0 for none, and what v2p makes of it in 64 bits. */
  function Virt(f: Option<nat>): nat { if f.None? then 0 else (KERNBASE + f.value * PGSIZE) % 0x1_0000_0000_0000_0000 }

  function Phys(f: Option<nat>): nat { (Virt(f) + 0x8000_0000) % 0x1_0000_0000_0000_0000 }

  function Shift(w: nat, j: nat): nat { if j == 0 then w else Shift(w, j - 1) / 256 }

  /** A page of 64-bit words, least significant byte first. */
  function PageOf(words: seq<nat>): (bytes: seq<Byte>)
    requires |words| == ENTRIES
    ensures |bytes| == PGSIZE
  {
    seq(PGSIZE, k requires 0 <= k < PGSIZE => Shift(words[k / 8], k % 8) % 256)
  }

  /** What setupkvm leaves in the page at address 0 when its third allocation fails. */
  function NullWords(pml4: Option<nat>, pdpt: Option<nat>): (ws: seq<nat>)
    ensures |ws| == ENTRIES && forall i :: 1 <= i < ENTRIES - 2 ==> ws[i] == 0
  {
    seq(ENTRIES, _ => 0)[0 := if pdpt.None? then Phys(None) + 7 else 0]
                        [ENTRIES - 2 := Virt(pdpt) + 1][ENTRIES - 1 := Virt(pml4) + 1]
  }

  function NullPage(free: seq<nat>): seq<Byte> {
    PageOf(NullWords(if |free| > 0 then Some(free[0]) else None, if |free| > 1 then Some(free[1]) else None))
  }

  lemma {:induction false} ShiftZero(j: nat)
    ensures Shift(0, j) == 0
  {
    if j > 0 { ShiftZero(j - 1); }
  }

  /** All but the first and the last two words of it are zero. */
  lemma NullPageZero(free: seq<nat>, k: nat)
    requires 8 <= k < PGSIZE - 16
    ensures NullPage(free)[k] == 0
  {
    ShiftZero(k % 8);
  }

  /** Space p after its page 0 has been overwritten with the given bytes; pages sharing its frame change with it. */
  ghost predicate PageZeroLost(m0: seq<Page>, m: seq<Page>, p: nat, bytes: seq<Byte>) {
    && Space(m0, p) && Space(m, p) && Present(Leaf(m0, p, 0)) && Read(m, p, 0) == bytes
    && forall v :: 0 <= v < PAGES ==>
         && Leaf(m, p, v) == Leaf(m0, p, v)
         && (Leaf(m0, p, v).frame != Leaf(m0, p, 0).frame ==> Read(m, p, v) == Read(m0, p, v))
  }

  lemma NullStored(m0: seq<Page>, m: seq<Page>, p: nat, was: seq<nat>, bytes: seq<Byte>)
    requires Space(m0, p) && ParentKept(m0, m0, p, was) && |m| == |m0| && Present(Leaf(m0, p, 0)) && |bytes| == PGSIZE
    requires !InDir(m0, p, Leaf(m0, p, 0).frame) && Leaf(m0, p, 0).frame < |m|
    requires m[Leaf(m0, p, 0).frame] == Bytes(bytes)
    requires forall k :: 0 <= k < |m| && k !in was && k != Leaf(m0, p, 0).frame ==> m[k] == m0[k]
    ensures PageZeroLost(m0, m, p, bytes)
  {
    SameDir(m0, m, p);
    forall v | 0 <= v < PAGES ensures LeafOk(m, Leaf(m, p, v)) { assert LeafOk(m0, Leaf(m0, p, v)); }
    forall v | 0 <= v < PAGES && Leaf(m0, p, v).frame != Leaf(m0, p, 0).frame
      ensures Read(m, p, v) == Read(m0, p, v)
    {
      assert LeafOk(m0, Leaf(m0, p, v));
    }
  }

  /** A program with anything in the middle of its first page has lost it. */
  lemma PageZeroChanged(m0: seq<Page>, m: seq<Page>, p: nat, free: seq<nat>, k: nat)
    requires PageZeroLost(m0, m, p, NullPage(free)) && 8 <= k < PGSIZE - 16 && k < |Read(m0, p, 0)|
    requires Read(m0, p, 0)[k] != 0
    ensures Read(m, p, 0) != Read(m0, p, 0)
  {
    NullPageZero(free, k);
  }

  lemma NotATable(m: seq<Page>, p: nat, v: nat)
    requires Space(m, p) && v < PAGES && Present(Leaf(m, p, v))
    ensures Leaf(m, p, v).frame < |m| && !InDir(m, p, Leaf(m, p, v).frame)
  {
    assert LeafOk(m, Leaf(m, p, v));
    forall i | 0 <= i < SLOTS && Present(m[p].entries[i]) ensures m[p].entries[i].frame != Leaf(m, p, v).frame {
      assert SlotOk(m, p, i);
    }
  }

  datatype Setup = Ready(d: nat) | NullDir | Trap

  class Machine {
    var mem: seq<Page>
    var freelist: seq<nat>
    const kernelTable: nat  // the kernel half, shared by all spaces

    ghost predicate Valid()
      reads this
    {
      && (forall i :: 0 <= i < |freelist| ==> freelist[i] < |mem|)
      && (forall i, j :: 0 <= i < j < |freelist| ==> freelist[i] != freelist[j])
    }

    method Kalloc() returns (r: Option<nat>)
      requires Valid()
      modifies this`freelist
      ensures Valid() && (r.None? <==> old(freelist) == [])
      ensures if r.None? then freelist == [] else
        old(freelist) == [r.value] + freelist && r.value !in freelist && r.value < |mem|
    {
      if freelist == [] { return None; }
      r := Some(freelist[0]);
      freelist := freelist[1..];
    }

    /**
     setupkvm, run with the tables of space `cur` loaded: an empty space whose top two slots
     point back at the higher levels.  None of the three allocations is checked.  When the
     third fails, what is meant for the missing pages is stored at address 0.
     */
    method SetupKvm(cur: nat) returns (r: Setup)
      requires Valid() && Space(mem, cur) && ParentKept(mem, mem, cur, freelist)
      modifies this
      ensures Valid() && (r.Ready? <==> |old(freelist)| >= 3) && |mem| == |old(mem)|
      ensures r.NullDir? <==> |old(freelist)| < 3 && Writable(Leaf(old(mem), cur, 0))
      ensures r.Ready? ==>
        && freelist == old(freelist)[3..] && r.d == old(freelist)[2]
        && Dir(mem, r.d) && (forall i :: 0 <= i < SLOTS ==> !Present(mem[r.d].entries[i]))
        && Rooted(mem, r.d, old(freelist)[0], old(freelist)[1], kernelTable)
      ensures !r.NullDir? ==> forall k :: 0 <= k < |mem| && k !in old(freelist) ==> mem[k] == old(mem)[k]
      ensures r.NullDir? ==> freelist == [] && PageZeroLost(old(mem), mem, cur, NullPage(old(freelist)))
    {
      hide NullWords, PageOf, ParentKept, Space, PageZeroLost;
      var pml4 := Kalloc();
      var pdpt := Kalloc();
      var pgdir := Kalloc();
      if pgdir.Some? {
        var d := pgdir.value;
        mem := mem[pml4.value := Table(ZeroTable().entries[511 := Entry(kernelTable, 7)][0 := Entry(pdpt.value, 7)])];
        mem := mem[pdpt.value := Table(ZeroTable().entries[0 := Entry(d, 7)])];
        mem := mem[d := Table(ZeroTable().entries[511 := Entry(pml4.value, 1)][510 := Entry(pdpt.value, 1)])];
        return Ready(d);
      }
      SpaceAt(mem, cur, 0);
      if !Writable(Leaf(mem, cur, 0)) {
        return Trap;
      }
      StoreNull(cur, pml4, pdpt, old(freelist));
      r := NullDir;
    }

    /** The stores of setupkvm without a third page. */
    method StoreNull(cur: nat, pml4: Option<nat>, pdpt: Option<nat>, ghost was: seq<nat>)
      requires Space(mem, cur) && ParentKept(mem, mem, cur, was) && Present(Leaf(mem, cur, 0)) && |was| < 3
      requires pml4 == (if |was| > 0 then Some(was[0]) else None) && pdpt == (if |was| > 1 then Some(was[1]) else None)
      requires forall i :: 0 <= i < |was| ==> was[i] < |mem|
      modifies this`mem
      ensures |mem| == |old(mem)| && PageZeroLost(old(mem), mem, cur, NullPage(was))
    {
      ghost var m0 := mem;
      NotATable(mem, cur, 0);
      var f := Leaf(mem, cur, 0).frame;
      var words := seq(ENTRIES, _ => 0);
      if pml4.Some? {
        var low := Entry(Phys(pdpt) / PGSIZE, 7);
        mem := mem[pml4.value := Table(ZeroTable().entries[511 := Entry(kernelTable, 7)][0 := low])];
      } else {
        words := words[511 := kernelTable * PGSIZE + 7][0 := Phys(pdpt) + 7];
      }
      if pdpt.Some? {
        mem := mem[pdpt.value := Table(ZeroTable().entries[0 := Entry(Phys(None) / PGSIZE, 7)])];
      } else {
        words := words[0 := Phys(None) + 7];
      }
      words := words[511 := Virt(pml4) + 1][510 := Virt(pdpt) + 1];
      assert words == NullWords(pml4, pdpt);
      mem := mem[f := Bytes(PageOf(words))];
      NullStored(m0, mem, cur, was, PageOf(words));
    }

    /** walkpgdir with alloc set: page v has a page table, a new one if need be, unless memory has run out. */
    method Walk(d: nat, v: nat) returns (ok: bool)
      requires Valid() && Dir(mem, d) && v < PAGES && forall k :: k in freelist ==> !InDir(mem, d, k)
      modifies this
      ensures Valid() && |mem| == |old(mem)| && Dir(mem, d) && SlotOk(mem, d, v / ENTRIES)
      ensures ok <==> old(Present(mem[d].entries[v / ENTRIES]) || freelist != [])
      ensures if ok then Present(mem[d].entries[v / ENTRIES]) else mem == old(mem) && freelist == old(freelist)
      ensures old(Present(mem[d].entries[v / ENTRIES])) ==> mem == old(mem)
      ensures ok ==>
        freelist == if old(Present(mem[d].entries[v / ENTRIES])) then old(freelist) else old(freelist)[1..]
      ensures ok ==> forall i :: 0 <= i < SLOTS ==>
        (Present(mem[d].entries[i]) <==> old(Present(mem[d].entries[i])) || i == v / ENTRIES)
      ensures forall w :: 0 <= w < PAGES ==> Leaf(mem, d, w) == old(Leaf(mem, d, w))
      ensures forall k :: InDir(mem, d, k) ==> old(InDir(mem, d, k)) || (k in old(freelist) && k !in freelist)
      ensures forall k :: 0 <= k < |mem| && !old(InDir(mem, d, k)) && k !in old(freelist) ==> mem[k] == old(mem)[k]
      ensures forall k :: k in freelist ==> !InDir(mem, d, k)
      ensures forall k :: old(InDir(mem, d, k)) || (k in old(freelist) && k !in freelist) ==> InDir(mem, d, k)
      ensures mem[d].entries[510..] == old(mem[d].entries[510..])
      ensures ok && !old(Present(mem[d].entries[v / ENTRIES])) ==>
        mem[d].entries[v / ENTRIES] == Entry(old(freelist)[0], 0x1 + 0x2 + 0x4)
    {
      assert SlotOk(mem, d, v / ENTRIES);
      if Present(mem[d].entries[v / ENTRIES]) { return true; }
      var t := Kalloc();
      if t.None? { return false; }
      WithTableKeeps(mem, d, v / ENTRIES, t.value);
      mem := WithTable(mem, d, v / ENTRIES, t.value);
      assert InDir(mem, d, d);
      return true;
    }

    /** mappages for one page. */
    method MapPage(d: nat, v: nat, e: Entry) returns (r: Mapping)
      requires Valid() && Dir(mem, d) && v < PAGES && forall k :: k in freelist ==> !InDir(mem, d, k)
      modifies this
      ensures Valid() && |mem| == |old(mem)| && Dir(mem, d)
      ensures r.Remap? <==> old(Present(Leaf(mem, d, v)))
      ensures r.NoTable? <==> !old(Present(mem[d].entries[v / ENTRIES])) && old(freelist) == []
      ensures !r.Mapped? ==> mem == old(mem) && freelist == old(freelist)
      ensures r.Mapped? ==>
        forall w :: 0 <= w < PAGES ==> Leaf(mem, d, w) == if w == v then e else old(Leaf(mem, d, w))
      ensures r.Mapped? ==>
        freelist == if old(Present(mem[d].entries[v / ENTRIES])) then old(freelist) else old(freelist)[1..]
      ensures r.Mapped? ==> forall i :: 0 <= i < SLOTS ==>
        (Present(mem[d].entries[i]) <==> old(Present(mem[d].entries[i])) || i == v / ENTRIES)
      ensures forall k :: InDir(mem, d, k) <==> old(InDir(mem, d, k)) || (k in old(freelist) && k !in freelist)
      ensures forall k :: 0 <= k < |mem| && !old(InDir(mem, d, k)) && k !in old(freelist) ==> mem[k] == old(mem)[k]
      ensures mem[d].entries[510..] == old(mem[d].entries[510..])
    {
      var ok := Walk(d, v);
      if !ok { return NoTable; }
      if Present(Leaf(mem, d, v)) { return Remap; }
      assert InDir(mem, d, mem[d].entries[v / ENTRIES].frame);
      WithLeafMaps(mem, d, v, e);
      mem := WithLeaf(mem, d, v, e);
      return Mapped;
    }

    /**
     What one turn of copyuvm's loop does for page v of the child: it fails exactly when
     the pages it takes are not there.  lost is a frame it takes and does not map.
     */
    method CopyPage(p: nat, c: nat, v: nat, ghost m0: seq<Page>, ghost was: seq<nat>, ghost top: set<nat>)
      returns (r: Outcome, ghost lost: set<nat>)
      requires Valid() && v < PAGES && Space(m0, p) && ParentKept(m0, mem, p, was)
      requires Copying(m0, mem, p, c, v, was, freelist) && Accounted(mem, c, was, freelist, top)
      requires IsTable(mem, c) && TablesFor(mem, c, v)
      modifies this
      ensures Valid() && |mem| == |m0| && ParentKept(m0, mem, p, was) && lost !! top
      ensures !r.Fault? && !r.Overwrote?
      ensures r.Panic? <==> !Present(Leaf(m0, p, v))
      ensures r.NoMemory? <==> Present(Leaf(m0, p, v)) && |old(freelist)| < Cost(v)
      ensures r.Copied? ==> r.d == c && lost == {} && Copying(m0, mem, p, c, v + 1, was, freelist)
      ensures r.Copied? ==> |freelist| == |old(freelist)| - Cost(v) && IsTable(mem, c) && TablesFor(mem, c, v + 1)
      ensures r.NoMemory? ==> Copying(m0, mem, p, c, v, was, freelist) && |lost| == |old(freelist)|
      ensures Accounted(mem, c, was, freelist, top + lost)
      ensures r.Copied? ==> mem[c].entries[510..] == old(mem[c].entries[510..])
      ensures r.Copied? ==> forall k :: k in top && k < |mem| ==> mem[k] == old(mem)[k]
    {
      hide Copying, PageCopied, Space, Accounted, TablesFor, ParentKept, Dir, InDir, Leaf;
      lost := {};
      assert top + {} == top;
      CopyingShape(m0, mem, p, c, v, was, freelist);
      ParentSame(m0, mem, p, was);
      var e := Leaf(mem, p, v);
      if !Present(e) { return Panic, lost; }
      ParentFrame(m0, mem, p, was, v);
      ghost var m1, free1 := mem, freelist;
      var f := Kalloc();
      if f.None? { return NoMemory, lost; }
      mem := mem[f.value := Bytes(mem[e.frame].bytes)];
      ghost var m2 := mem;
      CopyingTaken(m0, m1, m2, p, c, v, was, free1, freelist, f.value, top);
      KeptOutside(m0, m1, m2, p, was);
      Unmapped(m0, m1, p, c, v, was, free1);
      TableThere(m1, c, v);
      var mapping := MapPage(c, v, Entry(f.value, e.flags));
      if mapping.NoTable? { return NoMemory, {f.value}; }
      KeptOutside(m0, m2, mem, p, was);
      Extended(m0, m1, mem, p, c, v, was, free1, freelist, f.value);
      ExtendedAccounted(m1, mem, c, v, was, free1, freelist, f.value, top);
      forall k | k in top && k < |mem| ensures mem[k] == m1[k] { TopApart(m1, c, was, free1, top, k); }
      TablesNext(m1, mem, c, v);
      return Copied(c), lost;
    }

    method Kfree(f: nat)
      requires Valid() && f < |mem| && f !in freelist
      modifies this
      ensures Valid() && freelist == [f] + old(freelist)
      ensures mem == old(mem)[f := Junk()] && forall k :: 0 <= k < 4096 ==> Junk().bytes[k] == 1
    {
      mem := mem[f := Junk()];
      freelist := [f] + freelist;
    }

    /** One turn of deallocuvm's loop, for a page that has a table. */
    method FreePage(d: nat, v: nat, ghost m0: seq<Page>, ghost free0: seq<nat>, ghost lo: nat)
      requires Valid() && Owned(m0, d, free0) && LeavesFreed(m0, free0, mem, freelist, d, lo, v) && lo <= v < PAGES
      requires IsTable(mem, d) && Present(mem[d].entries[v / ENTRIES])
      modifies this
      ensures Valid() && LeavesFreed(m0, free0, mem, freelist, d, lo, v + 1)
    {
      hide LeavesFreed, Owned, Dir, Junk, LeafBetween, IsLeaf;
      FreedShape(m0, free0, mem, freelist, d, lo, v);
      if Present(Leaf(mem, d, v)) {
        var f := Leaf(mem, d, v).frame;
        LeafFreeable(m0, free0, mem, freelist, d, lo, v);
        LeafFreed(m0, free0, mem, freelist, d, lo, v, mem[f := Junk()]);
        Kfree(f);
        mem := WithLeaf(mem, d, v, Entry(0, 0));
      } else {
        LeavesSkipped(m0, free0, mem, freelist, d, lo, v, lo, v + 1);
      }
    }

    /**
     deallocuvm: shrinks a space from oldsz to newsz.  It frees the pages from the first it
     finds a table for, which is all of them exactly when no page before that is mapped, as
     when it starts at the start of a table.
     */
    method Deallocuvm(d: nat, oldsz: nat, newsz: nat) returns (r: nat)
      requires Valid() && Owned(mem, d, freelist) && oldsz <= PAGES * PGSIZE
      modifies this
      ensures Valid() && r == if newsz >= oldsz then oldsz else newsz
      ensures newsz >= oldsz ==> mem == old(mem) && freelist == old(freelist)
      ensures newsz < oldsz ==>
        var from, to := (newsz + PGSIZE - 1) / PGSIZE, (oldsz + PGSIZE - 1) / PGSIZE;
        && LeavesFreed(old(mem), old(freelist), mem, freelist, d, FirstVisited(old(mem), d, from, to), to)
        && (LeavesFreed(old(mem), old(freelist), mem, freelist, d, from, to) <==>
              forall v :: from <= v < FirstVisited(old(mem), d, from, to) && v < to ==> !Present(Leaf(old(mem), d, v)))
        && (from % ENTRIES == 0 ==> LeavesFreed(old(mem), old(freelist), mem, freelist, d, from, to))
    {
      hide LeavesFreed, Owned, Dir, Junk, LeafBetween, IsLeaf, Leaf, WithLeaf;
      if newsz >= oldsz { return oldsz; }
      ghost var m0, free0 := mem, freelist;
      OwnedDir(m0, d, free0);
      var v, to := (newsz + PGSIZE - 1) / PGSIZE, (oldsz + PGSIZE - 1) / PGSIZE;
      ghost var from, lo := v, FirstVisited(m0, d, v, to);
      NothingFreed(m0, free0, d, lo, if v < to then v else to);
      while v < to
        invariant Valid() && Dir(m0, d) && IsTable(m0, d)
        invariant LeavesFreed(m0, free0, mem, freelist, d, lo, if v < to then v else to)
        invariant v <= lo ==> FirstVisited(m0, d, v, to) == lo
        invariant lo <= v < to ==> v % ENTRIES == 0 || Present(m0[d].entries[v / ENTRIES])
        decreases if v < to then to - v else 0
      {
        FreedShape(m0, free0, mem, freelist, d, lo, v);
        SlotSteps(v);
        if !Present(mem[d].entries[v / ENTRIES]) {
          ghost var next := if v + ENTRIES < to then v + ENTRIES else to;
          if v < lo {
            LeavesStillFree(m0, free0, mem, freelist, d, lo, v, next);
          } else {
            SlotEmpty(m0, d, v);
            LeavesSkipped(m0, free0, mem, freelist, d, lo, v, lo, next);
          }
          v := v + ENTRIES;
        } else {
          FreePage(d, v, m0, free0, lo);
          v := v + 1;
        }
      }
      FreesAllExactly(m0, free0, mem, freelist, d, from, lo, to);
      if from % ENTRIES == 0 {
        forall u | from <= u < lo && u < to ensures !Present(Leaf(m0, d, u)) {
          AlignedMissesNothing(m0, d, from, to, u);
        }
      }
      return newsz;
    }

    /**
     freevm: the page tables, the directory and the mapped pages below 0x3fa00000 go back to
     the free list.  Pages mapped above that are left as they are.
     */
    method Freevm(d: nat)
      requires Valid() && Owned(mem, d, freelist)
      modifies this
      ensures Valid() && |mem| == |old(mem)|
      ensures forall k: nat :: k in freelist <==>
        k in old(freelist) || old(LeafBetween(mem, d, 0, FREED, k)) || old(InDir(mem, d, k))
      ensures forall k :: 0 <= k < |mem| && !old(LeafBetween(mem, d, 0, FREED, k)) && !old(InDir(mem, d, k)) ==>
        mem[k] == old(mem)[k]
    {
      ghost var m0, free0 := mem, freelist;
      var sz := Deallocuvm(d, 0x3fa00000, 0);
      ghost var m1, free1 := mem, freelist;
      LeavesAllFreed(m0, free0, m1, free1, d);
      var i := 0;
      while i < SLOTS
        invariant 0 <= i <= SLOTS && Valid() && |mem| == |m0| && d < |mem| && mem[d] == m0[d] && d !in freelist
        invariant forall k: nat :: k in freelist <==> k in free1 || TableBefore(m0, d, i, k)
        invariant forall k :: 0 <= k < |mem| && !InDir(m0, d, k) ==> mem[k] == m1[k]
      {
        if Present(mem[d].entries[i]) {
          TableFreeable(m0, d, i);
          Kfree(mem[d].entries[i].frame);
        }
        i := i + 1;
      }
      Kfree(d);
    }

    /** The loop of copyuvm; count pages are copied when it ends. */
    method CopyPages(p: nat, c: nat, n: nat, ghost m0: seq<Page>, ghost was: seq<nat>, ghost top: set<nat>)
      returns (r: Outcome, ghost count: nat, ghost lost: set<nat>)
      requires Valid() && n <= PAGES && Space(m0, p) && ParentKept(m0, mem, p, was)
      requires Copying(m0, mem, p, c, 0, was, freelist) && Accounted(mem, c, was, freelist, top)
      requires IsTable(mem, c) && TablesFor(mem, c, 0) && |was| == |freelist| + Need(0)
      modifies this
      ensures Valid() && |mem| == |m0| && ParentKept(m0, mem, p, was) && lost !! top
      ensures !r.Fault? && !r.Overwrote?
      ensures count <= n && Need(count) <= |was| && forall v :: 0 <= v < count ==> Present(Leaf(m0, p, v))
      ensures r.Copied? ==> r.d == c && count == n && Copying(m0, mem, p, c, n, was, freelist)
      ensures r.Panic? ==> count < n && !Present(Leaf(m0, p, count))
      ensures r.NoMemory? ==>
        && count < n && Present(Leaf(m0, p, count)) && |was| < Need(count + 1) && |lost| == |was| - Need(count)
        && Copying(m0, mem, p, c, count, was, freelist) && Accounted(mem, c, was, freelist, top + lost)
      ensures r.Copied? ==> IsTable(mem, c) && mem[c].entries[510..] == old(mem[c].entries[510..])
      ensures r.Copied? ==> forall k :: k in top && k < |mem| ==> mem[k] == old(mem)[k]
    {
      hide Copying, Accounted, ParentKept, Space, TablesFor, Need, Cost;
      SpaceAt(m0, p, 0);
      CopyingShape(m0, mem, p, c, 0, was, freelist);
      var v := 0;
      lost, count := {}, 0;
      while v < n
        invariant 0 <= v <= n && count == v && Valid() && |mem| == |m0| && ParentKept(m0, mem, p, was) && lost == {}
        invariant Copying(m0, mem, p, c, v, was, freelist) && Accounted(mem, c, was, freelist, top)
        invariant IsTable(mem, c) && TablesFor(mem, c, v) && |was| == |freelist| + Need(v)
        invariant forall w :: 0 <= w < v ==> Present(Leaf(m0, p, w))
        invariant mem[c].entries[510..] == old(mem[c].entries[510..])
        invariant forall k :: k in top && k < |mem| ==> mem[k] == old(mem)[k]
      {
        NeedNext(v);
        r, lost := CopyPage(p, c, v, m0, was, top);
        if !r.Copied? { return; }
        assert top + {} == top;
        v := v + 1;
        count := v;
      }
      r := Copied(c);
    }

    /**
     copyuvm, as fork calls it: space p is the one loaded.  Its frames are in use; sz is at
     most what the directory slots below the backpointers can map.  count is the number of
     pages copied, lost the frames that are neither free nor used when memory has run out.
     */
    method CopyUvm(p: nat, sz: nat) returns (r: Outcome, ghost count: nat, ghost lost: set<nat>)
      requires Valid() && Space(mem, p) && ParentKept(mem, mem, p, freelist) && sz <= PAGES * PGSIZE
      modifies this
      ensures Valid() && |mem| == |old(mem)| && (!r.Overwrote? ==> SameView(old(mem), mem, p))
      ensures r.Overwrote? <==> |old(freelist)| < 3 && Writable(Leaf(old(mem), p, 0))
      ensures r.Overwrote? ==> freelist == [] && PageZeroLost(old(mem), mem, p, NullPage(old(freelist)))
      ensures r.Fault? <==> |old(freelist)| < 3 && !Writable(Leaf(old(mem), p, 0))
      ensures r.Copied? <==> |old(freelist)| >= Need(PagesIn(sz)) && AllThere(old(mem), p, PagesIn(sz))
      ensures r.Panic? <==> exists m: nat ::
        m < PagesIn(sz) && AllThere(old(mem), p, m) && !Present(Leaf(old(mem), p, m)) && |old(freelist)| >= Need(m)
      ensures r.Copied? ==>
        && Copying(old(mem), mem, p, r.d, PagesIn(sz), old(freelist), freelist)
        && Separate(mem, p, r.d)
        && Rooted(mem, r.d, old(freelist)[0], old(freelist)[1], kernelTable)
      ensures r.NoMemory? ==>
        && count < PagesIn(sz) && Need(count) <= |old(freelist)| < Need(count + 1)
        && old(freelist)[0] in lost && old(freelist)[1] in lost && |lost| == Lost(|old(freelist)|, count)
        && GivenBack(old(mem), mem, p, old(freelist), freelist, lost)
    {
      hide Copying, Accounted, Space, SameView, Separate, GivenBack, Owned, TablesFor, LeafBetween, PageZeroLost,
           NullPage, AllThere, Leaf, InDir, Rooted;
      ghost var m0, was := mem, freelist;
      SpaceAt(m0, p, 0);
      lost, count := {}, 0;
      var s := SetupKvm(p);
      if !s.Ready? {
        FaultsFirst(PagesIn(sz), |was|);
        if s.NullDir? {
          return Overwrote, count, lost;
        }
        ParentUnseen(m0, mem, p, was);
        return Fault, count, lost;
      }
      var c, n := s.d, PagesIn(sz);
      CopyStarts(m0, mem, p, c, was, freelist);
      ghost var top, m2 := {was[0], was[1]}, mem;
      r, count, lost := CopyPages(p, c, n, m0, was, top);
      OutcomeExact(m0, p, n, |was|, count, r);
      if r.Copied? {
        CopyIsApart(m0, mem, p, c, n, was, freelist);
        StillRooted(m2, mem, c, was[0], was[1], kernelTable);
      } else if r.NoMemory? {
        ghost var m1, free1 := mem, freelist;
        CopyingOwned(m0, mem, p, c, count, was, freelist);
        Freevm(c);
        AllGivenBack(m0, m1, mem, p, c, count, was, free1, freelist, top + lost);
        lost := top + lost + FramesOf(m1, c, FREED, count);
        BackMeansKept(m0, mem, p, was, freelist, lost);
        ParentUnseen(m0, mem, p, was);
      } else {
        ParentUnseen(m0, mem, p, was);
      }
    }
  }
}
