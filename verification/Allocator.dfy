/**
 The storage allocator of ulib/umalloc.c, after Kernighan and Ritchie.

 Addresses count header-sized units.  A header has a link and a size; the free
 blocks form a ring in address order that starts at the static header `base`.
 */
module Allocator {

  const HEADER: nat := 16
  const MINUNITS: nat := 4096

  /** The link or the size field of every unit that has been used as a header. */
  type Field = map<nat, nat>

  datatype Block = Block(addr: nat, units: nat)

  function End(b: Block): nat { b.addr + b.units }

  function Units(bs: seq<Block>): nat {
    if bs == [] then 0 else Units(bs[..|bs| - 1]) + bs[|bs| - 1].units
  }

  lemma {:induction false} UnitsSplit(a: seq<Block>, b: seq<Block>)
    ensures Units(a + b) == Units(a) + Units(b)
  {
    if b == [] {
      assert a + b == a;
    } else {
      assert (a + b)[..|a + b| - 1] == a + b[..|b| - 1];
      UnitsSplit(a, b[..|b| - 1]);
    }
  }

  lemma UnitsOne(b: Block)
    ensures Units([b]) == b.units
  {
    assert [b][..0] == [];
  }

  // ---------- Free blocks ----------

  /** Blocks in address order that neither overlap nor touch; the first is base, the only empty one. */
  ghost predicate Spaced(free: seq<Block>, base: nat) {
    && |free| > 0 && free[0] == Block(base, 0)
    && (forall i :: 1 <= i < |free| ==> free[i].units > 0)
    && (forall i, j :: 0 <= i < j < |free| ==> End(free[i]) < free[j].addr)
  }

  function NextAddr(free: seq<Block>, i: nat): nat
    requires i < |free|
  {
    if i + 1 < |free| then free[i + 1].addr else free[0].addr
  }

  ghost predicate LinkedAt(ptr: Field, size: Field, free: seq<Block>, i: nat)
    requires i < |free|
  {
    && free[i].addr in ptr && ptr[free[i].addr] == NextAddr(free, i)
    && free[i].addr in size && size[free[i].addr] == free[i].units
  }

  /** The headers in memory form the ring of these blocks. */
  ghost predicate Linked(ptr: Field, size: Field, free: seq<Block>) {
    forall i :: 0 <= i < |free| ==> LinkedAt(ptr, size, free, i)
  }

  ghost predicate Disjoint(a: Block, b: Block) { End(a) <= b.addr || End(b) <= a.addr }

  ghost predicate DisjointFrom(b: Block, bs: seq<Block>) {
    forall i :: 0 <= i < |bs| ==> Disjoint(bs[i], b)
  }

  /** Blocks handed out, with their sizes in their headers. */
  ghost predicate Live(size: Field, live: seq<Block>, base: nat) {
    && (forall i :: 0 <= i < |live| ==> live[i].units > 0 && base < live[i].addr)
    && (forall i :: 0 <= i < |live| ==> live[i].addr in size && size[live[i].addr] == live[i].units)
    && (forall i, j :: 0 <= i < j < |live| ==> Disjoint(live[i], live[j]))
  }

  ghost predicate Apart(free: seq<Block>, live: seq<Block>) {
    forall j :: 0 <= j < |live| ==> DisjointFrom(live[j], free)
  }

  // ---------- Inserting a block ----------

  /** The block fits between free[t] and its successor. */
  ghost predicate InGap(free: seq<Block>, t: nat, b: Block) {
    && t < |free| && b.units > 0 && free[0].addr < b.addr
    && (forall i :: 0 <= i <= t ==> End(free[i]) <= b.addr)
    && (forall i :: t < i < |free| ==> End(b) <= free[i].addr)
  }

  /** Such a gap exists for every block that overlaps no free block. */
  lemma {:induction false} FindGap(free: seq<Block>, base: nat, b: Block, k: nat) returns (t: nat)
    requires Spaced(free, base) && base < b.addr && b.units > 0 && DisjointFrom(b, free) && k < |free|
    requires forall i :: k < i < |free| ==> End(b) <= free[i].addr
    ensures InGap(free, t, b)
  {
    hide Spaced;
    StartsAtBase(free, base);
    if End(free[k]) <= b.addr {
      forall i | 0 <= i <= k
        ensures End(free[i]) <= b.addr
      {
        InOrder(free, base, i, k);
      }
      t := k;
    } else {
      assert Disjoint(free[k], b);
      t := FindGap(free, base, b, k - 1);
    }
  }

  lemma StartsAtBase(free: seq<Block>, base: nat)
    requires Spaced(free, base)
    ensures |free| > 0 && free[0] == Block(base, 0)
  {
  }

  lemma InOrder(free: seq<Block>, base: nat, i: nat, j: nat)
    requires Spaced(free, base) && i < |free| && j < |free|
    ensures i < j ==> End(free[i]) < free[j].addr
    ensures j < i ==> End(free[j]) < free[i].addr
  {
  }

  ghost predicate TouchesUp(free: seq<Block>, t: nat, b: Block) { t + 1 < |free| && End(b) == free[t + 1].addr }

  ghost predicate TouchesDown(free: seq<Block>, t: nat, b: Block) { t < |free| && End(free[t]) == b.addr }

  /** The block, joined to its successor if they touch. */
  ghost function JoinUp(free: seq<Block>, t: nat, b: Block): Block {
    if TouchesUp(free, t, b) then Block(b.addr, b.units + free[t + 1].units) else b
  }

  ghost function After(free: seq<Block>, t: nat, b: Block): seq<Block>
    requires t < |free|
  {
    if TouchesUp(free, t, b) then free[t + 2..] else free[t + 1..]
  }

  /** The free blocks after b has been put in the gap after free[t] and joined to whatever it touches. */
  ghost function Insert(free: seq<Block>, t: nat, b: Block): seq<Block>
    requires t < |free|
  {
    var m := JoinUp(free, t, b);
    if TouchesDown(free, t, b) then free[..t] + [Block(free[t].addr, free[t].units + m.units)] + After(free, t, b)
    else free[..t + 1] + [m] + After(free, t, b)
  }

  ghost predicate Sparse(bs: seq<Block>) {
    forall i, j :: 0 <= i < j < |bs| ==> End(bs[i]) < bs[j].addr
  }

  lemma InsertSpaced(free: seq<Block>, base: nat, t: nat, b: Block)
    requires Spaced(free, base) && InGap(free, t, b)
    ensures Spaced(Insert(free, t, b), base)
  {
    JoinedUp(free, base, t, b);
    InsertSparse(free, base, t, b);
    hide Insert, JoinUp, InGap;
    var r := Insert(free, t, b);
    InsertIndex(free, t, b, 0);
    forall i | 1 <= i < |r|
      ensures r[i].units > 0
    {
      InsertIndex(free, t, b, i);
    }
  }

  lemma InsertSparse(free: seq<Block>, base: nat, t: nat, b: Block)
    requires Spaced(free, base) && InGap(free, t, b)
    ensures Sparse(Insert(free, t, b))
  {
    hide Insert, InGap, Spaced;
    GapBound(free, t, b);
    var r := Insert(free, t, b);
    forall i, j | 0 <= i < j < |r|
      ensures End(r[i]) < r[j].addr
    {
      InsertSparseAt(free, base, t, b, i, j);
    }
  }

  lemma GapBound(free: seq<Block>, t: nat, b: Block)
    requires InGap(free, t, b)
    ensures t < |free|
  {
  }

  lemma InsertSparseAt(free: seq<Block>, base: nat, t: nat, b: Block, i: nat, j: nat)
    requires Spaced(free, base) && InGap(free, t, b) && t < |free| && i < j < |Insert(free, t, b)|
    ensures End(Insert(free, t, b)[i]) < Insert(free, t, b)[j].addr
  {
    hide Insert, JoinUp, InGap, Spaced;
    JoinedAt(free, base, t, b, i);
    InsertIndex(free, t, b, i);
    InsertIndex(free, t, b, j);
    InsertOrder(free, base, t, b, i, j);
  }

  lemma JoinedAt(free: seq<Block>, base: nat, t: nat, b: Block, i: nat)
    requires Spaced(free, base) && InGap(free, t, b)
    ensures JoinUp(free, t, b).addr == b.addr
    ensures TouchesDown(free, t, b) ==> t > 0 && End(free[t]) == b.addr
    ensures !TouchesDown(free, t, b) ==> End(free[t]) < b.addr
    ensures i < t ==> End(free[i]) < free[t].addr && End(free[i]) < b.addr
  {
    hide Spaced;
    StartsAtBase(free, base);
    if i < t { InOrder(free, base, i, t); }
  }

  /** The order of the old blocks around the new one. */
  lemma InsertOrder(free: seq<Block>, base: nat, t: nat, b: Block, i: nat, j: nat)
    requires Spaced(free, base) && InGap(free, t, b) && i < j
    ensures j < Place(free, t, b) ==> End(free[i]) < free[j].addr
    ensures i >= Place(free, t, b) && Moved(free, t, b, j) < |free| ==>
              && End(JoinUp(free, t, b)) < free[Moved(free, t, b, j)].addr
              && End(free[Moved(free, t, b, i)]) < free[Moved(free, t, b, j)].addr
    ensures i < Place(free, t, b) < j && Moved(free, t, b, j) < |free| ==>
              End(free[i]) < free[Moved(free, t, b, j)].addr
  {
    hide Spaced;
    if j < |free| { InOrder(free, base, i, j); }
    if i >= Place(free, t, b) && Moved(free, t, b, j) < |free| {
      InOrder(free, base, Moved(free, t, b, i), Moved(free, t, b, j));
      InOrder(free, base, t + 1, Moved(free, t, b, j));
    }
    if i < Place(free, t, b) < j && Moved(free, t, b, j) < |free| {
      InOrder(free, base, i, Moved(free, t, b, j));
    }
  }

  lemma JoinedUp(free: seq<Block>, base: nat, t: nat, b: Block)
    requires Spaced(free, base) && InGap(free, t, b)
    ensures JoinUp(free, t, b).addr == b.addr && JoinUp(free, t, b).units > 0
    ensures TouchesDown(free, t, b) ==> t > 0 && End(free[t]) == b.addr
    ensures !TouchesDown(free, t, b) ==> End(free[t]) < b.addr
    ensures forall i :: 0 <= i < t ==> End(free[i]) < free[t].addr && End(free[i]) < b.addr
  {
  }

  lemma AfterUnits(free: seq<Block>, t: nat, b: Block)
    requires t < |free|
    ensures Units(After(free, t, b)) + JoinUp(free, t, b).units == Units(free[t + 1..]) + b.units
  {
    hide Units;
    if TouchesUp(free, t, b) {
      UnitsSplit([free[t + 1]], free[t + 2..]);
      UnitsOne(free[t + 1]);
      assert [free[t + 1]] + free[t + 2..] == free[t + 1..];
    }
  }

  lemma UnitsAround(free: seq<Block>, t: nat)
    requires t < |free|
    ensures Units(free) == Units(free[..t]) + free[t].units + Units(free[t + 1..])
  {
    hide Units;
    UnitsSplit(free[..t], free[t..]);
    UnitsSplit([free[t]], free[t + 1..]);
    UnitsOne(free[t]);
    assert free[..t] + free[t..] == free;
    assert [free[t]] + free[t + 1..] == free[t..];
  }

  /** The new list, by whether b touches the block before it. */
  lemma InsertParts(free: seq<Block>, t: nat, b: Block)
    requires t < |free|
    ensures Units(Insert(free, t, b)) ==
              Units(free[..t]) + free[t].units + JoinUp(free, t, b).units + Units(After(free, t, b))
  {
    hide Units, After, JoinUp, TouchesDown;
    var m, rest := JoinUp(free, t, b), After(free, t, b);
    if TouchesDown(free, t, b) {
      UnitsOfThree(free[..t], Block(free[t].addr, free[t].units + m.units), rest);
    } else {
      UnitsOfThree(free[..t + 1], m, rest);
      UnitsHead(free, t);
    }
  }

  lemma InsertUnits(free: seq<Block>, t: nat, b: Block)
    requires t < |free|
    ensures Units(Insert(free, t, b)) == Units(free) + b.units
  {
    hide Units, After, JoinUp, Insert;
    InsertParts(free, t, b);
    AfterUnits(free, t, b);
    UnitsAround(free, t);
  }

  lemma UnitsHead(free: seq<Block>, t: nat)
    requires t < |free|
    ensures Units(free[..t + 1]) == Units(free[..t]) + free[t].units
  {
    assert free[..t + 1][..t] == free[..t];
  }

  lemma UnitsOfThree(a: seq<Block>, m: Block, rest: seq<Block>)
    ensures Units(a + [m] + rest) == Units(a) + m.units + Units(rest)
  {
    hide Units;
    UnitsOne(m);
    UnitsSplit(a, [m]);
    UnitsSplit(a + [m], rest);
  }

  /** Where the inserted block stands in the new list. */
  ghost function Place(free: seq<Block>, t: nat, b: Block): nat { if TouchesDown(free, t, b) then t else t + 1 }

  /** The old index of what stands at i, behind the inserted block. */
  ghost function Moved(free: seq<Block>, t: nat, b: Block, i: nat): nat
    requires i >= Place(free, t, b)
  {
    i - Place(free, t, b) + t + if TouchesUp(free, t, b) then 1 else 0
  }

  lemma InsertIndex(free: seq<Block>, t: nat, b: Block, i: nat)
    requires t < |free|
    ensures var r, k := Insert(free, t, b), Place(free, t, b);
            && k < |r| && Moved(free, t, b, |r| - 1) == |free| - 1
            && (i < |r| && i < k ==> r[i] == free[i])
            && (k < i < |r| ==> Moved(free, t, b, i) < |free| && r[i] == free[Moved(free, t, b, i)])
            && r[k] == if TouchesDown(free, t, b) then Block(free[t].addr, free[t].units + JoinUp(free, t, b).units)
                       else JoinUp(free, t, b)
  {
    hide JoinUp, After;
    var m, rest := JoinUp(free, t, b), After(free, t, b);
    AfterAt(free, t, b, if Place(free, t, b) < i then i - Place(free, t, b) - 1 else 0);
    if TouchesDown(free, t, b) {
      ThreeAt(free[..t], Block(free[t].addr, free[t].units + m.units), rest, i);
    } else {
      ThreeAt(free[..t + 1], m, rest, i);
    }
  }

  lemma AfterAt(free: seq<Block>, t: nat, b: Block, j: nat)
    requires t < |free|
    ensures var d := if TouchesUp(free, t, b) then t + 2 else t + 1;
            |After(free, t, b)| == |free| - d && (j < |free| - d ==> After(free, t, b)[j] == free[d + j])
  {
  }

  lemma ThreeAt(a: seq<Block>, m: Block, rest: seq<Block>, i: nat)
    ensures var all := a + [m] + rest;
            && |all| == |a| + 1 + |rest| && all[|a|] == m
            && (i < |a| ==> all[i] == a[i]) && (|a| < i < |all| ==> all[i] == rest[i - |a| - 1])
  {
  }

  /** The successor of what stands at i. */
  lemma InsertNext(free: seq<Block>, t: nat, b: Block, i: nat)
    requires t < |free| && i < |Insert(free, t, b)|
    ensures NextAddr(Insert(free, t, b), i) ==
            if i == t < Place(free, t, b) then JoinUp(free, t, b).addr
            else if i < Place(free, t, b) then NextAddr(free, i)
            else NextAddr(free, Moved(free, t, b, i))
  {
    hide Insert, JoinUp;
    InsertIndex(free, t, b, i);
    InsertIndex(free, t, b, i + 1);
    InsertIndex(free, t, b, 0);
  }

  /** A block away from all free blocks and from b is away from the joined blocks. */
  lemma InsertDisjoint(free: seq<Block>, base: nat, t: nat, b: Block, x: Block)
    requires Spaced(free, base) && InGap(free, t, b) && DisjointFrom(x, free) && Disjoint(b, x) && x.units > 0
               && base < x.addr
    ensures DisjointFrom(x, Insert(free, t, b))
  {
    hide Spaced, Insert;
    assert Disjoint(JoinUp(free, t, b), x) by {
      if TouchesUp(free, t, b) { assert Disjoint(free[t + 1], x); }
    }
    assert Disjoint(free[t], x);
    hide InGap, JoinUp;
    var r := Insert(free, t, b);
    JoinedAt(free, base, t, b, 0);
    forall i | 0 <= i < |r|
      ensures Disjoint(r[i], x)
    {
      InsertIndex(free, t, b, i);
    }
  }

  /** The sizes that free() leaves, following its two tests; p precedes bp in the ring. */
  function SizesAfter(ptr: Field, size: Field, p: nat, bp: nat): Field
    requires p in ptr && p in size && bp in size && ptr[p] in size
  {
    var grown := if bp + size[bp] == ptr[p] then size[bp := size[bp] + size[ptr[p]]] else size;
    if p + grown[p] == bp then grown[p := grown[p] + grown[bp]] else grown
  }

  /** The links that free() leaves. */
  function LinksAfter(ptr: Field, size: Field, p: nat, bp: nat): Field
    requires p in ptr && p in size && bp in size && ptr[p] in ptr && p != bp
  {
    var linked := ptr[bp := if bp + size[bp] == ptr[p] then ptr[ptr[p]] else ptr[p]];
    linked[p := if p + size[p] == bp then linked[bp] else bp]
  }

  lemma GapFacts(ptr: Field, size: Field, free: seq<Block>, base: nat, t: nat, b: Block)
    requires Spaced(free, base) && InGap(free, t, b) && Linked(ptr, size, free) && b.addr in size
               && size[b.addr] == b.units
    ensures var p, bp := free[t].addr, b.addr;
            && p in ptr && p in size && size[p] == free[t].units && ptr[p] == NextAddr(free, t) && p != bp
                 && ptr[p] != bp
            && ptr[p] in ptr && ptr[p] in size
            && (bp + size[bp] == ptr[p] <==> TouchesUp(free, t, b))
            && (TouchesUp(free, t, b) ==> size[ptr[p]] == free[t + 1].units && ptr[ptr[p]] == NextAddr(free, t + 1))
            && (p + size[p] == bp <==> TouchesDown(free, t, b))
    ensures forall i :: 0 <= i < |free| ==> free[i].addr != b.addr
    ensures base <= free[t].addr
  {
    assert t > 0 ==> End(free[0]) < free[t].addr;
    assert LinkedAt(ptr, size, free, t);
    if t + 1 < |free| {
      assert LinkedAt(ptr, size, free, t + 1);
    } else {
      assert LinkedAt(ptr, size, free, 0);
    }
    forall i | 0 <= i < |free|
      ensures free[i].addr != b.addr
    {
      if i <= t { assert End(free[i]) <= b.addr; }
    }
  }

  /** The two headers that free() writes. */
  lemma TouchedLinks(ptr: Field, size: Field, free: seq<Block>, base: nat, t: nat, b: Block)
    requires Spaced(free, base) && InGap(free, t, b) && Linked(ptr, size, free) && b.addr in size
               && size[b.addr] == b.units
    requires var p := free[t].addr; p in ptr && p in size && ptr[p] in ptr && ptr[p] in size && p != b.addr
    ensures var p, bp, next := free[t].addr, b.addr, NextAddr(free, if TouchesUp(free, t, b) then t + 1 else t);
            var ptr', size' := LinksAfter(ptr, size, p, bp), SizesAfter(ptr, size, p, bp);
            && p in ptr' && p in size' && bp in ptr' && bp in size'
            && (TouchesDown(free, t, b) ==> ptr'[p] == next && size'[p] == free[t].units + JoinUp(free, t, b).units)
            && (!TouchesDown(free, t, b) ==> ptr'[p] == bp && size'[p] == free[t].units
                                             && ptr'[bp] == next && size'[bp] == JoinUp(free, t, b).units)
  {
    GapFacts(ptr, size, free, base, t, b);
    hide Spaced, InGap, Linked;
  }

  lemma InsertLinkedAt(ptr: Field, size: Field, free: seq<Block>, base: nat, t: nat, b: Block, i: nat)
    requires Spaced(free, base) && InGap(free, t, b) && Linked(ptr, size, free) && b.addr in size
               && size[b.addr] == b.units
    requires var p := free[t].addr; p in ptr && p in size && ptr[p] in ptr && ptr[p] in size && p != b.addr
    requires i < |Insert(free, t, b)|
    ensures LinkedAt(LinksAfter(ptr, size, free[t].addr, b.addr), SizesAfter(ptr, size, free[t].addr, b.addr),
                     Insert(free, t, b), i)
  {
    JoinedUp(free, base, t, b);
    hide Spaced, InGap, Linked, Insert, LinksAfter, SizesAfter, NextAddr, JoinUp;
    TouchedLinks(ptr, size, free, base, t, b);
    InsertIndex(free, t, b, i);
    InsertNext(free, t, b, i);
    var k := Place(free, t, b);
    if i > k {
      UntouchedLink(ptr, size, free, base, t, b, Moved(free, t, b, i));
    } else if i < t {
      UntouchedLink(ptr, size, free, base, t, b, i);
    }
  }

  /** Writing p's header and bp's header links the enlarged ring. */
  lemma InsertLinked(ptr: Field, size: Field, free: seq<Block>, base: nat, t: nat, b: Block)
    requires Spaced(free, base) && InGap(free, t, b) && Linked(ptr, size, free) && b.addr in size
               && size[b.addr] == b.units
    requires var p := free[t].addr; p in ptr && p in size && ptr[p] in ptr && ptr[p] in size && p != b.addr
    ensures Linked(LinksAfter(ptr, size, free[t].addr, b.addr), SizesAfter(ptr, size, free[t].addr, b.addr),
              Insert(free, t, b))
  {
    hide Spaced, Insert, LinksAfter, SizesAfter, LinkedAt;
    var r := Insert(free, t, b);
    forall i | 0 <= i < |r|
      ensures LinkedAt(LinksAfter(ptr, size, free[t].addr, b.addr), SizesAfter(ptr, size, free[t].addr, b.addr), r, i)
    {
      InsertLinkedAt(ptr, size, free, base, t, b, i);
    }
  }

  lemma UntouchedLink(ptr: Field, size: Field, free: seq<Block>, base: nat, t: nat, b: Block, i: nat)
    requires Spaced(free, base) && InGap(free, t, b) && Linked(ptr, size, free) && b.addr in size
               && size[b.addr] == b.units
    requires var p := free[t].addr; p in ptr && p in size && ptr[p] in ptr && ptr[p] in size && p != b.addr
    requires i < |free| && i != t
    ensures var ptr', size' := LinksAfter(ptr, size, free[t].addr, b.addr), SizesAfter(ptr, size, free[t].addr, b.addr);
            free[i].addr in ptr' && ptr'[free[i].addr] == NextAddr(free, i) && free[i].addr in size'
                && size'[free[i].addr] == free[i].units
  {
    GapFacts(ptr, size, free, base, t, b);
    assert LinkedAt(ptr, size, free, i);
    assert free[i].addr != free[t].addr by {
      if i < t { assert End(free[i]) < free[t].addr; } else { assert End(free[t]) < free[i].addr; }
    }
  }

  // ---------- Taking a block ----------

  ghost function Pred(n: nat, i: nat): nat
    requires i < n
  {
    if i == 0 then n - 1 else i - 1
  }

  ghost function Without(free: seq<Block>, i: nat): seq<Block>
    requires i < |free|
  {
    free[..i] + free[i + 1..]
  }

  lemma WithoutUnits(free: seq<Block>, i: nat)
    requires i < |free|
    ensures Units(free) == Units(Without(free, i)) + free[i].units
  {
    hide Units;
    UnitsAround(free, i);
    UnitsSplit(free[..i], free[i + 1..]);
  }

  lemma WithoutSpaced(free: seq<Block>, base: nat, i: nat)
    requires Spaced(free, base) && 1 <= i < |free|
    ensures Spaced(Without(free, i), base)
  {
    var free' := Without(free, i);
    forall j, k | 0 <= j < k < |free'|
      ensures End(free'[j]) < free'[k].addr
    {
      assert free'[j] == free[if j < i then j else j + 1] && free'[k] == free[if k < i then k else k + 1];
    }
  }

  lemma WithoutLinked(ptr: Field, size: Field, free: seq<Block>, base: nat, i: nat)
    requires Spaced(free, base) && Linked(ptr, size, free) && 1 <= i < |free|
    requires free[i].addr in ptr
    ensures Linked(ptr[free[i - 1].addr := ptr[free[i].addr]], size, Without(free, i))
  {
    var free' := Without(free, i);
    var ptr' := ptr[free[i - 1].addr := ptr[free[i].addr]];
    assert LinkedAt(ptr, size, free, i);
    forall k | 0 <= k < |free'|
      ensures LinkedAt(ptr', size, free', k)
    {
      var j := if k < i then k else k + 1;
      assert free'[k] == free[j];
      assert LinkedAt(ptr, size, free, j);
      if j < i - 1 { assert End(free[j]) < free[i - 1].addr; }
      if j > i { assert End(free[i - 1]) < free[j].addr; }
    }
  }

  /** A free block cut down to its first `left` units. */
  ghost function Cut(free: seq<Block>, i: nat, left: nat): seq<Block>
    requires i < |free|
  {
    free[i := Block(free[i].addr, left)]
  }

  lemma CutUnits(free: seq<Block>, i: nat, left: nat)
    requires i < |free| && left <= free[i].units
    ensures Units(free) == Units(Cut(free, i, left)) + free[i].units - left
  {
    hide Units;
    var free' := Cut(free, i, left);
    UnitsAround(free, i);
    UnitsAround(free', i);
    assert free'[..i] == free[..i] && free'[i + 1..] == free[i + 1..];
  }

  lemma CutSpaced(free: seq<Block>, base: nat, i: nat, left: nat)
    requires Spaced(free, base) && 1 <= i < |free| && 0 < left < free[i].units
    ensures Spaced(Cut(free, i, left), base)
    ensures DisjointFrom(Block(free[i].addr + left, free[i].units - left), Cut(free, i, left))
  {
    var free' := Cut(free, i, left);
    forall j, k | 0 <= j < k < |free'|
      ensures End(free'[j]) < free'[k].addr
    {
      assert End(free[j]) < free[k].addr;
    }
    forall k | 0 <= k < |free'|
      ensures Disjoint(free'[k], Block(free[i].addr + left, free[i].units - left))
    {
      if k < i { assert End(free[k]) < free[i].addr; }
      if k > i { assert End(free[i]) < free[k].addr; }
    }
  }

  lemma CutNext(free: seq<Block>, i: nat, left: nat, k: nat)
    requires i < |free| && k < |free|
    ensures NextAddr(Cut(free, i, left), k) == NextAddr(free, k)
    ensures Cut(free, i, left)[k] == if k == i then Block(free[k].addr, left) else free[k]
  {
  }

  lemma CutLinked(ptr: Field, size: Field, free: seq<Block>, base: nat, i: nat, left: nat)
    requires Spaced(free, base) && Linked(ptr, size, free) && 1 <= i < |free| && 0 < left < free[i].units
    ensures Linked(ptr, size[free[i].addr := left][free[i].addr + left := free[i].units - left], Cut(free, i, left))
  {
    hide Cut, NextAddr, Spaced;
    var size' := size[free[i].addr := left][free[i].addr + left := free[i].units - left];
    CutNext(free, i, left, i);
    forall k | 0 <= k < |Cut(free, i, left)|
      ensures LinkedAt(ptr, size', Cut(free, i, left), k)
    {
      CutLength(free, i, left);
      assert LinkedAt(ptr, size, free, k);
      CutNext(free, i, left, k);
      InOrder(free, base, k, i);
    }
  }

  lemma CutLength(free: seq<Block>, i: nat, left: nat)
    requires i < |free|
    ensures |Cut(free, i, left)| == |free|
  {
  }

  lemma GapUnique(free: seq<Block>, t: nat, u: nat, b: Block)
    requires InGap(free, t, b) && InGap(free, u, b)
    ensures t == u
  {
    var x, y := free[t], free[u];
    assert t < u ==> End(b) <= y.addr;
    assert u < t ==> End(b) <= x.addr;
  }

  lemma CutGap(free: seq<Block>, base: nat, i: nat, left: nat, b: Block)
    requires Spaced(free, base) && 1 <= i < |free| && 0 < left < free[i].units
    requires b == Block(free[i].addr + left, free[i].units - left)
    ensures var cut := Cut(free, i, left); InGap(cut, i, b) && TouchesDown(cut, i, b) && !TouchesUp(cut, i, b)
  {
    var cut := Cut(free, i, left);
    forall j | 0 <= j < |cut| ensures j <= i ==> End(cut[j]) <= b.addr ensures j > i ==> End(b) < cut[j].addr {
      if j < i { assert End(free[j]) < free[i].addr; }
      if j > i { assert End(free[i]) < free[j].addr; }
    }
    assert End(free[0]) < free[i].addr;
  }

  /** Freeing the tail that malloc cut off restores the free blocks exactly. */
  lemma FreeUndoesCut(free: seq<Block>, base: nat, i: nat, left: nat, t: nat)
    requires Spaced(free, base) && 1 <= i < |free| && 0 < left < free[i].units
    requires InGap(Cut(free, i, left), t, Block(free[i].addr + left, free[i].units - left))
    ensures Insert(Cut(free, i, left), t, Block(free[i].addr + left, free[i].units - left)) == free
  {
    var cut, b := Cut(free, i, left), Block(free[i].addr + left, free[i].units - left);
    CutGap(free, base, i, left, b);
    GapUnique(cut, t, i, b);
    hide Spaced, InGap;
    assert cut[..i] + [free[i]] + cut[i + 1..] == free;
  }

  /** So does freeing a block that malloc took whole. */
  lemma FreeUndoesTake(free: seq<Block>, base: nat, i: nat, t: nat)
    requires Spaced(free, base) && 1 <= i < |free| && InGap(Without(free, i), t, free[i])
    ensures Insert(Without(free, i), t, free[i]) == free
  {
    hide Spaced, InGap, Insert, Without, TouchesUp, TouchesDown, JoinUp;
    WithoutAt(free, i, 0);
    var less := Without(free, i);
    WithoutGap(free, base, i);
    GapUnique(less, t, i - 1, free[i]);
    var r := Insert(less, t, free[i]);
    Untouched(less, t, free[i]);
    InsertIndex(less, t, free[i], i);
    forall k | 0 <= k < |free|
      ensures r[k] == free[k]
    {
      InsertIndex(less, t, free[i], k);
      WithoutAt(free, i, k);
    }
  }

  lemma Untouched(free: seq<Block>, t: nat, b: Block)
    requires !TouchesUp(free, t, b)
    ensures JoinUp(free, t, b) == b
  {
  }

  lemma WithoutAt(free: seq<Block>, i: nat, k: nat)
    requires i < |free| && k < |free|
    ensures |Without(free, i)| == |free| - 1
    ensures k < i ==> Without(free, i)[k] == free[k]
    ensures k > i ==> Without(free, i)[k - 1] == free[k]
  {
  }

  lemma WithoutGap(free: seq<Block>, base: nat, i: nat)
    requires Spaced(free, base) && 1 <= i < |free|
    ensures InGap(Without(free, i), i - 1, free[i])
    ensures !TouchesDown(Without(free, i), i - 1, free[i]) && !TouchesUp(Without(free, i), i - 1, free[i])
  {
    hide Without, Spaced, InGap;
    WithoutAt(free, i, 0);
    forall k | 0 <= k < |free| && k != i
      ensures Without(free, i)[if k < i then k else k - 1] == free[k]
    {
      WithoutAt(free, i, k);
    }
    LeavesGap(free, base, i, Without(free, i));
  }

  lemma LeavesGap(free: seq<Block>, base: nat, i: nat, less: seq<Block>)
    requires Spaced(free, base) && 1 <= i < |free| && |less| == |free| - 1
    requires forall k :: 0 <= k < |free| && k != i ==> less[if k < i then k else k - 1] == free[k]
    ensures InGap(less, i - 1, free[i]) && !TouchesDown(less, i - 1, free[i]) && !TouchesUp(less, i - 1, free[i])
  {
    hide Spaced;
    InOrder(free, base, 0, i);
    forall j {:trigger less[j]} | 0 <= j < |less|
      ensures j < i ==> less[j] == free[j] && End(less[j]) < free[i].addr
      ensures j >= i ==> End(free[i]) < less[j].addr
    {
      var k := if j < i then j else j + 1;
      assert free[k] == less[if k < i then k else k - 1];
      InOrder(free, base, k, i);
    }
    Positive(free, base, i);
  }

  lemma Positive(free: seq<Block>, base: nat, i: nat)
    requires Spaced(free, base) && 1 <= i < |free|
    ensures free[i].units > 0
  {
  }

  // ---------- Going round the ring ----------

  /** The k-th node visited when starting after node f of a ring of n. */
  ghost function Visit(n: nat, f: nat, k: nat): (i: nat)
    requires f < n && k < n
    ensures i < n && (i == f <==> k == n - 1)
  {
    if f + 1 + k < n then f + 1 + k else f + 1 + k - n
  }

  lemma VisitsAll(n: nat, f: nat, i: nat) returns (k: nat)
    requires f < n && i < n
    ensures k < n && Visit(n, f, k) == i
  {
    k := if i > f then i - f - 1 else i - f - 1 + n;
  }

  function UnitsFor(nbytes: nat): nat { (nbytes + HEADER - 1) / HEADER + 1 }

  /** The units asked for are the fewest that hold the header and the bytes. */
  lemma UnitsExact(nbytes: nat)
    ensures (UnitsFor(nbytes) - 1) * HEADER >= nbytes && (nbytes > 0 ==> (UnitsFor(nbytes) - 2) * HEADER < nbytes)
    ensures UnitsFor(0) == 1
  {
  }

  /** The argument of sbrk is an int: the request survives the conversion exactly up to this size. */
  lemma RequestFitsInt(nbytes: nat)
    ensures UnitsFor(nbytes) * HEADER <= 0x7FFF_FFFF <==> nbytes <= 0x7FFF_FFE0
  {
  }

  /** What sbrk answers: an address, or -1. */
  datatype Grant = Refused | Granted(addr: nat)

  ghost predicate Fresh(b: Block, free: seq<Block>, live: seq<Block>, base: nat) {
    base < b.addr && b.units > 0 && DisjointFrom(b, free) && DisjointFrom(b, live)
  }

  lemma LiveAfterFree(size: Field, size': Field, live: seq<Block>, base: nat, free: seq<Block>, t: nat, b: Block)
    requires Spaced(free, base) && t < |free| && Live(size, live, base) && Apart(free, live) && DisjointFrom(b, live)
               && b.units > 0
    requires forall a :: a in size ==> a in size' && (a != free[t].addr && a != b.addr ==> size'[a] == size[a])
    ensures Live(size', live, base)
  {
    forall i | 0 <= i < |live|
      ensures live[i].addr in size' && size'[live[i].addr] == live[i].units
    {
      assert Disjoint(live[i], b) && DisjointFrom(live[i], free);
      assert Disjoint(free[t], live[i]);
      assert t >= 1 ==> free[t].units > 0;
    }
  }

  lemma ApartAfterFree(free: seq<Block>, base: nat, t: nat, b: Block, live: seq<Block>)
    requires Spaced(free, base) && InGap(free, t, b) && Apart(free, live) && DisjointFrom(b, live)
    requires forall i :: 0 <= i < |live| ==> live[i].units > 0 && base < live[i].addr
    ensures Apart(Insert(free, t, b), live)
  {
    forall j | 0 <= j < |live|
      ensures DisjointFrom(live[j], Insert(free, t, b))
    {
      InsertDisjoint(free, base, t, b, live[j]);
    }
  }

  lemma LiveStrict(size: Field, live: seq<Block>, base: nat)
    requires Live(size, live, base)
    ensures forall i :: 0 <= i < |live| ==> live[i].units > 0 && base < live[i].addr
  {
  }

  lemma FreepStays(free: seq<Block>, t: nat, b: Block)
    requires t < |free|
    ensures t < |Insert(free, t, b)| && Insert(free, t, b)[t].addr == free[t].addr
  {
  }

  /** A block handed out can be given back, and the others stay as they are. */
  lemma FreshAgain(size: Field, free: seq<Block>, live: seq<Block>, base: nat, k: nat)
    requires Live(size, live, base) && Apart(free, live) && k < |live|
    ensures var rest := live[..k] + live[k + 1..];
            Live(size, rest, base) && Apart(free, rest) && Fresh(live[k], free, rest, base)
  {
    var rest := live[..k] + live[k + 1..];
    forall i | 0 <= i < |rest|
      ensures rest[i] == live[if i < k then i else i + 1] && Disjoint(rest[i], live[k])
    {
    }
    assert DisjointFrom(live[k], free);
    forall i, j | 0 <= i < j < |rest|
      ensures Disjoint(rest[i], rest[j])
    {
      assert rest[i] == live[if i < k then i else i + 1] && rest[j] == live[if j < k then j else j + 1];
    }
    forall j | 0 <= j < |rest|
      ensures DisjointFrom(rest[j], free)
    {
      assert rest[j] == live[if j < k then j else j + 1];
    }
  }

  function AskFor(nu: nat): nat { if nu < MINUNITS then MINUNITS else nu }

  /** Writing the header of a fresh region disturbs no other header. */
  lemma StoreSize(ptr: Field, size: Field, free: seq<Block>, live: seq<Block>, base: nat, b: Block)
    requires Spaced(free, base) && Linked(ptr, size, free) && Live(size, live, base) && Fresh(b, free, live, base)
    ensures Linked(ptr, size[b.addr := b.units], free) && Live(size[b.addr := b.units], live, base)
  {
    var size' := size[b.addr := b.units];
    forall i | 0 <= i < |free|
      ensures LinkedAt(ptr, size', free, i)
    {
      assert LinkedAt(ptr, size, free, i) && Disjoint(free[i], b);
    }
    forall i | 0 <= i < |live|
      ensures size'[live[i].addr] == live[i].units
    {
      assert Disjoint(live[i], b);
    }
  }

  lemma PayloadOnly(ptr: Field, size: Field, free: seq<Block>, live: seq<Block>, base: nat, k: nat, a: nat, link: nat,
                    units: nat)
    requires Spaced(free, base) && Linked(ptr, size, free) && Live(size, live, base) && Apart(free, live)
    requires k < |live| && live[k].addr < a < End(live[k])
    ensures Linked(ptr[a := link], size[a := units], free) && Live(size[a := units], live, base)
  {
    var ptr', size' := ptr[a := link], size[a := units];
    forall i | 0 <= i < |free|
      ensures LinkedAt(ptr', size', free, i)
    {
      assert LinkedAt(ptr, size, free, i) && DisjointFrom(live[k], free);
      assert Disjoint(free[i], live[k]);
    }
    forall i | 0 <= i < |live|
      ensures size'[live[i].addr] == live[i].units
    {
      assert i < k ==> Disjoint(live[i], live[k]);
      assert i > k ==> Disjoint(live[k], live[i]);
    }
  }

  lemma InsertFits(free: seq<Block>, t: nat, b: Block)
    requires t < |free|
    ensures exists i :: 0 <= i < |Insert(free, t, b)| && Insert(free, t, b)[i].units >= b.units
  {
    assert Insert(free, t, b)[if TouchesDown(free, t, b) then t else t + 1].units >= b.units;
  }

  lemma TakenLive(size: Field, size': Field, free: seq<Block>, live: seq<Block>, base: nat, i: nat, q: Block)
    requires Spaced(free, base) && Live(size, live, base) && Apart(free, live) && 1 <= i < |free|
    requires q.units > 0 && free[i].addr <= q.addr && End(q) == End(free[i]) && q.addr in size'
               && size'[q.addr] == q.units
    requires forall a :: a in size && !(free[i].addr <= a < End(free[i])) ==> a in size' && size'[a] == size[a]
    ensures Live(size', live + [q], base)
  {
    forall j | 0 <= j < |live|
      ensures Disjoint(live[j], q) && live[j].addr in size' && size'[live[j].addr] == live[j].units
    {
      assert DisjointFrom(live[j], free);
      assert Disjoint(free[i], live[j]);
    }
    assert End(free[0]) < free[i].addr;
  }

  lemma WithoutApart(free: seq<Block>, base: nat, live: seq<Block>, i: nat)
    requires Spaced(free, base) && Apart(free, live) && 1 <= i < |free|
    ensures Apart(Without(free, i), live + [free[i]])
  {
    var free', live' := Without(free, i), live + [free[i]];
    forall j, k | 0 <= j < |live'| && 0 <= k < |free'|
      ensures Disjoint(free'[k], live'[j])
    {
      var m := if k < i then k else k + 1;
      assert free'[k] == free[m];
      if j < |live| {
        assert DisjointFrom(live[j], free);
      } else {
        assert m < i ==> End(free[m]) < free[i].addr;
        assert m > i ==> End(free[i]) < free[m].addr;
      }
    }
  }

  lemma CutApart(free: seq<Block>, base: nat, live: seq<Block>, i: nat, left: nat)
    requires Spaced(free, base) && Apart(free, live) && 1 <= i < |free| && 0 < left < free[i].units
    ensures Apart(Cut(free, i, left), live + [Block(free[i].addr + left, free[i].units - left)])
  {
    var free', q := Cut(free, i, left), Block(free[i].addr + left, free[i].units - left);
    CutSpaced(free, base, i, left);
    forall j | 0 <= j < |live|
      ensures DisjointFrom(live[j], free')
    {
      assert DisjointFrom(live[j], free);
      forall k | 0 <= k < |free'|
        ensures Disjoint(free'[k], live[j])
      {
        assert Disjoint(free[k], live[j]);
      }
    }
  }

  /** Every part of the invariant after the tail of block i has been handed out. */
  lemma TailTaken(ptr: Field, size: Field, free: seq<Block>, live: seq<Block>, base: nat, i: nat, left: nat)
    requires Spaced(free, base) && Linked(ptr, size, free) && Live(size, live, base) && Apart(free, live)
    requires 1 <= i < |free| && 0 < left < free[i].units
    ensures var q := Block(free[i].addr + left, free[i].units - left);
            var size', free', live' := size[free[i].addr := left][q.addr := q.units], Cut(free, i, left), live + [q];
            && Spaced(free', base) && Linked(ptr, size', free') && Live(size', live', base) && Apart(free', live')
            && Units(free') + Units(live') == Units(free) + Units(live)
  {
    hide Units, Live, Apart, Spaced, Cut, Linked;
    var q := Block(free[i].addr + left, free[i].units - left);
    CutLinked(ptr, size, free, base, i, left);
    CutSpaced(free, base, i, left);
    CutUnits(free, i, left);
    CutApart(free, base, live, i, left);
    TakenLive(size, size[free[i].addr := left][q.addr := q.units], free, live, base, i, q);
    UnitsSplit(live, [q]);
    UnitsOne(q);
  }

  lemma HeaderAt(ptr: Field, size: Field, free: seq<Block>, i: nat)
    requires Linked(ptr, size, free) && i < |free|
    ensures free[i].addr in size && size[free[i].addr] == free[i].units
  {
    assert LinkedAt(ptr, size, free, i);
  }

  /** The search stands at the k-th node after freep, prevp one before it. */
  ghost predicate Cursor(free: seq<Block>, f: nat, k: nat, p: nat, prevp: nat) {
    && f < |free| && k < |free|
    && p == free[Visit(|free|, f, k)].addr && prevp == free[Pred(|free|, Visit(|free|, f, k))].addr
  }

  /** None of the first k nodes was big enough. */
  ghost predicate Missed(free: seq<Block>, f: nat, k: nat, n: nat) {
    f < |free| && k <= |free| && forall j :: 0 <= j < k ==> free[Visit(|free|, f, j)].units < n
  }

  /** One of the nodes from the k-th on is big enough. */
  ghost predicate Ahead(free: seq<Block>, f: nat, k: nat, n: nat) {
    f < |free| && exists j :: k <= j < |free| && free[Visit(|free|, f, j)].units >= n
  }

  /** Block i is the first from freep on, in the order of the ring, that has n units. */
  ghost predicate NextFit(free: seq<Block>, freep: nat, n: nat, i: nat) {
    exists f: nat, k: nat :: f < |free| && free[f].addr == freep && FitsAfter(free, f, k, n, i)
  }

  ghost predicate FitsAfter(free: seq<Block>, f: nat, k: nat, n: nat, i: nat)
    requires f < |free|
  {
    k < |free| && i == Visit(|free|, f, k) && Missed(free, f, k, n) && free[i].units >= n
  }

  /** What is left and where the next search starts when the end of block i has been handed out at r. */
  ghost predicate Served(was: seq<Block>, free: seq<Block>, freep: nat, i: nat, n: nat, r: nat) {
    && 1 <= i < |was| && n <= was[i].units && r + n == End(was[i]) && freep == was[i - 1].addr
    && free == if was[i].units == n then Without(was, i) else Cut(was, i, was[i].units - n)
  }

  lemma NoFit(was: seq<Block>, free: seq<Block>, n: nat, freep: nat)
    requires forall j :: 0 <= j < |free| ==> free[j].units < n
    requires if freep == 0 then was == [] else was == free
    ensures !SomeFits(was, n)
  {
  }

  /** Some free block has n units. */
  ghost predicate SomeFits(free: seq<Block>, n: nat) { exists i :: 0 <= i < |free| && free[i].units >= n }

  lemma FoundFit(free: seq<Block>, freep: nat, f: nat, k: nat, n: nat, i: nat)
    requires f < |free| && free[f].addr == freep && k < |free| && i == Visit(|free|, f, k) && Missed(free, f, k, n)
    requires free[i].units >= n
    ensures NextFit(free, freep, n, i) && SomeFits(free, n)
  {
    assert FitsAfter(free, f, k, n, i);
  }

  lemma CursorStart(ptr: Field, size: Field, free: seq<Block>, f: nat)
    requires Linked(ptr, size, free) && f < |free|
    ensures free[f].addr in ptr && Cursor(free, f, 0, ptr[free[f].addr], free[f].addr)
  {
    assert LinkedAt(ptr, size, free, f);
  }

  lemma NothingMissed(free: seq<Block>, f: nat, n: nat)
    requires f < |free|
    ensures Missed(free, f, 0, n)
  {
  }

  lemma AllAhead(free: seq<Block>, f: nat, n: nat)
    requires f < |free| && exists i :: 0 <= i < |free| && free[i].units >= n
    ensures Ahead(free, f, 0, n)
  {
    var i :| 0 <= i < |free| && free[i].units >= n;
    var k := VisitsAll(|free|, f, i);
  }

  lemma CursorHere(ptr: Field, size: Field, free: seq<Block>, base: nat, f: nat, k: nat, p: nat, prevp: nat)
    requires Spaced(free, base) && Linked(ptr, size, free) && Cursor(free, f, k, p, prevp)
    ensures var i := Visit(|free|, f, k);
      && i < |free| && p == free[i].addr && p in ptr && p in size && size[p] == free[i].units
      && (free[i].units > 0 ==> 1 <= i && prevp == free[i - 1].addr)
      && (p == free[f].addr ==> i == f)
    ensures p != free[f].addr ==> k + 1 < |free| && Cursor(free, f, k + 1, ptr[p], p)
  {
    var i := Visit(|free|, f, k);
    assert LinkedAt(ptr, size, free, i);
    if p == free[f].addr {
      SameNode(free, base, i, f);
    } else {
      assert Visit(|free|, f, k + 1) == if i + 1 < |free| then i + 1 else 0;
    }
  }

  /** The node just looked at was too small. */
  lemma MissedOneMore(free: seq<Block>, f: nat, k: nat, n: nat)
    requires f < |free| && k < |free| && Missed(free, f, k, n) && free[Visit(|free|, f, k)].units < n
    ensures Missed(free, f, k + 1, n)
    ensures Visit(|free|, f, k) == f ==> forall j :: 0 <= j < |free| ==> free[j].units < n
  {
    if Visit(|free|, f, k) == f {
      forall j | 0 <= j < |free| ensures free[j].units < n { var v := VisitsAll(|free|, f, j); }
    }
  }

  lemma StillAhead(free: seq<Block>, f: nat, k: nat, n: nat)
    requires k < |free| && Ahead(free, f, k, n) && free[Visit(|free|, f, k)].units < n
    ensures Ahead(free, f, k + 1, n) && Visit(|free|, f, k) != f
  {
    var j :| k <= j < |free| && free[Visit(|free|, f, j)].units >= n;
    assert j != k;
  }

  /** What malloc's loop body may rely on and how it leaves the node behind. */
  lemma CursorNode(ptr: Field, size: Field, free: seq<Block>, base: nat, f: nat, k: nat, p: nat, prevp: nat, n: nat)
    returns (i: nat)
    requires Spaced(free, base) && Linked(ptr, size, free) && Cursor(free, f, k, p, prevp) && n > 0
    ensures i < |free| && k < |free| && p == free[i].addr && p in ptr && p in size && size[p] == free[i].units
    ensures f < |free| && i == Visit(|free|, f, k)
    ensures size[p] >= n ==> 1 <= i && prevp == free[i - 1].addr && exists j :: 0 <= j < |free| && free[j].units >= n
    ensures p != free[f].addr ==> k + 1 < |free| && Cursor(free, f, k + 1, ptr[p], p)
    ensures size[p] < n && Missed(free, f, k, n) && p != free[f].addr ==> Missed(free, f, k + 1, n)
    ensures size[p] < n && Ahead(free, f, k, n) ==> p != free[f].addr && Ahead(free, f, k + 1, n)
    ensures size[p] < n && Missed(free, f, k, n) && p == free[f].addr ==> forall j :: 0 <= j < |free| ==>
              free[j].units < n
  {
    CursorHere(ptr, size, free, base, f, k, p, prevp);
    hide Missed, Ahead, Visit, Spaced, Linked;
    i := Visit(|free|, f, k);
    if size[p] < n && Missed(free, f, k, n) { MissedOneMore(free, f, k, n); }
    if size[p] < n && Ahead(free, f, k, n) { StillAhead(free, f, k, n); }
  }

  lemma SameNode(free: seq<Block>, base: nat, i: nat, f: nat)
    requires Spaced(free, base) && i < |free| && f < |free| && free[i].addr == free[f].addr
    ensures i == f
  {
  }

  class Heap {
    /** The static header; the heap lies beyond it. */
    const base: nat
    var ptr: Field
    var size: Field
    /** 0 until the first malloc. */
    var freep: nat
    ghost var free: seq<Block>
    ghost var live: seq<Block>
    /** Units obtained from sbrk so far. */
    ghost var obtained: nat

    ghost predicate Started()
      reads this
    {
      && Spaced(free, base) && Linked(ptr, size, free)
      && Live(size, live, base) && Apart(free, live)
      && (exists f :: 0 <= f < |free| && free[f].addr == freep)
      && Units(free) + Units(live) == obtained
    }

    ghost predicate Valid()
      reads this
    {
      base > 0 && if freep == 0 then free == [] && live == [] && obtained == 0 else Started()
    }

    constructor (base: nat)
      requires base > 0
      ensures Valid() && freep == 0
    {
      this.base := base;
      ptr, size, freep := map[], map[], 0;
      free, live, obtained := [], [], 0;
    }

    /** The search loop of free(): p is the free block that bp belongs after. */
    method FindPlace(bp: nat, ghost b: Block) returns (p: nat, ghost t: nat)
      requires Spaced(free, base) && Linked(ptr, size, free) && exists f :: 0 <= f < |free| && free[f].addr == freep
      requires b.addr == bp && base < bp && b.units > 0 && DisjointFrom(b, free)
      ensures InGap(free, t, b) && p == free[t].addr
    {
      t := FindGap(free, base, b, |free| - 1);
      p := freep;
      ghost var i :| 0 <= i < |free| && free[i].addr == freep;
      assert LinkedAt(ptr, size, free, i);
      while !(bp > p && bp < ptr[p])
        invariant 0 <= i < |free| && p == free[i].addr && LinkedAt(ptr, size, free, i)
        decreases if i <= t then t - i else t + |free| - i
      {
        if p >= ptr[p] && (bp > p || bp < ptr[p]) {
          break;
        }
        p := ptr[p];
        i := if i + 1 < |free| then i + 1 else 0;
        assert LinkedAt(ptr, size, free, i);
      }
      assert i == t;
    }

    /** The two tests of free(), each with its header updates. */
    method Join(p: nat, bp: nat)
      requires p in ptr && p in size && bp in size && p != bp && ptr[p] in ptr && ptr[p] in size && ptr[p] != bp
      modifies this`ptr, this`size, this`freep
      ensures ptr == LinksAfter(old(ptr), old(size), p, bp)
      ensures size == SizesAfter(old(ptr), old(size), p, bp)
      ensures forall a :: a in old(size) ==> a in size && (a != p && a != bp ==> size[a] == old(size)[a])
      ensures freep == p
    {
      if bp + size[bp] == ptr[p] {
        size := size[bp := size[bp] + size[ptr[p]]];
        ptr := ptr[bp := ptr[ptr[p]]];
      } else {
        ptr := ptr[bp := ptr[p]];
      }
      if p + size[p] == bp {
        size := size[p := size[p] + size[bp]];
        ptr := ptr[p := ptr[bp]];
      } else {
        ptr := ptr[p := bp];
      }
      freep := p;
    }

    /** free() of the block with header bp, whoever it came from. */
    method Release(bp: nat, ghost b: Block) returns (ghost t: nat)
      requires Started() && b.addr == bp && Fresh(b, free, live, base) && bp in size && size[bp] == b.units
      modifies this`ptr, this`size, this`freep, this`free, this`obtained
      ensures Started() && obtained == old(obtained) + b.units && base <= freep
      ensures InGap(old(free), t, b) && free == Insert(old(free), t, b) && freep == old(free)[t].addr
    {
      hide Units, Insert, Live, Apart, Linked, Spaced;
      var p;
      p, t := FindPlace(bp, b);
      GapFacts(ptr, size, free, base, t, b);
      ghost var size0, free0 := size, free;
      InsertLinked(ptr, size, free, base, t, b);
      InsertSpaced(free, base, t, b);
      InsertUnits(free, t, b);
      LiveStrict(size, live, base);
      ApartAfterFree(free, base, t, b, live);

      Join(p, bp);
      free := Insert(free, t, b);
      obtained := obtained + b.units;
      LiveAfterFree(size0, size, live, base, free0, t, b);
      FreepStays(free0, t, b);
    }

    /** free(ap), for the k-th block handed out. */
    method Free(ap: nat, ghost k: nat)
      requires Valid() && k < |live| && ap == live[k].addr + 1
      modifies this
      ensures Valid() && obtained == old(obtained)
      ensures live == old(live)[..k] + old(live)[k + 1..]
      ensures exists t: nat :: InGap(old(free), t, old(live)[k]) && free == Insert(old(free), t, old(live)[k])
                && freep == old(free)[t].addr
    {
      hide Units, Insert, Linked, Spaced;
      ghost var b, rest := live[k], live[..k] + live[k + 1..];
      FreshAgain(size, free, live, base, k);
      WithoutUnits(live, k);
      live, obtained := rest, obtained - b.units;
      ghost var t := Release(ap - 1, b);
      assert InGap(old(free), t, old(live)[k]);
    }

    /** morecore: asks sbrk for at least nu units and frees what it gets. */
    method Morecore(nu: nat, grant: Grant) returns (p: nat)
      requires Started() && base > 0 && nu > 0
      requires grant.Granted? ==> Fresh(Block(grant.addr, AskFor(nu)), free, live, base)
      modifies this`ptr, this`size, this`freep, this`free, this`obtained
      ensures Started()
      ensures grant.Refused? ==> p == 0 && free == old(free) && obtained == old(obtained) && freep == old(freep)
      ensures grant.Granted? ==> p == freep && p > 0 && obtained == old(obtained) + if nu < 4096 then 4096 else nu
      ensures grant.Granted? ==> exists i :: 0 <= i < |free| && free[i].units >= nu
    {
      var ask := nu;
      if ask < MINUNITS {
        ask := MINUNITS;
      }
      if grant.Refused? {
        return 0;
      }
      ghost var b := Block(grant.addr, ask);
      StoreSize(ptr, size, free, live, base, b);
      size := size[grant.addr := ask];
      ghost var t := Release(grant.addr, b);
      InsertFits(old(free), t, b);
      return freep;
    }

    /** A block of exactly the size asked for leaves the ring. */
    method TakeWhole(prevp: nat, p: nat, ghost i: nat)
      requires Started() && 1 <= i < |free| && p == free[i].addr && prevp == free[i - 1].addr && base > 0
      modifies this
      ensures Started() && freep == prevp && freep > 0 && obtained == old(obtained)
      ensures live == old(live) + [Block(p, old(free)[i].units)] && free == Without(old(free), i)
    {
      hide Units, Live, Apart;
      ghost var b := free[i];
      assert LinkedAt(ptr, size, free, i) && LinkedAt(ptr, size, free, i - 1);
      assert base <= prevp by { assert i > 1 ==> End(free[0]) < free[i - 1].addr; }
      WithoutLinked(ptr, size, free, base, i);
      WithoutSpaced(free, base, i);
      WithoutUnits(free, i);
      TakenLive(size, size, free, live, base, i, b);
      WithoutApart(free, base, live, i);
      UnitsSplit(live, [b]);
      UnitsOne(b);
      ptr := ptr[prevp := ptr[p]];
      free, live := Without(free, i), live + [b];
      assert free[i - 1].addr == prevp;
      freep := prevp;
    }

    /** A larger block keeps its head; the tail is handed out. */
    method TakeTail(prevp: nat, p: nat, n: nat, ghost i: nat) returns (q: nat)
      requires Started() && 1 <= i < |free| && p == free[i].addr && prevp == free[i - 1].addr && 0 < n < free[i].units
                 && base > 0
      modifies this
      ensures Started() && freep == prevp && freep > 0 && obtained == old(obtained)
      ensures live == old(live) + [Block(q, n)] && free == Cut(old(free), i, old(free)[i].units - n)
      ensures q + n == End(old(free)[i])
    {
      hide Units, Live, Apart, Spaced, Cut, Linked;
      ghost var left := free[i].units - n;
      HeaderAt(ptr, size, free, i);
      StartsAtBase(free, base);
      InOrder(free, base, 0, i - 1);
      TailTaken(ptr, size, free, live, base, i, left);
      CutLength(free, i, left);
      CutNext(free, i, left, i - 1);
      size := size[p := size[p] - n];
      q := p + size[p];
      size := size[q := n];
      free, live := Cut(free, i, left), live + [Block(q, n)];
      freep := prevp;
      assert free[i - 1].addr == freep;
    }

    /** The program may store anything beyond the header of a block it was handed. */
    method Scribble(a: nat, link: nat, units: nat, ghost k: nat)
      requires Valid() && k < |live| && live[k].addr < a < End(live[k])
      modifies this`ptr, this`size
      ensures Valid()
    {
      hide Units;
      PayloadOnly(ptr, size, free, live, base, k, a, link, units);
      ptr := ptr[a := link];
      size := size[a := units];
    }

    /** The static header becomes the whole ring. */
    method Begin()
      requires Valid() && freep == 0
      modifies this
      ensures Started() && freep == base && live == [] && obtained == 0 && free == [Block(base, 0)]
    {
      ptr := ptr[base := base];
      size := size[base := 0];
      freep := base;
      free := [Block(base, 0)];
      UnitsOne(Block(base, 0));
    }

    /** A block that is big enough has been found: its last n units are handed out. */
    method Take(prevp: nat, p: nat, n: nat, ghost i: nat) returns (q: nat)
      requires Started() && 1 <= i < |free| && p == free[i].addr && prevp == free[i - 1].addr && base > 0
      requires 0 < n <= free[i].units && p in size && size[p] == free[i].units
      modifies this
      ensures Started() && freep > 0 && obtained == old(obtained) && live == old(live) + [Block(q, n)]
      ensures Served(old(free), free, freep, i, n, q)
    {
      hide Units, Live, Apart, Linked, Spaced, Without, Cut;
      if size[p] == n {
        TakeWhole(prevp, p, i);
        q := p;
      } else {
        q := TakeTail(prevp, p, n, i);
      }
    }

    /**
     malloc: 0 stands for NULL.  The two search loops end, and sbrk is asked at most
     once (its one answer is a parameter), when no block is big enough.  A block of the
     fewest units that hold the header and the bytes is handed out, the end of the first
     one from freep on that is big enough, or nothing changes but the ring's start.
     */
    method Malloc(nbytes: nat, grant: Grant) returns (r: nat)
      requires Valid()
      requires grant.Granted? ==> Fresh(Block(grant.addr, AskFor(UnitsFor(nbytes))), free, live, base)
      modifies this
      ensures Valid() && freep != 0
      ensures r != 0 ==> live == old(live) + [Block(r - 1, UnitsFor(nbytes))]
      ensures r == 0 <==> grant.Refused? && !SomeFits(old(free), UnitsFor(nbytes))
      ensures r == 0 ==> live == old(live) && obtained == old(obtained)
      ensures SomeFits(old(free), UnitsFor(nbytes)) ==>
                obtained == old(obtained) && r != 0
                && exists i: nat :: NextFit(old(free), old(freep), UnitsFor(nbytes), i)
                                    && Served(old(free), free, freep, i, UnitsFor(nbytes), r - 1)
      ensures !SomeFits(old(free), UnitsFor(nbytes)) && grant.Granted? ==>
                obtained == old(obtained) + AskFor(UnitsFor(nbytes))
    {
      hide Units, Live, Apart, Linked, Spaced, Cursor, Missed, Ahead, LinkedAt, NextFit, SomeFits, Served;
      var nunits := (nbytes + HEADER - 1) / HEADER + 1;
      if freep == 0 {
        Begin();
      }
      ghost var free0 := free;
      var prevp := freep;
      ghost var f: nat :| 0 <= f < |free| && free[f].addr == freep;
      ghost var k: nat, asked := 0, false;
      CursorStart(ptr, size, free, f);
      NothingMissed(free, f, nunits);
      var p := ptr[prevp];
      while true
        invariant Started() && freep > 0 && f < |free| && free[f].addr == freep && Cursor(free, f, k, p, prevp)
        invariant live == old(live) && nunits == UnitsFor(nbytes)
        invariant !asked ==>
                    free == free0 && obtained == old(obtained) && Missed(free, f, k, nunits)
                    && (old(freep) != 0 ==> free0 == old(free) && freep == old(freep))
        invariant asked ==> !SomeFits(old(free), nunits) && grant.Granted? && Ahead(free, f, k, nunits)
        invariant asked ==> obtained == old(obtained) + AskFor(nunits)
        decreases if asked then 0 else 1, |free| - k
      {
        ghost var i := CursorNode(ptr, size, free, base, f, k, p, prevp, nunits);
        if size[p] >= nunits {
          if !asked { FoundFit(free, freep, f, k, nunits, i); }
          p := Take(prevp, p, nunits, i);
          return p + 1;
        }
        if p == freep {
          if !asked { NoFit(old(free), free, nunits, old(freep)); }
          p := Morecore(nunits, grant);
          if p == 0 {
            return 0;
          }
          asked := true;
          f :| 0 <= f < |free| && free[f].addr == freep;
          k := 0;
          AllAhead(free, f, nunits);
          CursorStart(ptr, size, free, f);
        } else {
          k := k + 1;
        }
        prevp := p;
        p := ptr[p];
      }
    }
  }
}
