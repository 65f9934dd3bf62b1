/**
 The copying collector of user/lisp/lisp.c.

 The heap is one array of two spaces of HEAPSIZE cells.  As in the source,
 `fromspace` names the space that objects are allocated in; a collection swaps the
 two, copies what the roots reach and leaves a forwarding mark in each copied cell.
 */
module Collector {
  import opened Options

  const HEAPSIZE: nat := 16384

  /** Raw: an interned string or a C function, never a heap address. */
  datatype Ptr = Null | Ref(addr: nat) | Marker | Raw(id: int)
  datatype Tag = Cons | Atom | CFunc | Lambda
  datatype Obj = Obj(tag: Tag, car: Ptr, cdr: Ptr)

  predicate Scanned(o: Obj) { o.tag == Cons || o.tag == Lambda }

  /** A space of `used` cells starting at `start`. */
  datatype Space = Space(start: nat, used: nat)

  predicate In(s: Space, a: nat) { s.start <= a < s.start + s.used }

  predicate PointsInto(s: Space, p: Ptr) { p == Null || (p.Ref? && In(s, p.addr)) }

  predicate WellFormed(s: Space, o: Obj) {
    if Scanned(o) then PointsInto(s, o.car) && PointsInto(s, o.cdr) else o.car.Raw? && o.cdr == Null
  }

  ghost predicate Closed(h: seq<Obj>, s: Space) {
    && s.start + s.used <= |h|
    && forall a: nat :: In(s, a) ==> WellFormed(s, h[a])
  }

  // ---------- Reachability ----------

  ghost predicate Edge(h: seq<Obj>, a: nat, b: nat) {
    a < |h| && Scanned(h[a]) && (h[a].car == Ref(b) || h[a].cdr == Ref(b))
  }

  ghost predicate Path(h: seq<Obj>, p: seq<nat>) {
    |p| > 0 && forall i :: 0 <= i < |p| - 1 ==> Edge(h, p[i], p[i + 1])
  }

  /** Some root points to an object from which a chain of car and cdr fields leads to a. */
  ghost predicate Reachable(h: seq<Obj>, roots: seq<Ptr>, a: nat) {
    exists p :: Path(h, p) && Ref(p[0]) in roots && p[|p| - 1] == a
  }

  lemma ReachRoot(h: seq<Obj>, roots: seq<Ptr>, a: nat)
    requires Ref(a) in roots
    ensures Reachable(h, roots, a)
  {
    assert Path(h, [a]);
  }

  lemma ReachStep(h: seq<Obj>, roots: seq<Ptr>, a: nat, b: nat)
    requires Reachable(h, roots, a) && Edge(h, a, b)
    ensures Reachable(h, roots, b)
  {
    var p :| Path(h, p) && Ref(p[0]) in roots && p[|p| - 1] == a;
    assert Path(h, p + [b]);
  }

  /** A set that holds what the roots point to and is closed under edges holds everything reachable. */
  lemma {:induction false} ReachClosed(h: seq<Obj>, order: seq<nat>, p: seq<nat>)
    requires Path(h, p) && p[0] in order
    requires forall a, b :: a in order && Edge(h, a, b) ==> b in order
    ensures p[|p| - 1] in order
  {
    if |p| > 1 {
      var q := p[..|p| - 1];
      assert Path(h, q);
      ReachClosed(h, order, q);
      assert Edge(h, p[|p| - 2], p[|p| - 1]);
    }
  }

  // ---------- Forwarding ----------

  ghost predicate Distinct(order: seq<nat>) {
    forall i, j :: 0 <= i < j < |order| ==> order[i] != order[j]
  }

  ghost function Index(order: seq<nat>, a: nat): (i: nat)
    requires a in order
    ensures i < |order| && order[i] == a
  {
    var i :| 0 <= i < |order| && order[i] == a;
    i
  }

  /** Where a pointer points once the objects of `order` have been moved to `to`, in that order. */
  ghost function Forward(order: seq<nat>, to: nat, p: Ptr): Ptr {
    if p.Ref? && p.addr in order then Ref(to + Index(order, p.addr)) else p
  }

  ghost function ForwardObj(order: seq<nat>, to: nat, o: Obj): Obj {
    if Scanned(o) then Obj(o.tag, Forward(order, to, o.car), Forward(order, to, o.cdr)) else o
  }

  ghost predicate Moved(order: seq<nat>, p: Ptr) { p.Ref? ==> p.addr in order }

  lemma ForwardGrows(order: seq<nat>, a: nat, to: nat, p: Ptr)
    requires Distinct(order + [a]) && Moved(order, p)
    ensures Forward(order + [a], to, p) == Forward(order, to, p) && Moved(order + [a], p)
  {
    if p.Ref? {
      var i, j := Index(order, p.addr), Index(order + [a], p.addr);
      assert (order + [a])[i] == (order + [a])[j];
    }
  }

  // ---------- The heap during a collection ----------

  /**
   h is the heap at the start, with objects in `src`.  The objects of `order` have
   been copied to `to` and carry forwarding marks; the rest of `src` is untouched.
   The first `scan` copies have had their fields forwarded; those from `raw` on are
   still exact copies.
   */
  ghost predicate Collecting(h: seq<Obj>, c: seq<Obj>, src: Space, to: nat, order: seq<nat>, scan: nat, raw: nat) {
    && |c| == |h|
    && (to + HEAPSIZE <= src.start || src.start + src.used <= to)
    && to + HEAPSIZE <= |h| && src.used <= HEAPSIZE && Closed(h, src)
    && Distinct(order) && scan <= raw <= |order| <= HEAPSIZE
    && (forall i :: 0 <= i < |order| ==> In(src, order[i]))
    && (forall i :: 0 <= i < |order| ==> c[order[i]] == Obj(h[order[i]].tag, Marker, Ref(to + i)))
    && (forall a: nat :: In(src, a) && a !in order ==> c[a] == h[a])
    && (forall i :: 0 <= i < scan ==> Done(h, c, to, order, i))
    && (forall i :: raw <= i < |order| ==> c[to + i] == h[order[i]])
  }

  /** Copy number i has been scanned. */
  ghost predicate Done(h: seq<Obj>, c: seq<Obj>, to: nat, order: seq<nat>, i: nat)
    requires i < |order| && order[i] < |h| && to + i < |c|
  {
    && c[to + i] == ForwardObj(order, to, h[order[i]])
    && (Scanned(h[order[i]]) ==> Moved(order, h[order[i]].car) && Moved(order, h[order[i]].cdr))
  }

  lemma {:induction false} Pigeonhole(s: Space, order: seq<nat>)
    requires Distinct(order) && forall i :: 0 <= i < |order| ==> In(s, order[i])
    ensures |order| <= s.used
    decreases s.used
  {
    if s.used == 0 {
      assert |order| > 0 ==> In(s, order[0]);
    } else {
      var last := s.start + s.used - 1;
      var rest := Space(s.start, s.used - 1);
      if k :| 0 <= k < |order| && order[k] == last {
        var less := order[..k] + order[k + 1..];
        assert forall i :: 0 <= i < |less| ==> In(rest, less[i]);
        Pigeonhole(rest, less);
      } else {
        Pigeonhole(rest, order);
      }
    }
  }

  /** An object not yet copied leaves room for its copy. */
  lemma RoomLeft(s: Space, order: seq<nat>, a: nat)
    requires Distinct(order) && (forall i :: 0 <= i < |order| ==> In(s, order[i])) && In(s, a) && a !in order
    ensures |order| < s.used && Distinct(order + [a])
  {
    Pigeonhole(s, order + [a]);
  }

  /** Copying one object to the end of the new space and leaving a mark behind. */
  lemma CopyOne(h: seq<Obj>, c: seq<Obj>, src: Space, to: nat, order: seq<nat>, scan: nat, raw: nat, a: nat)
    requires Collecting(h, c, src, to, order, scan, raw) && In(src, a) && a !in order
    requires |order| < HEAPSIZE && Distinct(order + [a])
    ensures Collecting(h, c[to + |order| := c[a]][a := Obj(c[a].tag, Marker, Ref(to + |order|))], src, to, order + [a],
              scan, raw)
  {
    var more := order + [a];
    var c' := c[to + |order| := c[a]][a := Obj(c[a].tag, Marker, Ref(to + |order|))];
    forall i | 0 <= i < scan
      ensures Done(h, c', to, more, i)
    {
      assert Done(h, c, to, order, i);
      var o := h[order[i]];
      if Scanned(o) {
        ForwardGrows(order, a, to, o.car);
        ForwardGrows(order, a, to, o.cdr);
      }
      assert c'[to + i] == c[to + i];
    }
  }

  lemma ForwardNull(order: seq<nat>, to: nat)
    ensures Forward(order, to, Null) == Null
  {
  }

  /** What gc_copy finds behind a pointer into the old space. */
  lemma CopyCases(h: seq<Obj>, c: seq<Obj>, src: Space, to: nat, order: seq<nat>, scan: nat, raw: nat, a: nat)
    requires Collecting(h, c, src, to, order, scan, raw) && In(src, a)
    ensures a < |c| == |h| && to + HEAPSIZE <= |c|
    ensures a in order ==> c[a].car == Marker && c[a].cdr == Forward(order, to, Ref(a))
    ensures a !in order ==> c[a].car != Marker && (a < to || a >= to + HEAPSIZE)
    ensures a !in order ==> |order| < HEAPSIZE && Distinct(order + [a]) && (order + [a])[|order|] == a
    ensures a !in order ==> Forward(order + [a], to, Ref(a)) == Ref(to + |order|)
  {
    assert WellFormed(src, h[a]);
    if a in order {
      assert order[Index(order, a)] == a;
    } else {
      RoomLeft(src, order, a);
      assert (order + [a])[|order|] == a;
      assert (order + [a])[Index(order + [a], a)] == a;
    }
  }

  lemma CopyBounds(h: seq<Obj>, c: seq<Obj>, src: Space, to: nat, order: seq<nat>, scan: nat, raw: nat)
    requires Collecting(h, c, src, to, order, scan, raw)
    ensures |c| == |h| && to + HEAPSIZE <= |c| && |order| <= HEAPSIZE
    ensures forall a: nat :: In(src, a) ==> a < |c| && (a < to || a >= to + HEAPSIZE)
  {
  }

  // ---------- The loops of gc_collect ----------

  /** The values of the root variables, followed by the two arguments gc_alloc protects. */
  ghost function RootValues(vs: seq<Ptr>, roots: seq<nat>, car: Ptr, cdr: Ptr): (r: seq<Ptr>)
    requires forall i :: 0 <= i < |roots| ==> roots[i] < |vs|
    ensures |r| == |roots| + 2 && r[|roots|] == car && r[|roots| + 1] == cdr
    ensures forall i :: 0 <= i < |roots| ==> r[i] == vs[roots[i]]
  {
    seq(|roots|, i requires 0 <= i < |roots| => vs[roots[i]]) + [car, cdr]
  }

  /** The variables among the first i roots have been forwarded, the others not touched. */
  ghost predicate RootsDone(vs: seq<Ptr>, vs0: seq<Ptr>, roots: seq<nat>, i: nat, order: seq<nat>, to: nat) {
    && |vs| == |vs0| && i <= |roots|
    && (forall r :: 0 <= r < |vs| && r !in roots[..i] ==> vs[r] == vs0[r])
    && (forall r :: 0 <= r < |vs| && r in roots[..i] ==> Moved(order, vs0[r]) && vs[r] == Forward(order, to, vs0[r]))
  }

  ghost predicate AllReachable(h: seq<Obj>, rs: seq<Ptr>, order: seq<nat>) {
    forall i :: 0 <= i < |order| ==> Reachable(h, rs, order[i])
  }

  /** order' extends order by at most the object behind p. */
  ghost predicate Extends(order: seq<nat>, order': seq<nat>, p: Ptr) {
    order' == order || (p.Ref? && p.addr !in order && order' == order + [p.addr])
  }

  lemma RootsGrow(vs: seq<Ptr>, vs0: seq<Ptr>, roots: seq<nat>, i: nat, order: seq<nat>, order': seq<nat>, to: nat,
                  p: Ptr)
    requires RootsDone(vs, vs0, roots, i, order, to) && Extends(order, order', p) && Distinct(order')
    ensures RootsDone(vs, vs0, roots, i, order', to)
  {
    if order' != order {
      forall r | 0 <= r < |vs| && r in roots[..i]
        ensures Moved(order', vs0[r]) && vs[r] == Forward(order', to, vs0[r])
      {
        ForwardGrows(order, p.addr, to, vs0[r]);
      }
    }
  }

  lemma RootsNext(vs: seq<Ptr>, vs0: seq<Ptr>, roots: seq<nat>, i: nat, order: seq<nat>, to: nat, q: Ptr)
    requires RootsDone(vs, vs0, roots, i, order, to) && i < |roots| && roots[i] < |vs|
    requires Moved(order, vs0[roots[i]]) && q == Forward(order, to, vs0[roots[i]])
    ensures RootsDone(vs[roots[i] := q], vs0, roots, i + 1, order, to)
  {
    assert roots[..i + 1] == roots[..i] + [roots[i]];
  }

  /** The last copied cell of a scan step may change without disturbing the rest. */
  lemma SetHole(h: seq<Obj>, c: seq<Obj>, src: Space, to: nat, order: seq<nat>, scan: nat, o: Obj)
    requires Collecting(h, c, src, to, order, scan, scan + 1)
    ensures Collecting(h, c[to + scan := o], src, to, order, scan, scan + 1)
  {
    var c' := c[to + scan := o];
    forall i | 0 <= i < scan
      ensures Done(h, c', to, order, i)
    {
      assert Done(h, c, to, order, i);
    }
  }

  lemma ScanNext(h: seq<Obj>, c: seq<Obj>, src: Space, to: nat, order: seq<nat>, scan: nat)
    requires Collecting(h, c, src, to, order, scan, scan + 1) && Done(h, c, to, order, scan)
    ensures Collecting(h, c, src, to, order, scan + 1, scan + 1)
  {
  }

  lemma OpenHole(h: seq<Obj>, c: seq<Obj>, src: Space, to: nat, order: seq<nat>, scan: nat)
    requires Collecting(h, c, src, to, order, scan, scan) && scan < |order|
    ensures Collecting(h, c, src, to, order, scan, scan + 1)
    ensures c[to + scan] == h[order[scan]] && WellFormed(src, h[order[scan]])
  {
    assert In(src, order[scan]);
  }

  /** Everything copied from a scanned object was reachable through it. */
  lemma ReachGrow(h: seq<Obj>, rs: seq<Ptr>, order: seq<nat>, order': seq<nat>, a: nat, p: Ptr)
    requires AllReachable(h, rs, order) && Extends(order, order', p)
    requires p in rs || (a in order && a < |h| && Scanned(h[a]) && (p == h[a].car || p == h[a].cdr))
    ensures AllReachable(h, rs, order')
  {
    if order' != order {
      if p in rs {
        ReachRoot(h, rs, p.addr);
      } else {
        assert Reachable(h, rs, order[Index(order, a)]);
        ReachStep(h, rs, a, p.addr);
      }
    }
  }

  /**
   The collection is complete: `order` lists exactly the reachable objects, each once;
   object number i is now at to + i with the same tag and with its fields, like the
   roots, pointing to the copies of what they pointed to.
   */
  ghost predicate Collected(h: seq<Obj>, c: seq<Obj>, to: nat, order: seq<nat>, rs: seq<Ptr>, rs': seq<Ptr>) {
    && Distinct(order) && to + |order| <= |c| && |rs'| == |rs|
    && (forall a: nat :: a in order <==> Reachable(h, rs, a))
    && (forall i :: 0 <= i < |order| ==> order[i] < |h| && c[to + i] == ForwardObj(order, to, h[order[i]]))
    && (forall i :: 0 <= i < |rs| ==> rs'[i] == Forward(order, to, rs[i]))
  }

  lemma ReachedExactly(h: seq<Obj>, c: seq<Obj>, src: Space, to: nat, order: seq<nat>, rs: seq<Ptr>, rs': seq<Ptr>)
    requires Collecting(h, c, src, to, order, |order|, |order|) && AllReachable(h, rs, order)
    requires AreForwarded(rs, rs', order, to)
    ensures forall a: nat :: a in order <==> Reachable(h, rs, a)
  {
    forall a: nat, b: nat | a in order && Edge(h, a, b)
      ensures b in order
    {
      assert Done(h, c, to, order, Index(order, a));
    }
    forall a: nat
      ensures a in order <==> Reachable(h, rs, a)
    {
      if a in order {
        assert Reachable(h, rs, order[Index(order, a)]);
      }
      if Reachable(h, rs, a) {
        var p :| Path(h, p) && Ref(p[0]) in rs && p[|p| - 1] == a;
        var i :| 0 <= i < |rs| && rs[i] == Ref(p[0]);
        assert Moved(order, rs[i]);
        ReachClosed(h, order, p);
      }
    }
  }

  lemma CollectionEnds(h: seq<Obj>, c: seq<Obj>, src: Space, to: nat, order: seq<nat>, rs: seq<Ptr>, rs': seq<Ptr>)
    requires Collecting(h, c, src, to, order, |order|, |order|) && AllReachable(h, rs, order)
    requires AreForwarded(rs, rs', order, to)
    ensures Collected(h, c, to, order, rs, rs')
    ensures Closed(c, Space(to, |order|))
  {
    ReachedExactly(h, c, src, to, order, rs, rs');
    forall a: nat | In(Space(to, |order|), a)
      ensures WellFormed(Space(to, |order|), c[a])
    {
      CopyWellFormed(h, c, src, to, order, a - to);
    }
    forall i | 0 <= i < |order|
      ensures c[to + i] == ForwardObj(order, to, h[order[i]])
    {
      assert Done(h, c, to, order, i);
    }
  }

  lemma CopyWellFormed(h: seq<Obj>, c: seq<Obj>, src: Space, to: nat, order: seq<nat>, i: nat)
    requires Collecting(h, c, src, to, order, |order|, |order|) && i < |order|
    ensures WellFormed(Space(to, |order|), c[to + i])
  {
    assert Done(h, c, to, order, i);
    assert In(src, order[i]);
    assert WellFormed(src, h[order[i]]);
  }

  lemma CollectingDistinct(h: seq<Obj>, c: seq<Obj>, src: Space, to: nat, order: seq<nat>, scan: nat, raw: nat)
    requires Collecting(h, c, src, to, order, scan, raw)
    ensures Distinct(order)
  {
  }

  lemma StillForwarded(order: seq<nat>, order': seq<nat>, to: nat, p: Ptr, q: Ptr)
    requires Extends(order, order', q) && Distinct(order') && Moved(order, p)
    ensures Forward(order', to, p) == Forward(order, to, p) && Moved(order', p)
  {
    if order' != order {
      ForwardGrows(order, q.addr, to, p);
    }
  }

  /** What gc_copy is given for root i: the original value, or a copy if the variable is on the stack twice. */
  lemma RootValue(vs: seq<Ptr>, vs0: seq<Ptr>, roots: seq<nat>, i: nat, h: seq<Obj>, c: seq<Obj>, src: Space, to: nat,
                  order: seq<nat>)
    requires RootsDone(vs, vs0, roots, i, order, to) && i < |roots| && roots[i] < |vs|
    requires Collecting(h, c, src, to, order, 0, 0) && PointsInto(src, vs0[roots[i]])
    ensures roots[i] !in roots[..i] ==> vs[roots[i]] == vs0[roots[i]]
    ensures roots[i] in roots[..i] ==> Moved(order, vs0[roots[i]]) && vs[roots[i]] == Forward(order, to, vs0[roots[i]])
    ensures roots[i] in roots[..i] && vs[roots[i]].Ref? ==> !In(src, vs[roots[i]].addr)
    ensures vs[roots[i]] == Null ==> vs0[roots[i]] == Null
    ensures var p := vs[roots[i]];
            || PointsInto(src, p)
            || (p.Ref? && to <= p.addr < to + |order| <= |c| && c[p.addr].car != Marker && !In(src, p.addr))
  {
    var p := vs[roots[i]];
    if p.Ref? && !PointsInto(src, p) {
      var k := Index(order, vs0[roots[i]].addr);
      assert p == Ref(to + k) && c[to + k] == h[order[k]];
      assert In(src, order[k]) && WellFormed(src, h[order[k]]);
    }
    if p.Ref? && roots[i] in roots[..i] {
      assert !In(src, p.addr);
    }
  }

  lemma NoneReachable(h: seq<Obj>, rs: seq<Ptr>)
    ensures AllReachable(h, rs, [])
  {
  }

  // ---------- What a program sees ----------

  datatype Field = Car | Cdr

  /** The pointer a chain of car and cdr accesses ends in. */
  ghost function Follow(h: seq<Obj>, p: Ptr, path: seq<Field>): Ptr
    decreases |path|
  {
    if path == [] then p
    else if !p.Ref? || p.addr >= |h| || !Scanned(h[p.addr]) then Null
    else Follow(h, if path[0] == Car then h[p.addr].car else h[p.addr].cdr, path[1..])
  }

  /** Both fields of conses and lambdas can be followed. */
  lemma FieldsFollowed(h: seq<Obj>, p: Ptr)
    requires p.Ref? && p.addr < |h| && h[p.addr].tag in {Cons, Lambda}
    ensures Follow(h, p, [Car]) == h[p.addr].car && Follow(h, p, [Cdr]) == h[p.addr].cdr
  {
    assert [Car][1..] == [] && [Cdr][1..] == [];
  }

  /** Every chain of accesses ends in the copy of the object it ended in before. */
  lemma {:induction false} FollowsCopy(h: seq<Obj>, c: seq<Obj>, to: nat, order: seq<nat>, rs: seq<Ptr>, rs': seq<Ptr>,
                                       p: Ptr, path: seq<Field>)
    requires Collected(h, c, to, order, rs, rs') && Moved(order, p)
    ensures Moved(order, Follow(h, p, path))
    ensures Follow(c, Forward(order, to, p), path) == Forward(order, to, Follow(h, p, path))
    decreases |path|
  {
    if path != [] && p.Ref? {
      var i := Index(order, p.addr);
      assert c[to + i] == ForwardObj(order, to, h[order[i]]);
      if Scanned(h[p.addr]) {
        var q := if path[0] == Car then h[p.addr].car else h[p.addr].cdr;
        if q.Ref? {
          assert Edge(h, p.addr, q.addr);
          ReachStep(h, rs, p.addr, q.addr);
        }
        FollowsCopy(h, c, to, order, rs, rs', q, path[1..]);
      }
    }
  }

  /**
   A program cannot tell a collection has happened: the same accesses lead to an object
   with the same tag and payload, and two accesses meet in one object afterwards
   exactly when they did before.
   */
  lemma CollectionInvisible(h: seq<Obj>, c: seq<Obj>, to: nat, order: seq<nat>, rs: seq<Ptr>, rs': seq<Ptr>,
                            i: nat, path: seq<Field>, j: nat, path2: seq<Field>)
    requires Collected(h, c, to, order, rs, rs') && i < |rs| && j < |rs|
    ensures var p, p' := Follow(h, rs[i], path), Follow(c, rs'[i], path);
            && p'.Ref? == p.Ref? && (!p.Ref? ==> p' == p)
            && (p.Ref? ==> && p.addr < |h| && p'.addr < |c| && c[p'.addr].tag == h[p.addr].tag
                           && (!Scanned(h[p.addr]) ==> c[p'.addr] == h[p.addr]))
    ensures Follow(h, rs[i], path) == Follow(h, rs[j], path2) <==> Follow(c, rs'[i], path) == Follow(c, rs'[j], path2)
  {
    forall k | 0 <= k < |rs|
      ensures Moved(order, rs[k])
    {
      if rs[k].Ref? {
        ReachRoot(h, rs, rs[k].addr);
      }
    }
    FollowsCopy(h, c, to, order, rs, rs', rs[i], path);
    FollowsCopy(h, c, to, order, rs, rs', rs[j], path2);
    var p, q := Follow(h, rs[i], path), Follow(h, rs[j], path2);
    if p.Ref? {
      assert c[to + Index(order, p.addr)] == ForwardObj(order, to, h[p.addr]);
    }
    ForwardInjective(order, to, p, q);
  }

  lemma ForwardInjective(order: seq<nat>, to: nat, p: Ptr, q: Ptr)
    requires Moved(order, p) && Moved(order, q)
    ensures Forward(order, to, p) == Forward(order, to, q) <==> p == q
  {
    if p.Ref? && q.Ref? {
      assert order[Index(order, p.addr)] == p.addr && order[Index(order, q.addr)] == q.addr;
    }
  }

  lemma Nothing(h: seq<Obj>, src: Space, to: nat)
    requires Closed(h, src) && src.used <= HEAPSIZE && to + HEAPSIZE <= |h|
    requires to + HEAPSIZE <= src.start || src.start + src.used <= to
    ensures Collecting(h, h, src, to, [], 0, 0)
  {
  }

  ghost predicate AreForwarded(rs: seq<Ptr>, rs': seq<Ptr>, order: seq<nat>, to: nat) {
    |rs'| == |rs| && forall i :: 0 <= i < |rs| ==> Moved(order, rs[i]) && rs'[i] == Forward(order, to, rs[i])
  }

  lemma RootsForwarded(vs0: seq<Ptr>, vs: seq<Ptr>, roots: seq<nat>, car: Ptr, cdr: Ptr, car': Ptr, cdr': Ptr,
                       order: seq<nat>, to: nat)
    requires forall i :: 0 <= i < |roots| ==> roots[i] < |vs0|
    requires RootsDone(vs, vs0, roots, |roots|, order, to) && Moved(order, car) && Moved(order, cdr)
    requires car' == Forward(order, to, car) && cdr' == Forward(order, to, cdr)
    ensures AreForwarded(RootValues(vs0, roots, car, cdr), RootValues(vs, roots, car', cdr'), order, to)
  {
    assert roots[..|roots|] == roots;
  }

  lemma {:induction false} ForwardedGrow(rs: seq<Ptr>, rs': seq<Ptr>, order: seq<nat>, order': seq<nat>, to: nat)
    requires AreForwarded(rs, rs', order, to) && order <= order' && Distinct(order')
    ensures AreForwarded(rs, rs', order', to)
  {
    forall i | 0 <= i < |rs|
      ensures Moved(order', rs[i]) && rs'[i] == Forward(order', to, rs[i])
    {
      if rs[i].Ref? {
        var j, k := Index(order, rs[i].addr), Index(order', rs[i].addr);
        assert order'[j] == order'[k];
      }
    }
  }

  lemma RootsInto(vs0: seq<Ptr>, vs: seq<Ptr>, roots: seq<nat>, car: Ptr, cdr: Ptr, car': Ptr, cdr': Ptr,
                  order: seq<nat>, to: nat, src: Space)
    requires |vs| == |vs0| && (forall i :: 0 <= i < |roots| ==> roots[i] < |vs0| && PointsInto(src, vs0[roots[i]]))
    requires PointsInto(src, car) && PointsInto(src, cdr)
    requires AreForwarded(RootValues(vs0, roots, car, cdr), RootValues(vs, roots, car', cdr'), order, to)
    ensures forall i :: 0 <= i < |roots| ==> PointsInto(Space(to, |order|), vs[roots[i]])
    ensures PointsInto(Space(to, |order|), car') && PointsInto(Space(to, |order|), cdr')
  {
    var rs, rs' := RootValues(vs0, roots, car, cdr), RootValues(vs, roots, car', cdr');
    forall i | 0 <= i < |rs|
      ensures PointsInto(Space(to, |order|), rs'[i])
    {
      assert PointsInto(src, rs[i]);
    }
    assert rs'[|roots|] == car' && rs'[|roots| + 1] == cdr';
    assert forall i :: 0 <= i < |roots| ==> rs'[i] == vs[roots[i]];
  }

  lemma CollectedNulls(h: seq<Obj>, c: seq<Obj>, to: nat, order: seq<nat>, vs0: seq<Ptr>, vs: seq<Ptr>,
                       roots: seq<nat>, n0: Ptr, n1: Ptr)
    requires |vs| == |vs0| && forall i :: 0 <= i < |roots| ==> roots[i] < |vs|
    requires Collected(h, c, to, order, RootValues(vs0, roots, Null, Null), RootValues(vs, roots, n0, n1))
    ensures n0 == Null && n1 == Null
  {
    ForwardNull(order, to);
    var rs, rs' := RootValues(vs0, roots, Null, Null), RootValues(vs, roots, n0, n1);
    assert rs'[|roots|] == Forward(order, to, rs[|roots|]);
    assert rs'[|roots| + 1] == Forward(order, to, rs[|roots| + 1]);
  }

  lemma CollectedExtends(h: seq<Obj>, c: seq<Obj>, c': seq<Obj>, to: nat, order: seq<nat>, rs: seq<Ptr>, rs': seq<Ptr>)
    requires Collected(h, c, to, order, rs, rs') && |c'| == |c|
    requires forall i :: to <= i < to + |order| ==> c'[i] == c[i]
    ensures Collected(h, c', to, order, rs, rs')
  {
  }

  /** The state gc_alloc finds after a collection; the arguments of a cons are roots. */
  ghost predicate AfterCollection(tag: Tag, car: Ptr, cdr: Ptr, car': Ptr, cdr': Ptr, h: seq<Obj>, c: seq<Obj>,
                                  vs0: seq<Ptr>, vs: seq<Ptr>, roots: seq<nat>, to: nat, order: seq<nat>) {
    && |vs| == |vs0| && (forall i :: 0 <= i < |roots| ==> roots[i] < |vs|)
    && if tag == Cons
       then Collected(h, c, to, order, RootValues(vs0, roots, car, cdr), RootValues(vs, roots, car', cdr'))
       else
         && car' == car && cdr' == cdr
         && Collected(h, c, to, order, RootValues(vs0, roots, Null, Null), RootValues(vs, roots, Null, Null))
  }

  /** A cell beyond the copies may be written. */
  lemma AfterAlloc(tag: Tag, car: Ptr, cdr: Ptr, car': Ptr, cdr': Ptr, h: seq<Obj>, c: seq<Obj>, a: nat, x: Obj,
                   vs0: seq<Ptr>, vs: seq<Ptr>, roots: seq<nat>, to: nat, order: seq<nat>)
    requires AfterCollection(tag, car, cdr, car', cdr', h, c, vs0, vs, roots, to, order) && to + |order| <= a < |c|
    ensures AfterCollection(tag, car, cdr, car', cdr', h, c[a := x], vs0, vs, roots, to, order)
  {
    hide Collected;
    if tag == Cons {
      CollectedExtends(h, c, c[a := x], to, order, RootValues(vs0, roots, car, cdr), RootValues(vs, roots, car', cdr'));
    } else {
      CollectedExtends(h, c, c[a := x], to, order, RootValues(vs0, roots, Null, Null),
          RootValues(vs, roots, Null, Null));
    }
  }

  /**
   The effect of gc_alloc on allocptr, counted from the start of a space of the given size of
   which `used` cells are taken: the next cell, after a collection that leaves the `live`
   reachable ones if there is none; none at all if that does not help.
   */
  function NewCell(used: nat, live: nat, size: nat): Option<nat> {
    if used < size then Some(used + 1) else if live < size then Some(live + 1) else None
  }

  class Heap {
    const cells: array<Obj>
    /** The C variables whose addresses are on the root stack, and that stack. */
    const vars: array<Ptr>
    var roots: seq<nat>
    var fromspace: nat
    var tospace: nat
    var allocptr: nat
    var scanptr: nat

    constructor (numvars: nat)
      ensures Valid() && fresh(cells) && fresh(vars) && vars.Length == numvars && allocptr == fromspace
    {
      cells := new Obj[2 * HEAPSIZE](_ => Obj(Atom, Null, Null));
      vars := new Ptr[numvars](_ => Null);
      roots := [];
      allocptr, fromspace := 0, 0;
      scanptr, tospace := HEAPSIZE, HEAPSIZE;
    }

    ghost function Live(): Space
      requires fromspace <= allocptr
      reads this
    {
      Space(fromspace, allocptr - fromspace)
    }

    ghost predicate Valid()
      reads this, cells, vars
    {
      && cells.Length == 2 * HEAPSIZE
      && ((fromspace == 0 && tospace == HEAPSIZE) || (fromspace == HEAPSIZE && tospace == 0))
      && fromspace <= allocptr <= fromspace + HEAPSIZE
      && Closed(cells[..], Live())
      && (forall i :: 0 <= i < |roots| ==> roots[i] < vars.Length && PointsInto(Live(), vars[roots[i]]))
    }

    /** gc_copy: the new value of *root. */
    method GcCopy(p: Ptr, ghost h: seq<Obj>, ghost src: Space, ghost order: seq<nat>, ghost scan: nat, ghost raw: nat)
      returns (q: Ptr, ghost order': seq<nat>)
      requires Collecting(h, cells[..], src, fromspace, order, scan, raw) && allocptr == fromspace + |order|
      requires PointsInto(src, p) || (p.Ref? && fromspace <= p.addr < allocptr && cells[p.addr].car != Marker)
      modifies this`allocptr, cells
      ensures Collecting(h, cells[..], src, fromspace, order', scan, raw) && allocptr == fromspace + |order'|
      ensures order' == if p.Ref? && In(src, p.addr) && p.addr !in order then order + [p.addr] else order
      ensures PointsInto(src, p) ==> q == Forward(order', fromspace, p) && Moved(order', p)
      ensures !PointsInto(src, p) ==> q == p
      ensures forall i :: fromspace <= i < old(allocptr) ==> cells[i] == old(cells[i])
    {
      hide Collecting, Forward;
      order' := order;
      CopyBounds(h, cells[..], src, fromspace, order, scan, raw);
      if p.Ref? && In(src, p.addr) {
        CopyCases(h, cells[..], src, fromspace, order, scan, raw, p.addr);
      }
      ForwardNull(order, fromspace);
      if p == Null {
        return p, order';
      }
      if cells[p.addr].car == Marker {
        return cells[p.addr].cdr, order';
      }
      if p.addr < fromspace || p.addr >= fromspace + HEAPSIZE {
        ghost var was := cells[..];
        CopyOne(h, was, src, fromspace, order, scan, raw, p.addr);
        order' := order + [p.addr];
        var n := allocptr;
        allocptr := allocptr + 1;
        cells[n] := cells[p.addr];
        cells[p.addr] := Obj(cells[p.addr].tag, Marker, Ref(n));
        assert cells[..] == was[n := was[p.addr]][p.addr := Obj(was[p.addr].tag, Marker, Ref(n))];
        return Ref(n), order';
      }
      return p, order';
    }

    /** gc_copy(roots[i]) */
    method CopyRoot(i: nat, ghost h: seq<Obj>, ghost src: Space, ghost vs0: seq<Ptr>, ghost rs: seq<Ptr>,
                    ghost order: seq<nat>)
      returns (ghost order': seq<nat>)
      requires i < |roots| && roots[i] < vars.Length == |vs0| && PointsInto(src, vs0[roots[i]]) && vs0[roots[i]] in rs
      requires Collecting(h, cells[..], src, fromspace, order, 0, 0) && allocptr == fromspace + |order|
      requires RootsDone(vars[..], vs0, roots, i, order, fromspace) && AllReachable(h, rs, order)
      modifies this`allocptr, cells, vars
      ensures Collecting(h, cells[..], src, fromspace, order', 0, 0) && allocptr == fromspace + |order'|
      ensures RootsDone(vars[..], vs0, roots, i + 1, order', fromspace) && AllReachable(h, rs, order')
    {
      hide Collecting, Forward, WellFormed, RootsDone, AllReachable, Reachable;
      ghost var p := vars[roots[i]];
      RootValue(vars[..], vs0, roots, i, h, cells[..], src, fromspace, order);
      var q;
      q, order' := GcCopy(vars[roots[i]], h, src, order, 0, 0);
      CollectingDistinct(h, cells[..], src, fromspace, order', 0, 0);
      RootsGrow(vars[..], vs0, roots, i, order, order', fromspace, p);
      ReachGrow(h, rs, order, order', 0, vs0[roots[i]]);
      RootsNext(vars[..], vs0, roots, i, order', fromspace, q);
      ghost var mid := vars[..];
      vars[roots[i]] := q;
      assert vars[..] == mid[roots[i] := q];
    }

    /** The first loop of gc_collect. */
    method CopyRoots(ghost h: seq<Obj>, ghost src: Space, ghost rs: seq<Ptr>)
      returns (ghost order: seq<nat>)
      requires Collecting(h, cells[..], src, fromspace, [], 0, 0) && allocptr == fromspace
      requires forall i :: 0 <= i < |roots| ==>
                 roots[i] < vars.Length && PointsInto(src, vars[roots[i]]) && vars[roots[i]] in rs
      modifies this`allocptr, cells, vars
      ensures Collecting(h, cells[..], src, fromspace, order, 0, 0) && allocptr == fromspace + |order|
      ensures RootsDone(vars[..], old(vars[..]), roots, |roots|, order, fromspace) && AllReachable(h, rs, order)
    {
      hide Collecting, Forward, WellFormed, AllReachable, Reachable;
      order := [];
      assert AllReachable(h, rs, []) by { NoneReachable(h, rs); }
      for i := 0 to |roots|
        invariant Collecting(h, cells[..], src, fromspace, order, 0, 0) && allocptr == fromspace + |order|
        invariant RootsDone(vars[..], old(vars[..]), roots, i, order, fromspace)
        invariant AllReachable(h, rs, order)
      {
        assert old(vars[..])[roots[i]] == old(vars[roots[i]]);
        order := CopyRoot(i, h, src, old(vars[..]), rs, order);
      }
    }

    /** The arguments that gc_alloc pushed on the root stack. */
    method CopyArgs(car: Ptr, cdr: Ptr, ghost h: seq<Obj>, ghost src: Space, ghost vs0: seq<Ptr>, ghost rs: seq<Ptr>,
                    ghost order: seq<nat>)
      returns (car': Ptr, cdr': Ptr, ghost order': seq<nat>)
      requires Collecting(h, cells[..], src, fromspace, order, 0, 0) && allocptr == fromspace + |order|
      requires RootsDone(vars[..], vs0, roots, |roots|, order, fromspace) && AllReachable(h, rs, order)
      requires PointsInto(src, car) && PointsInto(src, cdr) && car in rs && cdr in rs
      modifies this`allocptr, cells
      ensures Collecting(h, cells[..], src, fromspace, order', 0, 0) && allocptr == fromspace + |order'|
      ensures RootsDone(vars[..], vs0, roots, |roots|, order', fromspace) && AllReachable(h, rs, order')
      ensures Moved(order', car) && Moved(order', cdr)
      ensures car' == Forward(order', fromspace, car) && cdr' == Forward(order', fromspace, cdr)
    {
      hide Collecting, Forward, WellFormed, RootsDone, AllReachable, Reachable;
      ghost var mid;
      car', mid := GcCopy(car, h, src, order, 0, 0);
      CollectingDistinct(h, cells[..], src, fromspace, mid, 0, 0);
      RootsGrow(vars[..], vs0, roots, |roots|, order, mid, fromspace, car);
      ReachGrow(h, rs, order, mid, 0, car);
      cdr', order' := GcCopy(cdr, h, src, mid, 0, 0);
      CollectingDistinct(h, cells[..], src, fromspace, order', 0, 0);
      RootsGrow(vars[..], vs0, roots, |roots|, mid, order', fromspace, cdr);
      ReachGrow(h, rs, mid, order', 0, cdr);
      StillForwarded(mid, order', fromspace, car, cdr);
    }

    /** gc_copy(&(scanptr->car)) */
    method ScanCar(ghost h: seq<Obj>, ghost src: Space, ghost rs: seq<Ptr>, ghost order: seq<nat>, ghost scan: nat)
      returns (ghost order': seq<nat>)
      requires scan < |order| && scanptr == fromspace + scan && allocptr == fromspace + |order|
                 && scanptr < cells.Length
      requires Collecting(h, cells[..], src, fromspace, order, scan, scan + 1) && AllReachable(h, rs, order)
      requires order[scan] < |h| && Scanned(h[order[scan]]) && PointsInto(src, h[order[scan]].car)
      requires cells[scanptr] == h[order[scan]]
      modifies this`allocptr, cells
      ensures allocptr == fromspace + |order'| && order <= order'
      ensures Collecting(h, cells[..], src, fromspace, order', scan, scan + 1) && AllReachable(h, rs, order')
      ensures Moved(order', h[order[scan]].car)
      ensures cells[scanptr] == h[order[scan]].(car := Forward(order', fromspace, h[order[scan]].car))
    {
      hide Collecting, Forward, AllReachable, Reachable;
      var q;
      q, order' := GcCopy(cells[scanptr].car, h, src, order, scan, scan + 1);
      ReachGrow(h, rs, order, order', order[scan], h[order[scan]].car);
      Overwrite(h, src, order', scan, cells[scanptr].(car := q));
    }

    /** gc_copy(&(scanptr->cdr)) */
    method ScanCdr(ghost h: seq<Obj>, ghost src: Space, ghost rs: seq<Ptr>, ghost order: seq<nat>, ghost scan: nat)
      returns (ghost order': seq<nat>)
      requires scan < |order| && scanptr == fromspace + scan && allocptr == fromspace + |order|
                 && scanptr < cells.Length
      requires Collecting(h, cells[..], src, fromspace, order, scan, scan + 1) && AllReachable(h, rs, order)
      requires order[scan] < |h| && Scanned(h[order[scan]]) && PointsInto(src, h[order[scan]].cdr)
      requires Moved(order, h[order[scan]].car)
      requires cells[scanptr] == h[order[scan]].(car := Forward(order, fromspace, h[order[scan]].car))
      modifies this`allocptr, cells
      ensures allocptr == fromspace + |order'| && order <= order'
      ensures Collecting(h, cells[..], src, fromspace, order', scan, scan + 1) && AllReachable(h, rs, order')
      ensures Done(h, cells[..], fromspace, order', scan)
    {
      hide Collecting, Forward, AllReachable, Reachable;
      ghost var o := h[order[scan]];
      var q;
      q, order' := GcCopy(cells[scanptr].cdr, h, src, order, scan, scan + 1);
      ReachGrow(h, rs, order, order', order[scan], o.cdr);
      CollectingDistinct(h, cells[..], src, fromspace, order', scan, scan + 1);
      StillForwarded(order, order', fromspace, o.car, o.cdr);
      Overwrite(h, src, order', scan, cells[scanptr].(cdr := q));
    }

    /** The body of the second loop of gc_collect. */
    method ScanOne(ghost h: seq<Obj>, ghost src: Space, ghost rs: seq<Ptr>, ghost order: seq<nat>, ghost scan: nat)
      returns (ghost order': seq<nat>)
      requires scan < |order| && scanptr == fromspace + scan && allocptr == fromspace + |order|
      requires Collecting(h, cells[..], src, fromspace, order, scan, scan) && AllReachable(h, rs, order)
      modifies this`allocptr, cells
      ensures allocptr == fromspace + |order'| && order <= order'
      ensures Collecting(h, cells[..], src, fromspace, order', scan + 1, scan + 1) && AllReachable(h, rs, order')
    {
      hide Collecting, Forward, AllReachable, Reachable;
      OpenHole(h, cells[..], src, fromspace, order, scan);
      CopyBounds(h, cells[..], src, fromspace, order, scan, scan);
      order' := order;
      if cells[scanptr].tag == Cons || cells[scanptr].tag == Lambda {
        order' := ScanCar(h, src, rs, order', scan);
        order' := ScanCdr(h, src, rs, order', scan);
      }
      ScanNext(h, cells[..], src, fromspace, order', scan);
    }

    method Overwrite(ghost h: seq<Obj>, ghost src: Space, ghost order: seq<nat>, ghost scan: nat, o: Obj)
      requires scan < |order| && scanptr == fromspace + scan
      requires Collecting(h, cells[..], src, fromspace, order, scan, scan + 1)
      modifies cells
      ensures Collecting(h, cells[..], src, fromspace, order, scan, scan + 1)
      ensures cells[..] == old(cells[..])[scanptr := o]
    {
      SetHole(h, cells[..], src, fromspace, order, scan, o);
      cells[scanptr] := o;
      assert cells[..] == old(cells[..])[fromspace + scan := o];
    }

    /** All of the roots, the arguments last. */
    method CopyAllRoots(car: Ptr, cdr: Ptr, ghost h: seq<Obj>, ghost src: Space)
      returns (car': Ptr, cdr': Ptr, ghost order: seq<nat>)
      requires Collecting(h, cells[..], src, fromspace, [], 0, 0) && allocptr == fromspace
      requires forall i :: 0 <= i < |roots| ==> roots[i] < vars.Length && PointsInto(src, vars[roots[i]])
      requires PointsInto(src, car) && PointsInto(src, cdr)
      modifies this`allocptr, cells, vars
      ensures Collecting(h, cells[..], src, fromspace, order, 0, 0) && allocptr == fromspace + |order|
      ensures AllReachable(h, RootValues(old(vars[..]), roots, car, cdr), order)
      ensures AreForwarded(RootValues(old(vars[..]), roots, car, cdr), RootValues(vars[..], roots, car', cdr'), order,
                fromspace)
      ensures forall r :: 0 <= r < vars.Length && r !in roots ==> vars[r] == old(vars[r])
    {
      hide Collecting, Forward, Reachable, AllReachable, AreForwarded;
      ghost var vs0 := vars[..];
      ghost var rs := RootValues(vs0, roots, car, cdr);
      assert forall i :: 0 <= i < |roots| ==> vs0[roots[i]] == rs[i];
      order := CopyRoots(h, src, rs);
      assert car == rs[|roots|] && cdr == rs[|roots| + 1];
      car', cdr', order := CopyArgs(car, cdr, h, src, vs0, rs, order);
      RootsForwarded(vs0, vars[..], roots, car, cdr, car', cdr', order, fromspace);
      assert roots[..|roots|] == roots;
    }

    /** The second loop of gc_collect. */
    method ScanAll(ghost h: seq<Obj>, ghost src: Space, ghost rs: seq<Ptr>, ghost rs': seq<Ptr>, ghost found: seq<nat>)
      returns (ghost order: seq<nat>)
      requires scanptr == fromspace && allocptr == fromspace + |found|
      requires Collecting(h, cells[..], src, fromspace, found, 0, 0) && AllReachable(h, rs, found)
      requires AreForwarded(rs, rs', found, fromspace)
      modifies this`allocptr, this`scanptr, cells
      ensures allocptr == fromspace + |order| <= fromspace + HEAPSIZE
      ensures Collecting(h, cells[..], src, fromspace, order, |order|, |order|) && AllReachable(h, rs, order)
      ensures AreForwarded(rs, rs', order, fromspace)
    {
      hide Collecting, Forward, Reachable, AllReachable, AreForwarded;
      ghost var scan := 0;
      order := found;
      CopyBounds(h, cells[..], src, fromspace, order, 0, 0);
      while scanptr < allocptr
        invariant scan <= |order| <= HEAPSIZE && scanptr == fromspace + scan && allocptr == fromspace + |order|
        invariant Collecting(h, cells[..], src, fromspace, order, scan, scan) && AllReachable(h, rs, order)
        invariant AreForwarded(rs, rs', order, fromspace)
        decreases HEAPSIZE - scan
      {
        ghost var was := order;
        order := ScanOne(h, src, rs, order, scan);
        CollectingDistinct(h, cells[..], src, fromspace, order, scan + 1, scan + 1);
        ForwardedGrow(rs, rs', was, order, fromspace);
        CopyBounds(h, cells[..], src, fromspace, order, scan + 1, scan + 1);
        scanptr := scanptr + 1;
        scan := scan + 1;
      }
    }

    /**
     gc_collect, with the two arguments of the caller on the root stack: the spaces are
     swapped and the new one holds exactly the objects reachable before.
     */
    method GcCollect(car: Ptr, cdr: Ptr) returns (car': Ptr, cdr': Ptr, ghost order: seq<nat>)
      requires Valid() && PointsInto(Live(), car) && PointsInto(Live(), cdr)
      modifies this`fromspace, this`tospace, this`allocptr, this`scanptr, cells, vars
      ensures Valid() && PointsInto(Live(), car') && PointsInto(Live(), cdr')
      ensures fromspace == old(tospace) && tospace == old(fromspace) && allocptr == fromspace + |order|
      ensures Collected(old(cells[..]), cells[..], fromspace, order,
                        RootValues(old(vars[..]), roots, car, cdr), RootValues(vars[..], roots, car', cdr'))
      ensures forall r :: 0 <= r < vars.Length && r !in roots ==> vars[r] == old(vars[r])
    {
      hide Collecting, Forward, Reachable, Collected, AllReachable, AreForwarded, Closed, RootValues;
      ghost var h, src, vs0 := cells[..], Live(), vars[..];
      ghost var rs := RootValues(vs0, roots, car, cdr);
      fromspace, tospace := tospace, fromspace;
      allocptr, scanptr := fromspace, fromspace;
      Nothing(h, src, fromspace);
      assert forall i :: 0 <= i < |roots| ==> vars[roots[i]] == vs0[roots[i]];
      car', cdr', order := CopyAllRoots(car, cdr, h, src);
      ghost var rs' := RootValues(vars[..], roots, car', cdr');
      order := ScanAll(h, src, rs, rs', order);
      CollectionEnds(h, cells[..], src, fromspace, order, rs, rs');
      RootsInto(vs0, vars[..], roots, car, cdr, car', cdr', order, fromspace, src);
    }

    /** The first half of gc_alloc: collects if the space is full. */
    method MakeRoom(tag: Tag, car: Ptr, cdr: Ptr) returns (car': Ptr, cdr': Ptr, ghost order: seq<nat>)
      requires Valid() && tag != Lambda
      requires WellFormed(Live(), Obj(tag, car, cdr))
      modifies this`fromspace, this`tospace, this`allocptr, this`scanptr, cells, vars
      ensures Valid() && WellFormed(Live(), Obj(tag, car', cdr')) && |order| <= HEAPSIZE
      ensures old(allocptr) < old(fromspace) + HEAPSIZE ==>
                && car' == car && cdr' == cdr && cells[..] == old(cells[..]) && vars[..] == old(vars[..])
                && fromspace == old(fromspace) && allocptr == old(allocptr)
      ensures old(allocptr) == old(fromspace) + HEAPSIZE ==>
                && fromspace == old(tospace) && allocptr == fromspace + |order|
                && AfterCollection(tag, car, cdr, car', cdr', old(cells[..]), cells[..], old(vars[..]), vars[..],
                     roots, fromspace, order)
    {
      hide Forward, Reachable, Collected, Closed;
      order := [];
      car', cdr' := car, cdr;
      if allocptr + 1 > fromspace + HEAPSIZE {
        if tag == Cons {
          car', cdr', order := GcCollect(car, cdr);
        } else {
          var n0, n1;
          n0, n1, order := GcCollect(Null, Null);
          CollectedNulls(old(cells[..]), cells[..], fromspace, order, old(vars[..]), vars[..], roots, n0, n1);
        }
      }
    }

    /**
     gc_alloc: Null stands for "Out of memory", which is reached only with every cell of
     the space holding an object reachable from the roots or the arguments.
     */
    method GcAlloc(tag: Tag, car: Ptr, cdr: Ptr) returns (r: Ptr, ghost order: seq<nat>)
      requires Valid() && tag != Lambda
      requires WellFormed(Live(), Obj(tag, car, cdr))
      modifies this`fromspace, this`tospace, this`allocptr, this`scanptr, cells, vars
      ensures Valid() && PointsInto(Live(), r) && fromspace <= allocptr
      ensures NewCell(old(allocptr) - old(fromspace), |order|, HEAPSIZE)
              == if r == Null then None else Some(allocptr - fromspace)
      ensures old(allocptr) < old(fromspace) + HEAPSIZE ==>
                && r == Ref(old(allocptr)) && vars[..] == old(vars[..])
                && cells[..] == old(cells[..])[old(allocptr) := Obj(tag, car, cdr)]
                && fromspace == old(fromspace) && allocptr == old(allocptr) + 1
      ensures old(allocptr) == old(fromspace) + HEAPSIZE ==>
                && fromspace == old(tospace) && (r == Null <==> |order| == HEAPSIZE)
                && exists car', cdr' ::
                     && AfterCollection(tag, car, cdr, car', cdr', old(cells[..]), cells[..], old(vars[..]), vars[..],
                          roots, fromspace, order)
                     && (r != Null ==>
                           && r == Ref(fromspace + |order|) && allocptr == r.addr + 1
                           && cells[r.addr] == Obj(tag, car', cdr'))
    {
      hide Forward, Reachable, Collected, AfterCollection;
      var car', cdr';
      car', cdr', order := MakeRoom(tag, car, cdr);
      if allocptr + 1 > fromspace + HEAPSIZE {
        return Null, order;
      }
      ghost var was := cells[..];
      cells[allocptr] := Obj(tag, car', cdr');
      assert cells[..] == was[allocptr := Obj(tag, car', cdr')];
      r := Ref(allocptr);
      allocptr := allocptr + 1;
      if old(allocptr) == old(fromspace) + HEAPSIZE {
        AfterAlloc(tag, car, cdr, car', cdr', old(cells[..]), was, r.addr, cells[r.addr],
                   old(vars[..]), vars[..], roots, fromspace, order);
      }
    }
  }
}
