/**
 The process scheduler of kernel/proc.c: one pass over the process list picks the
 process to run and ages the others.  The list here is the nodes the loop visits.
 */
module Scheduler {
  import opened Counting
  import opened Options

  const PROC_NO_BOOST_PRIORITY := 0x0A
  const PROC_MAX_PRIORITY := 0xFF
  const UINT32 := 0x1_0000_0000

  type Priority = x: int | 0 <= x <= PROC_MAX_PRIORITY
  type Counter = x: int | 0 <= x < UINT32

  datatype State = Unused | Embryo | Sleeping | Runnable | Running | Zombie

  datatype Proc = Proc(state: State, blessed: bool, priority: Priority, skipped: Counter)

  /** May run on this CPU; a reserved CPU runs blessed processes only. */
  predicate Eligible(p: Proc, reserved: bool) { p.state == Runnable && (reserved ==> p.blessed) }

  /** Priority plus skips, in 32 bits, capped; a low priority is never raised. */
  function Effective(p: Proc): Priority {
    var e := if p.priority > PROC_NO_BOOST_PRIORITY then (p.priority + p.skipped) % UINT32 else p.priority;
    if e > PROC_MAX_PRIORITY then PROC_MAX_PRIORITY else e
  }

  function Skip(p: Proc): Proc { p.(skipped := (p.skipped + 1) % UINT32) }

  // ---------- One pass ----------

  /** b is the last process of the first n with the highest effective priority. */
  ghost predicate IsBest(ps: seq<Proc>, reserved: bool, n: nat, b: nat) {
    && b < n <= |ps| && Eligible(ps[b], reserved)
    && forall k :: 0 <= k < n && Eligible(ps[k], reserved) ==>
         Effective(ps[k]) <= Effective(ps[b]) && (b < k ==> Effective(ps[k]) < Effective(ps[b]))
  }

  lemma BestUnique(ps: seq<Proc>, reserved: bool, n: nat, a: nat, b: nat)
    requires IsBest(ps, reserved, n, a) && IsBest(ps, reserved, n, b)
    ensures a == b
  {
    assert Effective(ps[a]) == Effective(ps[b]);
  }

  /** Skips raise a priority above 0x0A, up to 0xFF, exactly as long as their sum is below 2^32; they raise no other. */
  lemma EffectiveExact(p: Proc)
    ensures p.priority <= 0x0A ==> Effective(p) == p.priority
    ensures p.priority > 0x0A ==> (Effective(p) >= p.priority <==> p.priority + p.skipped < 0x1_0000_0000)
    ensures p.priority > 0x0A && p.priority + p.skipped < 0x1_0000_0000 ==>
      Effective(p) == if p.priority + p.skipped > 0xFF then 0xFF else p.priority + p.skipped
  {
  }

  /** A process of priority at most 0x0A is not picked while one of higher priority waits whose sum does not wrap. */
  lemma LowWaits(ps: seq<Proc>, reserved: bool, n: nat, b: nat, k: nat)
    requires IsBest(ps, reserved, n, b) && ps[b].priority <= 0x0A
    requires k < n && ps[k].state == Runnable && (reserved ==> ps[k].blessed)
    requires ps[k].priority > 0x0A ==> ps[k].priority + ps[k].skipped < 0x1_0000_0000
    ensures ps[k].priority <= ps[b].priority
  {
    EffectiveExact(ps[b]);
    EffectiveExact(ps[k]);
    assert Eligible(ps[k], reserved);
  }

  /** Without that it can be: the sum wraps around, and priority 100 loses to priority 5. */
  lemma WrappedLoses()
    ensures IsBest([Proc(Runnable, false, 100, 0xFFFF_FF9C), Proc(Runnable, false, 5, 0)], false, 2, 1)
  {
  }

  function Aged(p: Proc, reserved: bool): Proc { if Eligible(p, reserved) then Skip(p) else p }

  /** After a pass that picked b: b runs with no skips, every other eligible process has one more. */
  function After(ps: seq<Proc>, reserved: bool, b: nat): seq<Proc>
    requires b < |ps|
  {
    seq(|ps|, k requires 0 <= k < |ps| =>
      if k == b then ps[k].(state := Running, skipped := 0) else Aged(ps[k], reserved))
  }

  class Table {
    var procs: seq<Proc>

    constructor (ps: seq<Proc>)
      ensures procs == ps
    {
      procs := ps;
    }

    /** One pass of the loop in scheduler(), up to the switch to the chosen process. */
    method Pass(reserved: bool) returns (best: Option<nat>)
      modifies this
      ensures best == Pick(old(procs), reserved, |old(procs)|)
      ensures best.None? <==> forall k :: 0 <= k < |old(procs)| ==>
        old(procs)[k].state != Runnable || (reserved && !old(procs)[k].blessed)
      ensures best.None? ==> procs == old(procs)
      ensures best.Some? ==>
        IsBest(old(procs), reserved, |old(procs)|, best.value) && procs == After(old(procs), reserved, best.value)
      ensures best.Some? ==> |procs| == |old(procs)|
      ensures best.Some? ==> procs[best.value] == old(procs)[best.value].(state := Running, skipped := 0)
      ensures best.Some? ==> forall k :: 0 <= k < |procs| && k != best.value ==>
        var p := old(procs)[k];
        var waits := p.state == Runnable && (reserved ==> p.blessed);
        procs[k] == if waits then p.(skipped := (p.skipped + 1) % 0x1_0000_0000) else p
    {
      var highest := 0;
      best := None;
      ghost var was := procs;
      var i := 0;
      while i < |procs|
        invariant |procs| == |was| && 0 <= i <= |was|
        invariant best.None? ==> highest == 0 && forall k :: 0 <= k < i ==> !Eligible(was[k], reserved)
        invariant best.Some? ==> IsBest(was, reserved, i, best.value) && highest == Effective(was[best.value])
        invariant forall k :: i <= k < |was| ==> procs[k] == was[k]
        invariant forall k :: 0 <= k < i ==>
          procs[k] == if best == Some(k) then was[k] else Aged(was[k], reserved)
      {
        if Eligible(procs[i], reserved) {
          var e := Effective(procs[i]);
          if e >= highest {
            if best.Some? {
              procs := procs[best.value := Skip(procs[best.value])];
            }
            best, highest := Some(i), e;
          } else {
            procs := procs[i := Skip(procs[i])];
          }
        }
        i := i + 1;
      }
      if best.Some? {
        procs := procs[best.value := procs[best.value].(state := Running, skipped := 0)];
        assert procs == After(was, reserved, best.value);
        BestUnique(was, reserved, |was|, best.value, Pick(was, reserved, |was|).value);
      }
    }
  }

  // ---------- Runs of passes ----------

  /** What a pass picks from the first n processes. */
  function Pick(ps: seq<Proc>, reserved: bool, n: nat): (best: Option<nat>)
    requires n <= |ps|
    ensures best.None? ==> forall k :: 0 <= k < n ==> !Eligible(ps[k], reserved)
    ensures best.Some? ==> IsBest(ps, reserved, n, best.value)
  {
    if n == 0 then None
    else
      var r := Pick(ps, reserved, n - 1);
      if !Eligible(ps[n - 1], reserved) then r
      else if r.None? || Effective(ps[n - 1]) >= Effective(ps[r.value]) then Some(n - 1)
      else r
  }

  /** A pass after which the chosen process has run and is runnable again. */
  function Next(ps: seq<Proc>, reserved: bool): (next: seq<Proc>)
    ensures |next| == |ps|
  {
    var b := Pick(ps, reserved, |ps|);
    if b.None? then ps
    else
      var after := After(ps, reserved, b.value);
      after[b.value := after[b.value].(state := Runnable)]
  }

  /** Process x is picked by one of the next k passes. */
  predicate RunsWithin(ps: seq<Proc>, reserved: bool, x: nat, k: nat)
    decreases k
  {
    k > 0 && (Pick(ps, reserved, |ps|) == Some(x) || RunsWithin(Next(ps, reserved), reserved, x, k - 1))
  }

  function EligibleSet(ps: seq<Proc>, reserved: bool): set<nat> {
    set k | 0 <= k < |ps| && Eligible(ps[k], reserved)
  }

  ghost predicate AtMost(ps: seq<Proc>, reserved: bool, top: Priority) {
    forall k :: 0 <= k < |ps| && Eligible(ps[k], reserved) ==> ps[k].priority <= top
  }

  lemma NextKeeps(ps: seq<Proc>, reserved: bool, top: Priority)
    ensures EligibleSet(Next(ps, reserved), reserved) == EligibleSet(ps, reserved)
    ensures AtMost(ps, reserved, top) ==> AtMost(Next(ps, reserved), reserved, top)
    ensures forall k :: 0 <= k < |ps| ==> Next(ps, reserved)[k].priority == ps[k].priority
  {
    assert forall k :: 0 <= k < |ps| ==>
      Next(ps, reserved)[k].(skipped := 0) == ps[k].(skipped := 0);
  }

  lemma RunsLater(ps: seq<Proc>, reserved: bool, x: nat, k: nat, m: nat)
    requires RunsWithin(ps, reserved, x, k) && k <= m
    ensures RunsWithin(ps, reserved, x, m)
    decreases k
  {
    if Pick(ps, reserved, |ps|) != Some(x) {
      RunsLater(Next(ps, reserved), reserved, x, k - 1, m - 1);
    }
  }

  lemma NextAt(ps: seq<Proc>, reserved: bool, b: nat, k: nat)
    requires Pick(ps, reserved, |ps|) == Some(b) && k < |ps|
    ensures Next(ps, reserved)[k] == if k == b then ps[k].(skipped := 0) else Aged(ps[k], reserved)
  {
  }

  /** While x is at the cap only a process at the cap is picked. */
  lemma CapPicks(ps: seq<Proc>, reserved: bool, x: nat)
    requires x in EligibleSet(ps, reserved) && Effective(ps[x]) == PROC_MAX_PRIORITY
    ensures Pick(ps, reserved, |ps|).Some?
    ensures var b := Pick(ps, reserved, |ps|).value;
      b in EligibleSet(ps, reserved) && Effective(ps[b]) == PROC_MAX_PRIORITY
  {
    assert Eligible(ps[x], reserved);
  }

  /** x has reached the cap and its counter has room for m more skips. */
  predicate Capped(p: Proc, m: nat) {
    p.priority > PROC_NO_BOOST_PRIORITY && PROC_MAX_PRIORITY <= p.priority + p.skipped < UINT32 - m
  }

  lemma BehindCap(p: Proc, top: Priority, m: nat)
    requires p.priority <= top && p.skipped < m && top + m <= PROC_MAX_PRIORITY
    ensures Effective(p) < PROC_MAX_PRIORITY
  {
  }

  lemma AtCap(p: Proc, m: nat, reserved: bool)
    requires Capped(p, m)
    ensures Effective(p) == PROC_MAX_PRIORITY && (m > 0 ==> Capped(Aged(p, reserved), m - 1))
  {
  }

  /**
   Once x is at the cap, a process that runs is too far behind to run again before x: the
   processes in done, which ran last, have had fewer than |done| skips since.
   */
  lemma {:induction false} CapRuns(ps: seq<Proc>, reserved: bool, x: nat, top: Priority, done: set<nat>, left: nat)
    requires x in EligibleSet(ps, reserved) && AtMost(ps, reserved, top)
    requires |EligibleSet(ps, reserved)| == |done| + left && top + |done| + left <= PROC_MAX_PRIORITY + 1
    requires Capped(ps[x], left)
    requires done <= EligibleSet(ps, reserved) - {x}
    requires forall y :: y in done ==> ps[y].skipped < |done|
    ensures RunsWithin(ps, reserved, x, left)
    decreases left
  {
    hide Pick, Next, After, IsBest, Effective, Capped;
    var all := EligibleSet(ps, reserved);
    Subset(done, all - {x});
    assert |all - {x}| == |all| - 1;
    AtCap(ps[x], left, reserved);
    CapPicks(ps, reserved, x);
    var b := Pick(ps, reserved, |ps|).value;
    if b != x {
      var next := Next(ps, reserved);
      NextKeeps(ps, reserved, top);
      if b in done { BehindCap(ps[b], top, |done|); }
      NextAt(ps, reserved, b, x);
      forall y | y in done + {b} ensures next[y].skipped < |done + {b}| { NextAt(ps, reserved, b, y); }
      CapRuns(next, reserved, x, top, done + {b}, left - 1);
    }
  }

  /** Below the cap, x gains one point a pass. */
  lemma {:induction false} Climb(ps: seq<Proc>, reserved: bool, x: nat, top: Priority, gap: nat, n: nat)
    requires x in EligibleSet(ps, reserved) && AtMost(ps, reserved, top)
    requires |EligibleSet(ps, reserved)| == n && top + n <= PROC_MAX_PRIORITY + 1
    requires ps[x].priority > PROC_NO_BOOST_PRIORITY
    requires PROC_MAX_PRIORITY <= ps[x].priority + ps[x].skipped + gap < UINT32 - n
    ensures RunsWithin(ps, reserved, x, gap + n)
    decreases gap
  {
    hide Next, After, IsBest;
    if PROC_MAX_PRIORITY <= ps[x].priority + ps[x].skipped {
      CapRuns(ps, reserved, x, top, {}, n);
      RunsLater(ps, reserved, x, n, gap + n);
    } else {
      var b := Pick(ps, reserved, |ps|);
      assert Eligible(ps[x], reserved);
      assert b.Some?;
      if b != Some(x) {
        NextKeeps(ps, reserved, top);
        NextAt(ps, reserved, b.value, x);
        Climb(Next(ps, reserved), reserved, x, top, gap - 1, n);
      }
    }
  }

  /** x is one of n eligible processes of priority at most top, above the no-boost level. */
  ghost predicate Waiting(ps: seq<Proc>, reserved: bool, x: nat, n: nat, top: Priority) {
    && x in EligibleSet(ps, reserved) && |EligibleSet(ps, reserved)| == n && AtMost(ps, reserved, top)
    && ps[x].priority > PROC_NO_BOOST_PRIORITY && ps[x].skipped < UINT32 / 2
  }

  /** The wait promised to x: until it reaches the cap, then one turn each. */
  function Bound(p: Proc, n: nat): nat { PROC_MAX_PRIORITY - p.priority + n }

  /** Ageing bounds the wait of every process above the no-boost level. */
  lemma BoundedWait(ps: seq<Proc>, reserved: bool, x: nat, n: nat, top: Priority)
    requires Waiting(ps, reserved, x, n, top) && top + n <= PROC_MAX_PRIORITY + 1
    ensures RunsWithin(ps, reserved, x, Bound(ps[x], n))
  {
    Climb(ps, reserved, x, top, PROC_MAX_PRIORITY - ps[x].priority, n);
  }

  // ---------- The hypothesis is exact ----------

  /** The skips of the i-th of r processes that run in turn, after shift turns. */
  function Turn(r: nat, shift: nat, i: nat): nat
    requires shift < r && i < r
  {
    if i + shift < r then i + shift else i + shift - r
  }

  predicate RotatesAt(ps: seq<Proc>, reserved: bool, r: nat, shift: nat, k: nat)
    requires shift < r <= |ps| && |ps| - r <= k < |ps|
  {
    && Eligible(ps[k], reserved) && ps[k].priority == PROC_MAX_PRIORITY + 1 - r
    && ps[k].skipped == Turn(r, shift, k - (|ps| - r))
  }

  /** The last r processes, of priority 256 - r, are each one skip behind the next to run. */
  ghost predicate Rotating(ps: seq<Proc>, reserved: bool, r: nat, shift: nat) {
    && shift < r <= |ps| && PROC_NO_BOOST_PRIORITY < PROC_MAX_PRIORITY + 1 - r
    && forall k :: |ps| - r <= k < |ps| ==> RotatesAt(ps, reserved, r, shift, k)
  }

  lemma RotationPicks(ps: seq<Proc>, reserved: bool, r: nat, shift: nat)
    requires Rotating(ps, reserved, r, shift)
    ensures Pick(ps, reserved, |ps|) == Some(|ps| - 1 - shift)
  {
    var b := |ps| - 1 - shift;
    assert RotatesAt(ps, reserved, r, shift, b);
    forall k | 0 <= k < |ps| && Eligible(ps[k], reserved)
      ensures Effective(ps[k]) <= Effective(ps[b]) && (b < k ==> Effective(ps[k]) < Effective(ps[b]))
    {
      if b < k { assert RotatesAt(ps, reserved, r, shift, k); }
    }
    BestUnique(ps, reserved, |ps|, b, Pick(ps, reserved, |ps|).value);
  }

  lemma RotationGoesOn(ps: seq<Proc>, reserved: bool, r: nat, shift: nat, shift': nat)
    requires Rotating(ps, reserved, r, shift) && shift' == if shift + 1 == r then 0 else shift + 1
    ensures Rotating(Next(ps, reserved), reserved, r, shift')
  {
    hide Next, Pick, RotatesAt;
    RotationPicks(ps, reserved, r, shift);
    forall k | |ps| - r <= k < |ps| ensures RotatesAt(Next(ps, reserved), reserved, r, shift', k) {
      assert RotatesAt(ps, reserved, r, shift, k);
      TurnNext(ps, reserved, r, shift, shift', k);
    }
  }

  lemma TurnNext(ps: seq<Proc>, reserved: bool, r: nat, shift: nat, shift': nat, k: nat)
    requires shift < r <= |ps| && |ps| - r <= k < |ps| && shift' == if shift + 1 == r then 0 else shift + 1
    requires RotatesAt(ps, reserved, r, shift, k) && Pick(ps, reserved, |ps|) == Some(|ps| - 1 - shift)
    ensures RotatesAt(Next(ps, reserved), reserved, r, shift', k)
  {
    hide Next, Pick;
    NextAt(ps, reserved, |ps| - 1 - shift, k);
  }

  /** While the last r take turns, no earlier process runs, ever. */
  lemma {:induction false} Starved(ps: seq<Proc>, reserved: bool, r: nat, shift: nat, x: nat, k: nat)
    requires Rotating(ps, reserved, r, shift) && x < |ps| - r
    ensures !RunsWithin(ps, reserved, x, k)
    decreases k
  {
    if k > 0 {
      RotationPicks(ps, reserved, r, shift);
      var shift' := if shift + 1 == r then 0 else shift + 1;
      RotationGoesOn(ps, reserved, r, shift, shift');
      Starved(Next(ps, reserved), reserved, r, shift', x, k - 1);
    }
  }

  /** n runnable processes of priority top that have not been skipped yet. */
  function Crowd(n: nat, top: Priority): seq<Proc> {
    seq(n, k requires 0 <= k < n => Proc(Runnable, true, top, 0))
  }

  predicate WarmAt(ps: seq<Proc>, top: Priority, j: nat, k: nat)
    requires k < |ps|
  {
    && ps[k].state == Runnable && ps[k].priority == top
    && ps[k].skipped == if k < |ps| - j then j else k - (|ps| - j)
  }

  /** The crowd after j passes: the last j have run, from the end of the list. */
  ghost predicate Warm(ps: seq<Proc>, top: Priority, j: nat) {
    && top > PROC_NO_BOOST_PRIORITY && j <= PROC_MAX_PRIORITY + 1 - top < |ps|
    && forall k :: 0 <= k < |ps| ==> WarmAt(ps, top, j, k)
  }

  lemma WarmPicks(ps: seq<Proc>, top: Priority, j: nat)
    requires Warm(ps, top, j) && j < PROC_MAX_PRIORITY + 1 - top
    ensures Pick(ps, false, |ps|) == Some(|ps| - 1 - j)
  {
    var b := |ps| - 1 - j;
    assert WarmAt(ps, top, j, b);
    forall k | 0 <= k < |ps| && Eligible(ps[k], false)
      ensures Effective(ps[k]) <= Effective(ps[b]) && (b < k ==> Effective(ps[k]) < Effective(ps[b]))
    {
      assert WarmAt(ps, top, j, k);
    }
    BestUnique(ps, false, |ps|, b, Pick(ps, false, |ps|).value);
  }

  lemma WarmsUp(ps: seq<Proc>, top: Priority, j: nat)
    requires Warm(ps, top, j) && j < PROC_MAX_PRIORITY + 1 - top
    ensures Warm(Next(ps, false), top, j + 1)
  {
    hide Next, Pick;
    WarmPicks(ps, top, j);
    var next := j + 1;
    forall k | 0 <= k < |ps| ensures WarmAt(Next(ps, false), top, next, k) {
      assert WarmAt(ps, top, j, k);
      NextAt(ps, false, |ps| - 1 - j, k);
    }
  }

  /** After 256 - top passes the last 256 - top of them run in turn. */
  lemma WarmRotates(ps: seq<Proc>, top: Priority)
    requires Warm(ps, top, PROC_MAX_PRIORITY + 1 - top)
    ensures Rotating(ps, false, PROC_MAX_PRIORITY + 1 - top, 0)
  {
    var r := PROC_MAX_PRIORITY + 1 - top;
    forall k | |ps| - r <= k < |ps| ensures RotatesAt(ps, false, r, 0, k) { assert WarmAt(ps, top, r, k); }
  }

  lemma {:induction false} WarmStarves(ps: seq<Proc>, top: Priority, j: nat, k: nat)
    requires Warm(ps, top, j)
    ensures !RunsWithin(ps, false, 0, k)
    decreases k
  {
    if j == PROC_MAX_PRIORITY + 1 - top {
      WarmRotates(ps, top);
      Starved(ps, false, j, 0, 0, k);
    } else if k > 0 {
      WarmPicks(ps, top, j);
      WarmsUp(ps, top, j);
      WarmStarves(Next(ps, false), top, j + 1, k - 1);
    }
  }

  /** Without the hypothesis the first of a crowd that starts afresh waits for ever. */
  lemma CrowdStarves(n: nat, top: Priority, k: nat)
    requires top > PROC_NO_BOOST_PRIORITY && PROC_MAX_PRIORITY + 1 < top + n
    ensures Waiting(Crowd(n, top), false, 0, n, top) && !RunsWithin(Crowd(n, top), false, 0, k)
  {
    var ps := Crowd(n, top);
    assert EligibleSet(ps, false) == Below(n);
    WarmStarves(ps, top, 0, k);
  }

  /** The bound holds of every crowd of n processes up to priority top exactly when top + n <= 256. */
  lemma BoundExact(n: nat, top: Priority)
    requires top > PROC_NO_BOOST_PRIORITY
    ensures top + n <= PROC_MAX_PRIORITY + 1 <==>
      forall ps, reserved, x :: Waiting(ps, reserved, x, n, top) ==> RunsWithin(ps, reserved, x, Bound(ps[x], n))
  {
    if top + n <= PROC_MAX_PRIORITY + 1 {
      forall ps, reserved, x | Waiting(ps, reserved, x, n, top)
        ensures RunsWithin(ps, reserved, x, Bound(ps[x], n))
      {
        BoundedWait(ps, reserved, x, n, top);
      }
    } else {
      var ps := Crowd(n, top);
      CrowdStarves(n, top, Bound(ps[0], n));
    }
  }
}
