/**
 sleep and wakeup of kernel/proc.c over the spin locks of kernel/spinlock.c, as a
 state machine: any number of processes, any number of conditions, every
 interleaving of steps between lock operations.

 Condition c is protected by lock c and waited for on channel c.  A waiter holds the
 lock, tests the condition and sleeps while it is false; when it finds it true it may make
 it false, and it may stop waiting at any test.  A setter makes the condition true and then
 calls wakeup.
 */
module SleepWakeup {

  datatype Holder = Free | Proc(p: nat) | Scheduler

  /** Where a process stands; c is the condition it deals with. */
  datatype Pc =
    | Idle
    // waiter
    | WantLock(c: nat)                  // acquire(lk)
    | Testing(c: nat)                   // holds lk, about to test the condition
    | SleepCalled(c: nat)               // holds lk, in sleep(): acquire(&ptable.lock)
    | SleepBoth(c: nat)                 // holds lk and ptable.lock: release(lk)
    | SleepTable(c: nat)                // holds ptable.lock: chan = c, state = SLEEPING, sched()
    | Sleeping(c: nat)
    | Runnable(c: nat)                  // woken, not yet scheduled
    | Resumed(c: nat)                   // back from sched(), holds ptable.lock: release it
    // waiter whose lk is ptable.lock itself
    | WantTable(c: nat)                 // acquire(&ptable.lock)
    | TestingTable(c: nat)              // holds ptable.lock, about to test the condition
    // setter
    | WantToSet(c: nat)                 // acquire(lk)
    | Setting(c: nat)                   // holds lk, about to make the condition true
    | MustWake(c: nat, locked: bool)    // has set it; holds lk if locked
    | Waking(c: nat, locked: bool, i: nat)  // holds ptable.lock, wakeup1 has passed i processes
    | Woke(c: nat, locked: bool)        // holds ptable.lock, about to release it
    | SetDone(c: nat)                   // holds lk, about to release it
    // setter whose lk is ptable.lock itself
    | WantTableToSet(c: nat)
    | SettingTable(c: nat)

  /** byTable[c]: condition c is protected by ptable.lock rather than by a lock of its own. */
  datatype State = State(procs: seq<Pc>, cond: seq<bool>, byTable: seq<bool>, lk: seq<Holder>, table: Holder)

  /** A process sleeping on c. */
  predicate Asleep(s: State, p: nat, c: nat) { p < |s.procs| && s.procs[p] == Sleeping(c) }

  /** The process holds the lock of the condition it deals with. */
  predicate HoldsLock(pc: Pc) {
    pc.Testing? || pc.SleepCalled? || pc.SleepBoth? || pc.Setting? || pc.SetDone?
    || ((pc.MustWake? || pc.Waking? || pc.Woke?) && pc.locked)
  }

  predicate HoldsTable(pc: Pc) {
    pc.SleepBoth? || pc.SleepTable? || pc.Resumed? || pc.Waking? || pc.Woke?
    || pc.TestingTable? || pc.SettingTable?
  }

  // ---------- Steps ----------

  datatype Event =
    | Begin(p: nat, c: nat, set_: bool)   // starts to wait for, or to set, condition c
    | Run(p: nat)                         // the next step of process p
    | Consume(p: nat)                     // a waiter that found the condition true makes it false
    | Leave(p: nat)                       // a waiter stops waiting, having consumed or been killed, and releases lk
    | DropFirst(p: nat)                   // a setter releases lk before it calls wakeup
    | SetUnlocked(p: nat, c: nat)         // a setter that ignores the lock
    | Kill(p: nat)                        // kill() makes a sleeping process runnable
    | Dispatch(p: nat)                    // the scheduler, holding ptable.lock, resumes p
    | SchedAcquire | SchedRelease

  predicate Enabled(s: State, e: Event) {
    match e
    case Begin(p, c, _) => p < |s.procs| && s.procs[p] == Idle && c < |s.byTable|
    case Run(p) => p < |s.procs| && CanRun(s, s.procs[p])
    case Consume(p) => p < |s.procs| && (s.procs[p].Testing? || s.procs[p].TestingTable?)
                        && s.procs[p].c < |s.cond| && s.cond[s.procs[p].c]
    case Leave(p) => p < |s.procs| && (s.procs[p].Testing? || s.procs[p].TestingTable?)
    case DropFirst(p) => p < |s.procs| && s.procs[p].MustWake? && s.procs[p].locked
    case SetUnlocked(p, c) => p < |s.procs| && s.procs[p] == Idle && c < |s.cond|
    case Kill(p) => p < |s.procs| && s.procs[p].Sleeping? && s.table == Free
    case Dispatch(p) =>
      p < |s.procs| && s.procs[p].Runnable? && s.procs[p].c < |s.byTable| && s.table == Scheduler
    case SchedAcquire => s.table == Free
    case SchedRelease => s.table == Scheduler
  }

  /** Waiting for a lock, asleep or not scheduled: no step. */
  predicate CanRun(s: State, pc: Pc) {
    match pc
    case Idle => false
    case WantLock(c) => c < |s.lk| && s.lk[c] == Free
    case WantToSet(c) => c < |s.lk| && s.lk[c] == Free
    case WantTable(_) => s.table == Free
    case WantTableToSet(_) => s.table == Free
    case Testing(c) => c < |s.cond|
    case TestingTable(c) => c < |s.cond|
    case SleepCalled(_) => s.table == Free
    case MustWake(_, _) => s.table == Free
    case Sleeping(_) => false
    case Runnable(_) => false
    case Setting(c) => c < |s.cond|
    case SettingTable(c) => c < |s.cond|
    case _ => true
  }

  function SetLock(lk: seq<Holder>, c: nat, h: Holder): seq<Holder> {
    if c < |lk| then lk[c := h] else lk
  }

  function Start(byTable: bool, c: nat, set_: bool): Pc {
    if byTable then if set_ then WantTableToSet(c) else WantTable(c)
    else if set_ then WantToSet(c) else WantLock(c)
  }

  function Apply(s: State, e: Event): State
    requires Enabled(s, e)
  {
    match e
    case Begin(p, c, set_) => s.(procs := s.procs[p := Start(s.byTable[c], c, set_)])
    case Run(p) => RunOne(s, p)
    case Consume(p) => s.(cond := s.cond[s.procs[p].c := false])
    case Leave(p) =>
      if s.procs[p].Testing? then s.(procs := s.procs[p := Idle], lk := SetLock(s.lk, s.procs[p].c, Free))
      else s.(procs := s.procs[p := Idle], table := Free)
    case DropFirst(p) => s.(procs := s.procs[p := MustWake(s.procs[p].c, false)],
        lk := SetLock(s.lk, s.procs[p].c, Free))
    case SetUnlocked(p, c) => s.(procs := s.procs[p := MustWake(c, false)], cond := s.cond[c := true])
    case Kill(p) => s.(procs := s.procs[p := Runnable(s.procs[p].c)])
    case Dispatch(p) =>
      var c := s.procs[p].c;
      s.(procs := s.procs[p := if s.byTable[c] then TestingTable(c) else Resumed(c)], table := Proc(p))
    case SchedAcquire => s.(table := Scheduler)
    case SchedRelease => s.(table := Free)
  }

  /** The state after wakeup1 has looked at process i. */
  function Woken(s: State, i: nat, c: nat): State
    requires i < |s.procs|
  {
    if s.procs[i] == Sleeping(c) then s.(procs := s.procs[i := Runnable(c)]) else s
  }

  /** One turn of wakeup1's loop by process p, or its end. */
  function WakeStep(s: State, p: nat): State
    requires p < |s.procs| && s.procs[p].Waking?
  {
    var pc := s.procs[p];
    if pc.i < |s.procs| then
      var woken := Woken(s, pc.i, pc.c);
      woken.(procs := woken.procs[p := pc.(i := pc.i + 1)])
    else s.(procs := s.procs[p := Woke(pc.c, pc.locked)])
  }

  function RunOne(s: State, p: nat): State
    requires p < |s.procs| && CanRun(s, s.procs[p])
  {
    match s.procs[p]
    case WantLock(c) => s.(procs := s.procs[p := Testing(c)], lk := s.lk[c := Proc(p)])
    case Testing(c) =>
      if s.cond[c] then s.(procs := s.procs[p := Idle], lk := SetLock(s.lk, c, Free))
      else s.(procs := s.procs[p := SleepCalled(c)])
    case SleepCalled(c) => s.(procs := s.procs[p := SleepBoth(c)], table := Proc(p))
    case SleepBoth(c) => s.(procs := s.procs[p := SleepTable(c)], lk := SetLock(s.lk, c, Free))
    case SleepTable(c) => s.(procs := s.procs[p := Sleeping(c)], table := Scheduler)
    case Resumed(c) => s.(procs := s.procs[p := WantLock(c)], table := Free)
    case WantTable(c) => s.(procs := s.procs[p := TestingTable(c)], table := Proc(p))
    case TestingTable(c) =>
      if s.cond[c] then s.(procs := s.procs[p := Idle], table := Free)
      else s.(procs := s.procs[p := Sleeping(c)], table := Scheduler)
    case WantTableToSet(c) => s.(procs := s.procs[p := SettingTable(c)], table := Proc(p))
    case SettingTable(c) => s.(procs := s.procs[p := Waking(c, false, 0)], cond := s.cond[c := true])
    case WantToSet(c) => s.(procs := s.procs[p := Setting(c)], lk := s.lk[c := Proc(p)])
    case Setting(c) => s.(procs := s.procs[p := MustWake(c, true)], cond := s.cond[c := true])
    case MustWake(c, locked) => s.(procs := s.procs[p := Waking(c, locked, 0)], table := Proc(p))
    case Waking(_, _, _) => WakeStep(s, p)
    case Woke(c, locked) => s.(procs := s.procs[p := if locked then SetDone(c) else Idle], table := Free)
    case SetDone(c) => s.(procs := s.procs[p := Idle], lk := SetLock(s.lk, c, Free))
    case _ => s
  }

  // ---------- The invariant ----------

  /** A setter of c that has not yet looked at process p. */
  ghost predicate OnItsWay(pc: Pc, c: nat, p: nat) {
    (pc.MustWake? && pc.c == c) || (pc.Waking? && pc.c == c && pc.i <= p)
  }

  ghost predicate Coming(s: State, c: nat, p: nat) {
    exists q :: 0 <= q < |s.procs| && OnItsWay(s.procs[q], c, p)
  }

  /** Lock fields say who stands where holding what. */
  ghost predicate LocksAgree(s: State) {
    && |s.lk| == |s.cond| == |s.byTable|
    && (forall p :: 0 <= p < |s.procs| ==> Holding(s, s.procs[p], p))
    && (forall c :: 0 <= c < |s.lk| ==>
          s.lk[c] == Free || (s.lk[c].Proc? && s.lk[c].p < |s.procs| && Holds(s.procs[s.lk[c].p], c)))
    && (s.table.Proc? ==> s.table.p < |s.procs| && HoldsTable(s.procs[s.table.p]))
  }

  predicate Holds(pc: Pc, c: nat) { HoldsLock(pc) && pc.c == c }

  predicate Holding(s: State, pc: Pc, p: nat) {
    && (!pc.Idle? ==> pc.c < |s.cond|)
    && (HoldsLock(pc) ==> pc.c < |s.lk| && s.lk[pc.c] == Proc(p))
    && (HoldsTable(pc) ==> s.table == Proc(p))
  }

  /** Each condition is tested and set under its own lock. */
  predicate OwnLock(pc: Pc) {
    pc.WantLock? || pc.Testing? || pc.SleepCalled? || pc.SleepBoth? || pc.SleepTable? || pc.Resumed?
    || pc.WantToSet? || pc.Setting?
  }

  predicate TableLock(pc: Pc) {
    pc.WantTable? || pc.TestingTable? || pc.WantTableToSet? || pc.SettingTable?
  }

  predicate DisciplinedAt(s: State, pc: Pc) {
    !pc.Idle? && pc.c < |s.byTable| ==>
      (OwnLock(pc) ==> !s.byTable[pc.c]) && (TableLock(pc) ==> s.byTable[pc.c])
  }

  ghost predicate Disciplined(s: State) {
    forall p :: 0 <= p < |s.procs| ==> DisciplinedAt(s, s.procs[p])
  }

  /** What holds of process p, about to sleep or asleep, when its condition is true. */
  ghost predicate NotMissed(s: State, p: nat)
    requires p < |s.procs| && !s.procs[p].Idle?
  {
    && !s.procs[p].SleepCalled? && !s.procs[p].SleepBoth?
    && (s.procs[p].SleepTable? || s.procs[p].Sleeping? ==> Coming(s, s.procs[p].c, p))
  }

  /**
   From its test of the condition to its sleep, and while it sleeps, a waiter's condition
   is false or a setter is coming for it.
   */
  ghost predicate NobodyMissed(s: State) {
    forall p :: 0 <= p < |s.procs| && !s.procs[p].Idle? && s.procs[p].c < |s.cond| && s.cond[s.procs[p].c] ==>
      NotMissed(s, p)
  }

  ghost predicate Inv(s: State) { LocksAgree(s) && Disciplined(s) && NobodyMissed(s) }

  // ---------- Every step keeps the locks consistent ----------

  /** What happens to one lock h when process p moves from holding it or not to holding it or not. */
  predicate HolderMove(p: nat, held: bool, h: Holder, holds: bool, h': Holder) {
    if held then h == Proc(p) && (if holds then h' == h else h' == Free || h' == Scheduler)
    else if holds then (h == Free || h == Scheduler) && h' == Proc(p)
    else h' == h || ((h == Free || h == Scheduler) && (h' == Free || h' == Scheduler))
  }

  /** Process p moves, taking or dropping the lock of its condition or ptable.lock. */
  predicate LockMove(s: State, t: State, p: nat)
    requires p < |s.procs|
  {
    && |t.procs| == |s.procs| && t.procs == s.procs[p := t.procs[p]]
    && |t.lk| == |s.lk| && |t.cond| == |s.cond| && t.byTable == s.byTable
    && (HoldsLock(s.procs[p]) && HoldsLock(t.procs[p]) ==> s.procs[p].c == t.procs[p].c)
    && (t.procs[p].Idle? || t.procs[p].c < |s.lk|)
    && t.lk == LocksAfter(s, t.procs[p], p)
    && (!HoldsLock(s.procs[p]) && HoldsLock(t.procs[p]) ==> s.lk[t.procs[p].c] == Free)
    && HolderMove(p, HoldsTable(s.procs[p]), s.table, HoldsTable(t.procs[p]), t.table)
  }

  function LocksAfter(s: State, pc: Pc, p: nat): seq<Holder>
    requires p < |s.procs| && (pc.Idle? || pc.c < |s.lk|)
  {
    if HoldsLock(pc) then s.lk[pc.c := Proc(p)]
    else if HoldsLock(s.procs[p]) then SetLock(s.lk, s.procs[p].c, Free)
    else s.lk
  }

  lemma MoveKeepsLocks(s: State, t: State, p: nat)
    requires p < |s.procs| && LocksAgree(s) && LockMove(s, t, p)
    ensures LocksAgree(t)
  {
    assert Holding(s, s.procs[p], p);
    forall q | 0 <= q < |t.procs| ensures Holding(t, t.procs[q], q) {
      assert Holding(s, s.procs[q], q);
    }
  }

  lemma WokenKeepsLocks(s: State, i: nat, c: nat)
    requires i < |s.procs| && LocksAgree(s)
    ensures LocksAgree(Woken(s, i, c))
  {
    if s.procs[i] == Sleeping(c) {
      assert Holding(s, s.procs[i], i);
      MoveKeepsLocks(s, Woken(s, i, c), i);
    }
  }

  lemma RunMoves(s: State, p: nat)
    requires LocksAgree(s) && Enabled(s, Run(p)) && !s.procs[p].Waking?
    ensures LockMove(s, RunOne(s, p), p)
  {
    assert Holding(s, s.procs[p], p);
  }

  lemma WakeStepKeepsLocks(s: State, p: nat)
    requires p < |s.procs| && s.procs[p].Waking? && LocksAgree(s)
    ensures LocksAgree(WakeStep(s, p))
  {
    var pc := s.procs[p];
    var mid := if pc.i < |s.procs| then Woken(s, pc.i, pc.c) else s;
    if pc.i < |s.procs| { WokenKeepsLocks(s, pc.i, pc.c); }
    assert Holding(mid, mid.procs[p], p);
    MoveKeepsLocks(mid, WakeStep(s, p), p);
  }

  lemma EventMoves(s: State, e: Event)
    requires LocksAgree(s) && Enabled(s, e) && !e.Run? && !e.SchedAcquire? && !e.SchedRelease?
    ensures e.p < |s.procs| && LockMove(s, Apply(s, e), e.p)
  {
    assert Holding(s, s.procs[e.p], e.p);
  }

  lemma StepKeepsLocks(s: State, e: Event)
    requires LocksAgree(s) && Enabled(s, e)
    ensures LocksAgree(Apply(s, e))
  {
    match e
    case Run(p) =>
      hide LocksAgree, LockMove;
      if s.procs[p].Waking? {
        WakeStepKeepsLocks(s, p);
      } else {
        RunMoves(s, p);
        MoveKeepsLocks(s, RunOne(s, p), p);
      }
    case SchedAcquire =>
    case SchedRelease =>
    case _ =>
      hide LocksAgree, LockMove;
      EventMoves(s, e);
      MoveKeepsLocks(s, Apply(s, e), e.p);
  }

  // ---------- Every step keeps the discipline ----------

  lemma WakeStepPcs(s: State, p: nat, q: nat)
    requires p < |s.procs| && s.procs[p].Waking? && q < |s.procs|
    ensures |WakeStep(s, p).procs| == |s.procs| && WakeStep(s, p) == s.(procs := WakeStep(s, p).procs)
    ensures q != p ==> Untouched(s.procs[q], WakeStep(s, p).procs[q])
  {
  }

  /** A process that does not move stays where it is, or is woken. */
  predicate Untouched(pc: Pc, pc': Pc) { pc' == pc || (pc.Sleeping? && pc' == Runnable(pc.c)) }

  predicate Moves(e: Event, q: nat) { !e.SchedAcquire? && !e.SchedRelease? && e.p == q }

  lemma StepOthers(s: State, e: Event, q: nat)
    requires Enabled(s, e) && q < |s.procs| && !Moves(e, q)
    ensures |Apply(s, e).procs| == |s.procs| && Untouched(s.procs[q], Apply(s, e).procs[q])
  {
    hide WakeStep;
    if e.Run? && s.procs[e.p].Waking? { WakeStepPcs(s, e.p, q); }
  }

  lemma StepPcs(s: State, e: Event, q: nat)
    requires Enabled(s, e) && q < |s.procs|
    ensures |Apply(s, e).procs| == |s.procs| && Apply(s, e).byTable == s.byTable
    ensures DisciplinedAt(s, s.procs[q]) ==> DisciplinedAt(s, Apply(s, e).procs[q])
  {
    if e.Run? && s.procs[e.p].Waking? { WakeStepPcs(s, e.p, q); }
  }

  // ---------- Every step keeps setters coming ----------

  predicate Dozing(pc: Pc, c: nat) { pc == SleepTable(c) || pc == Sleeping(c) }

  /** A setter moves on towards q until it has woken q. */
  lemma SetterMoves(s: State, e: Event, w: nat, c: nat, q: nat)
    requires LocksAgree(s) && Enabled(s, e) && q < |s.procs| && w < |s.procs| && Moves(e, w)
    requires OnItsWay(s.procs[w], c, q) && Dozing(s.procs[q], c) && Dozing(Apply(s, e).procs[q], c)
    ensures |Apply(s, e).procs| == |s.procs| && OnItsWay(Apply(s, e).procs[w], c, q)
  {
    assert Holding(s, s.procs[q], q) && Holding(s, s.procs[w], w);
    hide LocksAgree;
  }

  lemma StillOnItsWay(s: State, e: Event, w: nat, c: nat, q: nat)
    requires LocksAgree(s) && Enabled(s, e) && q < |s.procs| && w < |s.procs|
    requires OnItsWay(s.procs[w], c, q) && Dozing(s.procs[q], c) && Dozing(Apply(s, e).procs[q], c)
    ensures |Apply(s, e).procs| == |s.procs| && OnItsWay(Apply(s, e).procs[w], c, q)
  {
    hide Apply, Enabled, LocksAgree;
    if Moves(e, w) { SetterMoves(s, e, w, c, q); } else { StepOthers(s, e, w); }
  }

  /** Only a setter holding the lock makes a condition true, and it is then on its way to everyone. */
  lemma CondStep(s: State, e: Event, c: nat, q: nat)
    requires Enabled(s, e) && !e.SetUnlocked? && c < |s.cond|
    ensures |Apply(s, e).cond| == |s.cond|
    ensures Apply(s, e).cond[c] && !s.cond[c] ==>
      && e.Run? && e.p < |s.procs| && (s.procs[e.p] == Setting(c) || s.procs[e.p] == SettingTable(c))
      && Apply(s, e).procs == s.procs[e.p := Apply(s, e).procs[e.p]]
      && OnItsWay(Apply(s, e).procs[e.p], c, q)
  {
  }

  /** Where a process that is about to sleep on c, or asleep, came from. */
  predicate CameFrom(pc: Pc, pc': Pc, c: nat, set_: bool) {
    && (Dozing(pc', c) ==> Dozing(pc, c) || pc == SleepBoth(c) || (pc == TestingTable(c) && !set_))
    && (pc' == SleepBoth(c) ==> pc == SleepBoth(c) || pc == SleepCalled(c))
    && (pc' == SleepCalled(c) ==> pc == SleepCalled(c) || (pc == Testing(c) && !set_))
  }

  lemma DozeMoves(s: State, e: Event, c: nat)
    requires Enabled(s, e) && c < |s.cond| && !e.SchedAcquire? && !e.SchedRelease?
    ensures |Apply(s, e).procs| == |s.procs| && e.p < |s.procs|
    ensures CameFrom(s.procs[e.p], Apply(s, e).procs[e.p], c, s.cond[c])
  {
  }

  lemma DozeStep(s: State, e: Event, c: nat, q: nat)
    requires Enabled(s, e) && q < |s.procs| && c < |s.cond|
    ensures |Apply(s, e).procs| == |s.procs| && CameFrom(s.procs[q], Apply(s, e).procs[q], c, s.cond[c])
  {
    hide Apply, Enabled;
    if Moves(e, q) { DozeMoves(s, e, c); } else { StepOthers(s, e, q); }
  }

  lemma MissedAt(s: State, e: Event, q: nat)
    requires Inv(s) && Enabled(s, e) && !e.SetUnlocked? && q < |s.procs|
    requires |Apply(s, e).procs| == |s.procs| && |Apply(s, e).cond| == |s.cond|
    requires !Apply(s, e).procs[q].Idle? && Apply(s, e).procs[q].c < |s.cond|
    requires Apply(s, e).cond[Apply(s, e).procs[q].c]
    ensures NotMissed(Apply(s, e), q)
  {
    hide Apply, Enabled;
    var t, c := Apply(s, e), Apply(s, e).procs[q].c;
    CondStep(s, e, c, q);
    DozeStep(s, e, c, q);
    assert Holding(s, s.procs[q], q) && DisciplinedAt(s, s.procs[q]);
    if s.cond[c] {
      if Dozing(t.procs[q], c) {
        var w :| 0 <= w < |s.procs| && OnItsWay(s.procs[w], c, q);
        StillOnItsWay(s, e, w, c, q);
      }
    } else {
      assert Holding(s, s.procs[e.p], e.p) && DisciplinedAt(s, s.procs[e.p]);
    }
  }

  lemma StepKeeps(s: State, e: Event)
    requires Inv(s) && Enabled(s, e) && !e.SetUnlocked?
    ensures Inv(Apply(s, e))
  {
    hide Apply, Enabled;
    var t := Apply(s, e);
    StepKeepsLocks(s, e);
    forall q | 0 <= q < |t.procs| ensures DisciplinedAt(t, t.procs[q]) {
      StepSize(s, e);
      StepPcs(s, e, q);
    }
    forall q | 0 <= q < |t.procs| && !t.procs[q].Idle? && t.procs[q].c < |t.cond| && t.cond[t.procs[q].c]
      ensures NotMissed(t, q)
    {
      StepSize(s, e);
      MissedAt(s, e, q);
    }
  }

  lemma StepSize(s: State, e: Event)
    requires Enabled(s, e)
    ensures |Apply(s, e).procs| == |s.procs| && |Apply(s, e).cond| == |s.cond|
  {
  }

  // ---------- Runs ----------

  /** Nobody runs, no lock is held; the conditions are as they may be. */
  ghost predicate Initial(s: State) {
    && |s.lk| == |s.cond| == |s.byTable| && s.table == Free
    && (forall p :: 0 <= p < |s.procs| ==> s.procs[p] == Idle)
    && (forall c :: 0 <= c < |s.lk| ==> s.lk[c] == Free)
  }

  /** t is reached from s by the events, each possible when it happens. */
  ghost predicate Reaches(s: State, events: seq<Event>, t: State)
    decreases |events|
  {
    if events == [] then s == t else Enabled(s, events[0]) && Reaches(Apply(s, events[0]), events[1..], t)
  }

  lemma {:induction false} RunKeeps(s: State, events: seq<Event>, t: State)
    requires Inv(s) && Reaches(s, events, t)
    requires forall k :: 0 <= k < |events| ==> !events[k].SetUnlocked?
    ensures Inv(t)
    decreases |events|
  {
    if events != [] {
      StepKeeps(s, events[0]);
      RunKeeps(Apply(s, events[0]), events[1..], t);
    }
  }

  /**
   No lost wakeup: whatever the processes do and however their steps interleave, when a
   condition is true and a process sleeps on its channel, some setter has not yet called
   wakeup, or is in it and has not yet reached that process.
   */
  lemma NoLostWakeup(s: State, events: seq<Event>, t: State, p: nat, c: nat)
    requires Initial(s) && Reaches(s, events, t)
    requires forall k :: 0 <= k < |events| ==> !events[k].SetUnlocked?
    requires c < |t.cond| && t.cond[c] && Asleep(t, p, c)
    ensures exists q :: 0 <= q < |t.procs| && OnItsWay(t.procs[q], c, p)
  {
    RunKeeps(s, events, t);
    assert NotMissed(t, p);
  }

  /** Locks exclude: at most one process stands at a place that holds a given lock. */
  lemma MutualExclusion(s: State, events: seq<Event>, t: State, p: nat, q: nat)
    requires Initial(s) && Reaches(s, events, t)
    requires forall k :: 0 <= k < |events| ==> !events[k].SetUnlocked?
    requires p < |t.procs| && q < |t.procs|
    requires (HoldsTable(t.procs[p]) && HoldsTable(t.procs[q]))
             || (HoldsLock(t.procs[p]) && HoldsLock(t.procs[q]) && t.procs[p].c == t.procs[q].c)
    ensures p == q
  {
    RunKeeps(s, events, t);
    assert Holding(t, t.procs[p], p) && Holding(t, t.procs[q], q);
  }

  // ---------- Delivery ----------

  /** Process p sleeps on c from s on, through every event. */
  ghost predicate SleepsOn(s: State, events: seq<Event>, p: nat, c: nat)
    decreases |events|
  {
    && Asleep(s, p, c)
    && (events != [] ==> Enabled(s, events[0]) && SleepsOn(Apply(s, events[0]), events[1..], p, c))
  }

  /** The steps that process w takes. */
  ghost function Steps(events: seq<Event>, w: nat): nat {
    if events == [] then 0 else (if events[0] == Run(w) then 1 else 0) + Steps(events[1..], w)
  }

  /** How many more steps a setter takes until it has dealt with process p. */
  ghost function Distance(pc: Pc, p: nat): nat {
    if pc.MustWake? then p + 2 else if pc.Waking? && pc.i <= p then p + 1 - pc.i else 0
  }

  lemma SetterNears(s: State, e: Event, w: nat, c: nat, p: nat)
    requires LocksAgree(s) && Enabled(s, e) && w < |s.procs| && OnItsWay(s.procs[w], c, p)
    requires Asleep(s, p, c) && Asleep(Apply(s, e), p, c)
    ensures |Apply(s, e).procs| == |s.procs| && OnItsWay(Apply(s, e).procs[w], c, p)
    ensures Distance(Apply(s, e).procs[w], p) + (if e == Run(w) then 1 else 0) <= Distance(s.procs[w], p)
  {
    StillOnItsWay(s, e, w, c, p);
    if !Moves(e, w) { StepOthers(s, e, w); }
  }

  /**
   The setter that NoLostWakeup names delivers: in no run that goes on from there does it take
   its remaining steps, p + 2 at most, while process p sleeps on.
   */
  lemma {:induction false} WakeupDelivered(s: State, events: seq<Event>, w: nat, c: nat, p: nat)
    requires LocksAgree(s) && SleepsOn(s, events, p, c) && w < |s.procs| && OnItsWay(s.procs[w], c, p)
    ensures Steps(events, w) < Distance(s.procs[w], p) <= p + 2
    decreases |events|
  {
    if events != [] {
      var t := Apply(s, events[0]);
      StepKeepsLocks(s, events[0]);
      SetterNears(s, events[0], w, c, p);
      WakeupDelivered(t, events[1..], w, c, p);
    }
  }

  // ---------- How a wait ends ----------

  /** Somewhere between acquire(lk) and the end of the wait for c. */
  predicate Waits(pc: Pc, c: nat) {
    !pc.Idle? && pc.c == c &&
    (pc.WantLock? || pc.Testing? || pc.SleepCalled? || pc.SleepBoth? || pc.SleepTable? || pc.Sleeping? || pc.Runnable?
     || pc.Resumed? || pc.WantTable? || pc.TestingTable?)
  }

  /** Process p is about to test condition c and holds the lock of c. */
  predicate TestsLocked(s: State, p: nat, c: nat) {
    p < |s.procs| &&
    ((s.procs[p] == Testing(c) && c < |s.lk| && s.lk[c] == Proc(p))
     || (s.procs[p] == TestingTable(c) && s.table == Proc(p)))
  }

  /** A step takes a waiter out of its wait only from a test under the lock. */
  lemma WaitEnds(s: State, e: Event, p: nat, c: nat)
    requires LocksAgree(s) && Enabled(s, e) && p < |s.procs| && Waits(s.procs[p], c)
    ensures |Apply(s, e).procs| == |s.procs|
    ensures Waits(Apply(s, e).procs[p], c) || (Apply(s, e).procs[p] == Idle && TestsLocked(s, p, c))
  {
    assert Holding(s, s.procs[p], p);
    hide LocksAgree;
    if !Moves(e, p) { StepOthers(s, e, p); }
  }

  /** events[..k] lead from s to a state in which p tests c under the lock. */
  ghost predicate TestsAfter(s: State, events: seq<Event>, k: nat, p: nat, c: nat)
    decreases k
  {
    k <= |events| &&
    (if k == 0 then TestsLocked(s, p, c)
     else Enabled(s, events[0]) && TestsAfter(Apply(s, events[0]), events[1..], k - 1, p, c))
  }

  /**
   How sleep() returns: in every run, a process that waits for c, asleep or anywhere else in its
   wait, is idle again only after it has stood at its test of c holding the lock of c.
   */
  lemma {:induction false} TestsBeforeLeaving(s: State, events: seq<Event>, t: State, p: nat, c: nat) returns (k: nat)
    requires LocksAgree(s) && Reaches(s, events, t) && p < |s.procs| && Waits(s.procs[p], c)
    requires p < |t.procs| && t.procs[p] == Idle
    ensures k < |events| && TestsAfter(s, events, k, p, c)
    decreases |events|
  {
    WaitEnds(s, events[0], p, c);
    StepKeepsLocks(s, events[0]);
    if Waits(Apply(s, events[0]).procs[p], c) {
      k := TestsBeforeLeaving(Apply(s, events[0]), events[1..], t, p, c);
      k := k + 1;
    } else {
      k := 0;
    }
  }

  /** A woken process can get there: the scheduler takes it on, and it takes the lock again and tests. */
  lemma WokenTestsAgain(s: State, p: nat, c: nat)
    requires LocksAgree(s) && p < |s.procs| && s.procs[p] == Runnable(c) && s.table == Free && s.lk[c] == Free
    ensures var events := [SchedAcquire, Dispatch(p)] + if s.byTable[c] then [] else [Run(p), Run(p)];
            TestsAfter(s, events, |events|, p, c)
  {
    assert c < |s.cond| == |s.lk| == |s.byTable|;
    hide LocksAgree;
    var a := Apply(s, SchedAcquire);
    var b := Apply(a, Dispatch(p));
    var rest := if s.byTable[c] then [] else [Run(p), Run(p)];
    var events := [SchedAcquire, Dispatch(p)] + rest;
    assert events[1..] == [Dispatch(p)] + rest;
    assert ([Dispatch(p)] + rest)[1..] == rest;
    if s.byTable[c] {
      assert TestsAfter(b, [], 0, p, c);
    } else {
      var d := Apply(b, Run(p));
      assert d.procs[p] == WantLock(c) && d.lk == s.lk;
      assert [Run(p), Run(p)][1..] == [Run(p)] && [Run(p)][1..] == [];
      assert TestsAfter(Apply(d, Run(p)), [], 0, p, c);
      assert TestsAfter(d, [Run(p)], 1, p, c);
      assert TestsAfter(b, rest, 2, p, c);
    }
    assert TestsAfter(a, [Dispatch(p)] + rest, 1 + |rest|, p, c);
  }

  /** A waiter that finds its condition false is asleep after its own steps, with the lock released. */
  lemma FalseSleeps(s: State, p: nat, c: nat)
    requires LocksAgree(s) && TestsLocked(s, p, c) && !s.cond[c] && (s.procs[p].Testing? ==> s.table == Free)
    ensures var k := if s.procs[p].Testing? then 4 else 1;
            Reaches(s, Times(p, k), s.(procs := s.procs[p := Sleeping(c)], table := Scheduler,
                                       lk := if s.procs[p].Testing? then s.lk[c := Free] else s.lk))
  {
    assert Holding(s, s.procs[p], p);
    hide LocksAgree, Reaches, Times;
    var t := s.(procs := s.procs[p := Sleeping(c)], table := Scheduler,
                lk := if s.procs[p].Testing? then s.lk[c := Free] else s.lk);
    NoStepsOf(p, t);
    if s.procs[p].Testing? {
      var a := s.(procs := s.procs[p := SleepCalled(c)]);
      var b := s.(procs := s.procs[p := SleepBoth(c)], table := Proc(p));
      var d := s.(procs := s.procs[p := SleepTable(c)], table := Proc(p), lk := s.lk[c := Free]);
      RunsOn(d, p, t, 0, t);
      RunsOn(b, p, d, 1, t);
      RunsOn(a, p, b, 2, t);
      RunsOn(s, p, a, 3, t);
    } else {
      RunsOn(s, p, t, 0, t);
    }
  }

  lemma NoStepsOf(p: nat, t: State)
    ensures Reaches(t, Times(p, 0), t)
  {
  }

  /**
   kill() can make any sleeping process runnable, a setter can release the lock before it wakes
   anyone, and the scheduler can take ptable.lock and release it.
   */
  lemma OtherSteps(s: State, p: nat, c: nat)
    requires p < |s.procs|
    ensures s.table == Scheduler ==> Enabled(s, SchedRelease) && Apply(s, SchedRelease) == s.(table := Free)
    ensures s.table == Free ==> Enabled(s, SchedAcquire) && Apply(s, SchedAcquire) == s.(table := Scheduler)
    ensures s.procs[p] == Sleeping(c) && s.table == Free ==>
              Enabled(s, Kill(p)) && Apply(s, Kill(p)) == s.(procs := s.procs[p := Runnable(c)])
    ensures s.procs[p] == MustWake(c, true) && c < |s.lk| ==>
              && Enabled(s, DropFirst(p))
              && Apply(s, DropFirst(p)) == s.(procs := s.procs[p := MustWake(c, false)], lk := s.lk[c := Free])
  {
  }

  // ---------- Runs that exist ----------

  lemma Prepend(s: State, e: Event, m: State, rest: seq<Event>, t: State)
    requires Enabled(s, e) && Apply(s, e) == m && (if rest == [] then m == t else Reaches(m, rest, t))
    ensures Reaches(s, [e] + rest, t)
  {
    assert ([e] + rest)[1..] == rest;
  }

  /** The run that follows begins with the waiter's test of the condition. */
  lemma FindsItFalse(s: State, m: State, rest: seq<Event>, t: State)
    requires s == State([Idle, Idle], [false], [false], [Free], Free)
    requires m == State([SleepCalled(0), Idle], [false], [false], [Proc(0)], Free)
    requires rest != [] && Reaches(m, rest, t)
    ensures exists events :: Reaches(s, events, t)
  {
    hide Reaches;
    var testing := State([Testing(0), Idle], [false], [false], [Proc(0)], Free);
    var want := State([WantLock(0), Idle], [false], [false], [Free], Free);
    Prepend(testing, Run(0), m, rest, t);
    Prepend(want, Run(0), testing, [Run(0)] + rest, t);
    Prepend(s, Begin(0, 0, false), want, [Run(0)] + ([Run(0)] + rest), t);
  }

  /** The waiter's half of the rest: it has tested the condition and goes on to sleep. */
  lemma FallsAsleep(s: State, t: State)
    requires s == State([SleepCalled(0), Idle], [true], [false], [Proc(0)], Free)
    requires t == State([Sleeping(0), Idle], [true], [false], [Free], Scheduler)
    ensures exists events :: events != [] && Reaches(s, events, t)
  {
    hide Reaches;
    var a := State([SleepBoth(0), Idle], [true], [false], [Proc(0)], Proc(0));
    var b := State([SleepTable(0), Idle], [true], [false], [Free], Proc(0));
    Prepend(b, Run(0), t, [], t);
    Prepend(a, Run(0), b, [Run(0)] + [], t);
    Prepend(s, Run(0), a, [Run(0)] + ([Run(0)] + []), t);
  }

  /** The setter's half: it comes to the end of wakeup. */
  lemma EndsWakeup(s: State, m: State, rest: seq<Event>, t: State)
    requires s == State([SleepCalled(0), Waking(0, false, 2)], [true], [false], [Proc(0)], Proc(1))
    requires m == State([SleepCalled(0), Idle], [true], [false], [Proc(0)], Free)
    requires rest != [] && Reaches(m, rest, t)
    ensures exists events :: events != [] && Reaches(s, events, t)
  {
    hide Reaches;
    var woke := s.(procs := [SleepCalled(0), Woke(0, false)]);
    Prepend(woke, Run(1), m, rest, t);
    Prepend(s, Run(1), woke, [Run(1)] + rest, t);
  }

  /** Before that, wakeup finds nobody asleep. */
  lemma WakesNobody(s: State, m: State, rest: seq<Event>, t: State)
    requires s == State([SleepCalled(0), Waking(0, false, 0)], [true], [false], [Proc(0)], Proc(1))
    requires m == s.(procs := [SleepCalled(0), Waking(0, false, 2)])
    requires rest != [] && Reaches(m, rest, t)
    ensures exists events :: events != [] && Reaches(s, events, t)
  {
    hide Reaches;
    var one := s.(procs := [SleepCalled(0), Waking(0, false, 1)]);
    Prepend(one, Run(1), m, rest, t);
    Prepend(s, Run(1), one, [Run(1)] + rest, t);
  }

  /** Before that, it sets the condition without the lock. */
  lemma SetsUnlocked(s: State, m: State, rest: seq<Event>, t: State)
    requires s == State([SleepCalled(0), Idle], [false], [false], [Proc(0)], Free)
    requires m == State([SleepCalled(0), Waking(0, false, 0)], [true], [false], [Proc(0)], Proc(1))
    requires rest != [] && Reaches(m, rest, t)
    ensures exists events :: events != [] && Reaches(s, events, t)
  {
    hide Reaches;
    var set_ := State([SleepCalled(0), MustWake(0, false)], [true], [false], [Proc(0)], Free);
    Prepend(set_, Run(1), m, rest, t);
    Prepend(s, SetUnlocked(1, 0), set_, [Run(1)] + rest, t);
  }

  /** Process p takes k steps. */
  function Times(p: nat, k: nat): seq<Event> { if k == 0 then [] else [Run(p)] + Times(p, k - 1) }

  lemma RunsOn(s: State, p: nat, m: State, k: nat, t: State)
    requires Enabled(s, Run(p)) && Apply(s, Run(p)) == m && Reaches(m, Times(p, k), t)
    ensures Reaches(s, Times(p, k + 1), t)
  {
    hide Reaches;
    if k == 0 { assert m == t by { NoEvents(m, t); } }
    Prepend(s, Run(p), m, Times(p, k), t);
  }

  lemma NoEvents(m: State, t: State)
    ensures Reaches(m, [], t) <==> m == t
  {
  }

  /** wakeup by process 1 while process 0 sleeps on the condition. */
  lemma WakesSleeper(s: State, locked: bool, k: nat, t: State)
    requires s.procs == [Sleeping(0), Waking(0, locked, 0)] && s.table == Proc(1)
    requires Reaches(s.(procs := [Runnable(0), Woke(0, locked)]), Times(1, k), t)
    ensures Reaches(s, Times(1, k + 3), t)
  {
    hide Reaches;
    var b := s.(procs := [Runnable(0), Waking(0, locked, 1)]);
    var c := s.(procs := [Runnable(0), Waking(0, locked, 2)]);
    RunsOn(c, 1, s.(procs := [Runnable(0), Woke(0, locked)]), k, t);
    RunsOn(b, 1, c, k + 1, t);
    RunsOn(s, 1, b, k + 2, t);
  }

  /** The world of the two runs that follow. */
  function Two(a: Pc, b: Pc, cond: bool, byTable: bool, lk: Holder, table: Holder): State {
    State([a, b], [cond], [byTable], [lk], table)
  }

  /** A setter under the lock of the condition wakes the sleeper and ends. */
  lemma SetterWakes()
    ensures Reaches(Two(Sleeping(0), Idle, false, false, Free, Free), [Begin(1, 0, true)] + Times(1, 8),
                    Two(Runnable(0), Idle, true, false, Free, Free))
  {
    hide Reaches, Times;
    var t := Two(Runnable(0), Idle, true, false, Free, Free);
    var done := Two(Runnable(0), SetDone(0), true, false, Proc(1), Free);
    var waking := Two(Sleeping(0), Waking(0, true, 0), true, false, Proc(1), Proc(1));
    NoStepsOf(1, t);
    RunsOn(done, 1, t, 0, t);
    RunsOn(Two(Runnable(0), Woke(0, true), true, false, Proc(1), Proc(1)), 1, done, 1, t);
    WakesSleeper(waking, true, 2, t);
    SetterStarts(waking, t);
  }

  lemma SetterStarts(waking: State, t: State)
    requires waking == Two(Sleeping(0), Waking(0, true, 0), true, false, Proc(1), Proc(1))
    requires Reaches(waking, Times(1, 5), t)
    ensures Reaches(Two(Sleeping(0), Idle, false, false, Free, Free), [Begin(1, 0, true)] + Times(1, 8), t)
  {
    hide Reaches, Times;
    var must := Two(Sleeping(0), MustWake(0, true), true, false, Proc(1), Free);
    var setting := Two(Sleeping(0), Setting(0), false, false, Proc(1), Free);
    var want := Two(Sleeping(0), WantToSet(0), false, false, Free, Free);
    RunsOn(must, 1, waking, 5, t);
    RunsOn(setting, 1, must, 6, t);
    RunsOn(want, 1, setting, 7, t);
    StepsFirst(8);
    Prepend(Two(Sleeping(0), Idle, false, false, Free, Free), Begin(1, 0, true), want, Times(1, 8), t);
  }

  lemma StepsFirst(k: nat)
    requires k > 0
    ensures Times(1, k) != []
  {
  }

  /** So does one under ptable.lock. */
  lemma TableSetterWakes()
    ensures Reaches(Two(Sleeping(0), Idle, false, true, Free, Free), [Begin(1, 0, true)] + Times(1, 6),
                    Two(Runnable(0), Idle, true, true, Free, Free))
  {
    hide Reaches, Times;
    var t := Two(Runnable(0), Idle, true, true, Free, Free);
    var waking := Two(Sleeping(0), Waking(0, false, 0), true, true, Free, Proc(1));
    NoStepsOf(1, t);
    RunsOn(Two(Runnable(0), Woke(0, false), true, true, Free, Proc(1)), 1, t, 0, t);
    WakesSleeper(waking, false, 1, t);
    TableSetterStarts(waking, t);
  }

  lemma TableSetterStarts(waking: State, t: State)
    requires waking == Two(Sleeping(0), Waking(0, false, 0), true, true, Free, Proc(1))
    requires Reaches(waking, Times(1, 4), t)
    ensures Reaches(Two(Sleeping(0), Idle, false, true, Free, Free), [Begin(1, 0, true)] + Times(1, 6), t)
  {
    hide Reaches, Times;
    var setting := Two(Sleeping(0), SettingTable(0), false, true, Free, Proc(1));
    var want := Two(Sleeping(0), WantTableToSet(0), false, true, Free, Free);
    RunsOn(setting, 1, waking, 4, t);
    RunsOn(want, 1, setting, 5, t);
    StepsFirst(6);
    Prepend(Two(Sleeping(0), Idle, false, true, Free, Free), Begin(1, 0, true), want, Times(1, 6), t);
  }

  /** A waiter that finds the condition true can take it and go on, as a consumer does. */
  lemma ConsumerGoesOn()
    ensures exists s, events: seq<Event>, t ::
      Initial(s) && Reaches(s, events, t) && s.cond == [true] && t.cond == [false] && t.procs == [Idle]
      && forall k :: 0 <= k < |events| ==> !events[k].SetUnlocked?
  {
    hide Reaches;
    var s := State([Idle], [true], [false], [Free], Free);
    var want := s.(procs := [WantLock(0)]);
    var testing := State([Testing(0)], [true], [false], [Proc(0)], Free);
    var taken := testing.(cond := [false]);
    var t := State([Idle], [false], [false], [Free], Free);
    var last := [Leave(0)] + [];
    Prepend(taken, Leave(0), t, [], t);
    Prepend(testing, Consume(0), taken, last, t);
    Prepend(want, Run(0), testing, [Consume(0)] + last, t);
    Prepend(s, Begin(0, 0, false), want, [Run(0)] + ([Consume(0)] + last), t);
    assert Initial(s);
  }

  /** The lock is needed: a setter that ignores it can let the waiter sleep for ever. */
  lemma UnlockedSetterLosesWakeup()
    ensures exists s, events, t ::
      Initial(s) && Reaches(s, events, t) && t.cond == [true] && t.procs == [Sleeping(0), Idle]
  {
    hide Reaches;
    var t := State([Sleeping(0), Idle], [true], [false], [Free], Scheduler);
    var late := State([SleepCalled(0), Idle], [true], [false], [Proc(0)], Free);
    var tested := State([SleepCalled(0), Idle], [false], [false], [Proc(0)], Free);
    FallsAsleep(late, t);
    var last :| last != [] && Reaches(late, last, t);
    var waking := State([SleepCalled(0), Waking(0, false, 0)], [true], [false], [Proc(0)], Proc(1));
    var passed := waking.(procs := [SleepCalled(0), Waking(0, false, 2)]);
    EndsWakeup(passed, late, last, t);
    var ending :| ending != [] && Reaches(passed, ending, t);
    WakesNobody(waking, passed, ending, t);
    var more :| more != [] && Reaches(waking, more, t);
    SetsUnlocked(tested, waking, more, t);
    var events :| events != [] && Reaches(tested, events, t);
    var s := State([Idle, Idle], [false], [false], [Free], Free);
    FindsItFalse(s, tested, events, t);
    var all :| Reaches(s, all, t);
    assert Initial(s);
  }
}
