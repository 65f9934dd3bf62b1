/**
 Admission to the log (begin_op, log_write, end_op of kernel/log.c) as a state
 machine over any number of concurrent file-system operations.
 */
module LogAdmission {
  import opened Blocks
  import opened Counting
  import opened RedoLog

  const MAXOPBLOCKS: nat := 10

  /** log.lh, log.outstanding and log.committing. */
  datatype State = State(lh: seq<Word>, outstanding: int, committing: bool)

  const INITIAL: State := State([], 0, false)

  predicate MayBegin(s: State) {
    !s.committing && |s.lh| + (s.outstanding + 1) * MAXOPBLOCKS <= LOGSIZE
  }

  function Begin(s: State): State { s.(outstanding := s.outstanding + 1) }

  /** "too big a transaction" or "log_write outside of trans". */
  predicate WritePanics(s: State, size: int) {
    |s.lh| >= LOGSIZE || |s.lh| >= size - 1 || s.outstanding < 1
  }

  function LogWrite(s: State, sector: Word): State {
    if sector in s.lh then s else s.(lh := s.lh + [sector])
  }

  /** "log.committing" */
  predicate EndPanics(s: State) { s.committing }

  function End(s: State): State {
    s.(outstanding := s.outstanding - 1, committing := s.outstanding == 1 || s.committing)
  }

  function CommitDone(s: State): State { s.(lh := [], committing := false) }

  /** The log together with the number of log_write calls each open operation has made. */
  datatype System = System(s: State, ops: seq<nat>)

  const START: System := System(INITIAL, [])

  datatype Event = BeginOp | Write(op: nat, sector: Word) | EndOp(op: nat) | Committed

  /** An operation may write MAXOPBLOCKS times; a step that panics is not taken. */
  predicate Enabled(y: System, e: Event) {
    match e
    case BeginOp => MayBegin(y.s)
    case Write(op, _) => op < |y.ops| && y.ops[op] < MAXOPBLOCKS
    case EndOp(op) => op < |y.ops|
    case Committed => y.s.committing
  }

  predicate Panics(y: System, e: Event, size: int) {
    match e
    case BeginOp => false
    case Write(_, _) => WritePanics(y.s, size)
    case EndOp(_) => EndPanics(y.s)
    case Committed => false
  }

  function Step(y: System, e: Event): System
    requires Enabled(y, e)
  {
    match e
    case BeginOp => System(Begin(y.s), y.ops + [0])
    case Write(op, sector) => System(LogWrite(y.s, sector), y.ops[op := y.ops[op] + 1])
    case EndOp(op) => System(End(y.s), y.ops[..op] + y.ops[op + 1..])
    case Committed => System(CommitDone(y.s), y.ops)
  }

  /** Runs of events none of which panics. */
  predicate Runs(y: System, es: seq<Event>, size: int)
    decreases |es|
  {
    es == [] || (Enabled(y, es[0]) && !Panics(y, es[0], size) && Runs(Step(y, es[0]), es[1..], size))
  }

  function After(y: System, es: seq<Event>, size: int): System
    requires Runs(y, es, size)
    decreases |es|
  {
    if es == [] then y else After(Step(y, es[0]), es[1..], size)
  }

  /** Log blocks the open operations may still ask for. */
  function Left(ops: seq<nat>): int {
    if ops == [] then 0 else MAXOPBLOCKS - ops[0] + Left(ops[1..])
  }

  lemma {:induction false} LeftBound(ops: seq<nat>)
    requires forall i :: 0 <= i < |ops| ==> ops[i] <= MAXOPBLOCKS
    ensures 0 <= Left(ops) <= |ops| * MAXOPBLOCKS
  {
    if ops != [] {
      LeftBound(ops[1..]);
    }
  }

  lemma {:induction false} LeftSplit(a: seq<nat>, b: seq<nat>)
    ensures Left(a + b) == Left(a) + Left(b)
  {
    if a == [] {
      assert a + b == b;
    } else {
      LeftSplit(a[1..], b);
      assert (a + b)[1..] == a[1..] + b;
    }
  }

  lemma LeftAround(ops: seq<nat>, i: nat)
    requires i < |ops|
    ensures Left(ops) == Left(ops[..i]) + (MAXOPBLOCKS - ops[i]) + Left(ops[i + 1..])
  {
    LeftSplit(ops[..i], ops[i..]);
    assert ops[..i] + ops[i..] == ops;
    assert ops[i..][1..] == ops[i + 1..];
  }

  /** Space for everything the open operations may write is reserved; no operation is open during a commit. */
  ghost predicate Reserved(y: System) {
    && y.s.outstanding == |y.ops|
    && (forall i :: 0 <= i < |y.ops| ==> y.ops[i] <= MAXOPBLOCKS)
    && |y.s.lh| + Left(y.ops) <= LOGSIZE
    && (y.s.committing ==> y.ops == [])
    && (forall i, j :: 0 <= i < j < |y.s.lh| ==> y.s.lh[i] != y.s.lh[j])
  }

  lemma BeginReserves(y: System)
    requires Reserved(y) && Enabled(y, BeginOp)
    ensures Reserved(Step(y, BeginOp))
  {
    LeftBound(y.ops);
    LeftSplit(y.ops, [0]);
    assert Left([0]) == MAXOPBLOCKS;
    hide Left;
  }

  lemma WriteReserves(y: System, op: nat, sector: Word)
    requires Reserved(y) && Enabled(y, Write(op, sector))
    ensures Reserved(Step(y, Write(op, sector)))
  {
    hide Left;
    var more := y.ops[op := y.ops[op] + 1];
    LeftAround(y.ops, op);
    LeftAround(more, op);
    assert more[..op] == y.ops[..op] && more[op + 1..] == y.ops[op + 1..];
  }

  lemma EndReserves(y: System, op: nat)
    requires Reserved(y) && Enabled(y, EndOp(op))
    ensures Reserved(Step(y, EndOp(op)))
  {
    hide Left;
    LeftAround(y.ops, op);
    LeftSplit(y.ops[..op], y.ops[op + 1..]);
  }

  lemma StepReserves(y: System, e: Event)
    requires Reserved(y) && Enabled(y, e)
    ensures Reserved(Step(y, e))
  {
    match e
    case BeginOp => BeginReserves(y);
    case Write(op, sector) => WriteReserves(y, op, sector);
    case EndOp(op) => EndReserves(y, op);
    case Committed =>
  }

  lemma {:induction false} RunReserves(y: System, es: seq<Event>, size: int)
    requires Reserved(y) && Runs(y, es, size)
    ensures Reserved(After(y, es, size))
    decreases |es|
  {
    if es != [] {
      StepReserves(y, es[0]);
      RunReserves(Step(y, es[0]), es[1..], size);
    }
  }

  /** With LOGSIZE data blocks in the log, no run of operations ever meets a panic. */
  lemma NeverPanics(es: seq<Event>, e: Event, size: int)
    requires size - 1 >= LOGSIZE
    requires Runs(START, es, size) && Enabled(After(START, es, size), e)
    ensures !Panics(After(START, es, size), e, size)
    ensures Reserved(After(START, es, size))
  {
    RunReserves(START, es, size);
    var y := After(START, es, size);
    if e.Write? {
      LeftAround(y.ops, e.op);
      LeftBound(y.ops[..e.op]);
      LeftBound(y.ops[e.op + 1..]);
    }
  }

  // ---------- Whom begin_op lets in ----------

  /** The log after a log_write of each of the sectors. */
  function AllLogged(s: State, sectors: seq<Word>): State {
    if sectors == [] then s else LogWrite(AllLogged(s, sectors[..|sectors| - 1]), sectors[|sectors| - 1])
  }

  lemma {:induction false} LoggedBound(s: State, sectors: seq<Word>)
    ensures |AllLogged(s, sectors).lh| <= |s.lh| + |sectors|
    decreases |sectors|
  {
    if sectors != [] { LoggedBound(s, sectors[..|sectors| - 1]); }
  }

  /** A sector that is not in the list. */
  lemma FreshSector(lh: seq<Word>) returns (w: Word)
    requires |lh| < 0x1_0000_0000
    ensures w !in lh
  {
    var used := set x | x in lh;
    ListSize(lh);
    if forall i: nat :: i <= |lh| ==> i in lh {
      var n: set<int> := Below(|lh| + 1);
      Subset(n, used);
    }
    var i: nat :| i <= |lh| && i !in lh;
    w := i;
  }

  lemma {:induction false} ListSize(lh: seq<Word>)
    ensures |set x: int | x in lh| <= |lh|
  {
    if lh != [] {
      ListSize(lh[1..]);
      assert (set x: int | x in lh) == {lh[0] as int} + set x: int | x in lh[1..];
    }
  }

  /** n sectors each of which adds to the log. */
  lemma {:induction false} FreshSectors(s: State, n: nat) returns (sectors: seq<Word>)
    requires |s.lh| + n < 0x1_0000_0000
    ensures |sectors| == n && |AllLogged(s, sectors).lh| == |s.lh| + n
  {
    if n == 0 {
      sectors := [];
    } else {
      var first := FreshSectors(s, n - 1);
      var w := FreshSector(AllLogged(s, first).lh);
      sectors := first + [w];
      assert sectors[..n - 1] == first;
    }
  }

  /** Whatever the open operations and one more write, ten blocks each, the log does not overflow. */
  ghost predicate RoomForOneMore(s: State) {
    forall sectors {:trigger AllLogged(s, sectors)} ::
      |sectors| <= (s.outstanding + 1) * 10 ==> |AllLogged(s, sectors).lh| <= 30
  }

  /** An operation may begin exactly when no commit is under way and there is room for one more. */
  lemma AdmitsExactly(s: State)
    requires s.outstanding >= 0
    ensures MayBegin(s) <==> !s.committing && RoomForOneMore(s)
  {
    if |s.lh| + (s.outstanding + 1) * 10 <= 30 {
      forall sectors: seq<Word> | |sectors| <= (s.outstanding + 1) * 10
        ensures |AllLogged(s, sectors).lh| <= 30
      {
        LoggedBound(s, sectors);
      }
    } else {
      var sectors: seq<Word> := [];
      if |s.lh| <= 30 { sectors := FreshSectors(s, 31 - |s.lh|); }
      assert |AllLogged(s, sectors).lh| > 30;
    }
  }

  /** One operation that has written m sectors. */
  function Alone(m: nat): System
    requires m <= MAXOPBLOCKS
  {
    System(State(Firsts(m), 1, false), [m])
  }

  function WriteAlone(m: nat): seq<Event>
    requires m <= MAXOPBLOCKS
  {
    if m == 0 then [BeginOp] else WriteAlone(m - 1) + [Write(0, m - 1)]
  }

  lemma {:induction false} AloneRuns(m: nat, size: int)
    requires m <= MAXOPBLOCKS && m <= size - 1
    ensures Runs(START, WriteAlone(m), size) && After(START, WriteAlone(m), size) == Alone(m)
  {
    if m == 0 {
      RunsConcat(START, [], BeginOp, size);
      assert [] + [BeginOp] == [BeginOp];
    } else {
      hide Runs, After;
      AloneRuns(m - 1, size);
      assert m - 1 !in Firsts(m - 1) && Firsts(m - 1) + [m - 1] == Firsts(m);
      RunsConcat(START, WriteAlone(m - 1), Write(0, m - 1), size);
    }
  }

  /** Some run reaches a log with m sectors and n open operations in which another one may begin. */
  ghost predicate CanJoin(n: nat, m: nat, size: int) {
    exists es :: Runs(START, es, size) && Joinable(After(START, es, size), n, m)
  }

  predicate Joinable(y: System, n: nat, m: nat) {
    y.s.outstanding == n == |y.ops| && |y.s.lh| == m && Enabled(y, BeginOp)
  }

  /** Operations do run together: whenever n of them, m sectors and one more operation fit, there is such a run. */
  lemma OperationsJoin(n: nat, m: nat, size: int)
    requires n >= 1 && m <= 10 * n && m + (n + 1) * 10 <= 30 && m <= size - 1
    ensures CanJoin(n, m, size)
  {
    if n == 1 {
      AloneRuns(m, size);
      FirstsLength(m);
      assert Joinable(After(START, WriteAlone(m), size), n, m);
    } else {
      RunsConcat(START, [], BeginOp, size);
      RunsConcat(START, [] + [BeginOp], BeginOp, size);
      assert Joinable(After(START, [] + [BeginOp] + [BeginOp], size), n, m);
    }
  }

  // ---------- The hypothesis on the size is needed ----------

  /** Three operations that share m writes to distinct sectors. */
  function Shares(m: nat): seq<nat>
    requires m <= LOGSIZE
  {
    [if m < 10 then m else 10, if m < 10 then 0 else if m < 20 then m - 10 else 10, if m < 20 then 0 else m - 20]
  }

  function Writer(m: nat): nat { m / MAXOPBLOCKS }

  function Firsts(m: nat): seq<Word>
    requires m <= LOGSIZE
  {
    seq(m, i requires 0 <= i < m => i)
  }

  function Filled(m: nat): System
    requires m <= LOGSIZE
  {
    System(State(Firsts(m), 3, false), Shares(m))
  }

  function Fill(m: nat): seq<Event>
    requires m <= LOGSIZE
  {
    if m == 0 then [BeginOp, BeginOp, BeginOp] else Fill(m - 1) + [Write(Writer(m - 1), m - 1)]
  }

  lemma {:induction false} RunsConcat(y: System, es: seq<Event>, e: Event, size: int)
    requires Runs(y, es, size) && Enabled(After(y, es, size), e) && !Panics(After(y, es, size), e, size)
    ensures Runs(y, es + [e], size) && After(y, es + [e], size) == Step(After(y, es, size), e)
    decreases |es|
  {
    if es == [] {
      assert [e][1..] == [];
    } else {
      RunsConcat(Step(y, es[0]), es[1..], e, size);
      assert (es + [e])[1..] == es[1..] + [e];
    }
  }

  lemma ThreeBegin(size: int)
    ensures Runs(START, [BeginOp, BeginOp, BeginOp], size)
    ensures After(START, [BeginOp, BeginOp, BeginOp], size) == Filled(0)
  {
    RunsConcat(START, [], BeginOp, size);
    RunsConcat(START, [BeginOp], BeginOp, size);
    RunsConcat(START, [BeginOp, BeginOp], BeginOp, size);
    assert [] + [BeginOp] == [BeginOp];
    assert [BeginOp] + [BeginOp] == [BeginOp, BeginOp];
    assert [BeginOp, BeginOp] + [BeginOp] == [BeginOp, BeginOp, BeginOp];
  }

  lemma {:induction false} FillRuns(m: nat, size: int)
    requires m <= LOGSIZE && m <= size - 1
    ensures Runs(START, Fill(m), size) && After(START, Fill(m), size) == Filled(m)
  {
    hide Runs, After, Filled, Enabled, Panics, Step;
    if m == 0 {
      ThreeBegin(size);
    } else {
      FillRuns(m - 1, size);
      FillStep(m - 1, size);
      RunsConcat(START, Fill(m - 1), Write(Writer(m - 1), m - 1), size);
    }
  }

  lemma FillStep(m: nat, size: int)
    requires m < LOGSIZE && m < size - 1
    ensures var e := Write(Writer(m), m);
            Enabled(Filled(m), e) && !Panics(Filled(m), e, size) && Step(Filled(m), e) == Filled(m + 1)
  {
    assert m !in Firsts(m);
    assert Firsts(m) + [m] == Firsts(m + 1);
  }

  lemma FirstsLength(m: nat)
    requires m <= LOGSIZE
    ensures |Firsts(m)| == m
  {
  }

  /** The three operations then end one after the other. */
  function Drain(m: nat): seq<Event>
    requires m <= LOGSIZE
  {
    Fill(m) + [EndOp(0)] + [EndOp(0)] + [EndOp(0)]
  }

  /** The last of them finds m sectors to commit. */
  lemma DrainRuns(m: nat, size: int)
    requires m <= LOGSIZE && m <= size - 1
    ensures Runs(START, Drain(m), size)
    ensures After(START, Drain(m), size).s.committing && |After(START, Drain(m), size).s.lh| == m
  {
    hide Fill, Runs, After, Firsts;
    FillRuns(m, size);
    FirstsLength(m);
    RunsConcat(START, Fill(m), EndOp(0), size);
    RunsConcat(START, Fill(m) + [EndOp(0)], EndOp(0), size);
    RunsConcat(START, Fill(m) + [EndOp(0)] + [EndOp(0)], EndOp(0), size);
  }

  /**
   The exact condition: operations that keep to MAXOPBLOCKS writes never panic the
   log if and only if it has at least LOGSIZE blocks after its header.
   */
  lemma SafeExactlyWhenBigEnough(size: int)
    requires size >= 1
    ensures size - 1 >= LOGSIZE <==>
            forall es, e :: Runs(START, es, size) && Enabled(After(START, es, size), e) ==>
                !Panics(After(START, es, size), e, size)
  {
    if size - 1 >= LOGSIZE {
      forall es, e | Runs(START, es, size) && Enabled(After(START, es, size), e)
        ensures !Panics(After(START, es, size), e, size)
      {
        NeverPanics(es, e, size);
      }
    } else {
      FillRuns(size - 1, size);
      var e := Write(Writer(size - 1), 0);
      assert Enabled(After(START, Fill(size - 1), size), e);
      assert Panics(After(START, Fill(size - 1), size), e, size);
    }
  }
}
