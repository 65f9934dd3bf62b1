/**
 The redo log of kernel/log.c, as far as it is about disks alone: which sector
 writes a commit and a recovery issue, and what is on the disk when the machine
 stops between any two of them, however often.
 */
module RedoLog {
  import opened Blocks
  import opened BufferCache

  const LOGSIZE: nat := 30

  // ---------- The header block ----------

  function Count(b: Block): Word { GetWord(b, 0) }

  function Sectors(b: Block): (s: seq<Word>)
    requires Count(b) <= LOGSIZE
  {
    seq(Count(b), i requires 0 <= i < Count(b) => GetWord(b, i + 1))
  }

  /** The header block after the first k sector numbers have been stored. */
  function EncodeUpTo(b: Block, secs: seq<Word>, k: nat): Block
    requires k <= |secs| <= LOGSIZE
  {
    if k == 0 then PutWord(b, 0, |secs|) else PutWord(EncodeUpTo(b, secs, k - 1), k, secs[k - 1])
  }

  function Encode(b: Block, secs: seq<Word>): Block
    requires |secs| <= LOGSIZE
  {
    EncodeUpTo(b, secs, |secs|)
  }

  lemma {:induction false} EncodedWords(b: Block, secs: seq<Word>, k: nat)
    requires k <= |secs| <= LOGSIZE
    ensures GetWord(EncodeUpTo(b, secs, k), 0) == |secs|
    ensures forall i :: 0 <= i < k ==> GetWord(EncodeUpTo(b, secs, k), i + 1) == secs[i]
  {
    hide GetWord, PutWord;
    if k == 0 {
      PutGet(b, 0, |secs|);
    } else {
      EncodedWords(b, secs, k - 1);
      PutGet(EncodeUpTo(b, secs, k - 1), k, secs[k - 1]);
    }
  }

  /** The header read back is the header written, whatever was in the block before. */
  lemma HeaderRoundTrip(b: Block, secs: seq<Word>)
    requires |secs| <= LOGSIZE
    ensures Count(Encode(b, secs)) == |secs|
    ensures Sectors(Encode(b, secs)) == secs
  {
    EncodedWords(b, secs, |secs|);
  }

  // ---------- Disks ----------

  datatype Layout = Layout(dev: nat, start: nat, size: nat)

  function LogBlock(l: Layout, i: nat): Addr { Addr(l.dev, l.start + i) }
  function Header(l: Layout): Addr { LogBlock(l, 0) }
  function At(l: Layout, s: Word): Addr { Addr(l.dev, s) }

  predicate InLog(l: Layout, a: Addr) {
    a.dev == l.dev && l.start <= a.sector < l.start + l.size
  }

  /** The header is the first block of the log and starts with the count; block i of the transaction is block i + 1. */
  lemma LogFormat(l: Layout, b: Block, i: nat)
    requires i < 30
    ensures Header(l) == Addr(l.dev, l.start) && LogBlock(l, i + 1) == Addr(l.dev, l.start + 1 + i)
    ensures Count(b) == GetWord(b, 0) && (i < Count(b) <= 30 ==> Sectors(b)[i] == GetWord(b, i + 1))
  {
  }

  /** Everything outside the log area. */
  ghost function Home(l: Layout, d: Disk): Disk {
    map a | a in d && !InLog(l, a) :: d[a]
  }

  ghost predicate HasLog(l: Layout, d: Disk) {
    && 0 < l.size
    && (forall i: nat {:trigger LogBlock(l, i)} :: i < l.size ==> LogBlock(l, i) in d)
  }

  /** A list of home sectors that fits the log. */
  ghost predicate Loggable(l: Layout, d: Disk, secs: seq<Word>) {
    && |secs| <= LOGSIZE && |secs| < l.size
    && (forall i :: 0 <= i < |secs| ==> At(l, secs[i]) in d && !InLog(l, At(l, secs[i])))
  }

  function Apply(d: Disk, ws: seq<Write>): Disk {
    if ws == [] then d
    else var before := Apply(d, ws[..|ws| - 1]); before[ws[|ws| - 1].addr := ws[|ws| - 1].data]
  }

  lemma ApplyStep(d: Disk, ws: seq<Write>, k: nat)
    requires k < |ws|
    ensures Apply(d, ws[..k + 1]) == Apply(d, ws[..k])[ws[k].addr := ws[k].data]
  {
    assert ws[..k + 1][..k] == ws[..k];
  }

  function LogWrites(l: Layout, vals: seq<Block>): seq<Write> {
    seq(|vals|, i requires 0 <= i < |vals| => Write(LogBlock(l, i + 1), vals[i]))
  }

  function HomeWrites(l: Layout, secs: seq<Word>, vals: seq<Block>): seq<Write>
    requires |secs| == |vals|
  {
    seq(|secs|, i requires 0 <= i < |secs| => Write(At(l, secs[i]), vals[i]))
  }

  /** The sector writes of commit(), in order, for a header block that now holds `head`. */
  function CommitWrites(l: Layout, head: Block, secs: seq<Word>, vals: seq<Block>): seq<Write>
    requires |secs| == |vals| <= LOGSIZE
  {
    if secs == [] then []
    else LogWrites(l, vals) + [Write(Header(l), Encode(head, secs))]
         + HomeWrites(l, secs, vals) + [Write(Header(l), Encode(Encode(head, secs), []))]
  }

  /** The header's count is one that read_head can load, and the blocks it counts exist. */
  ghost predicate Replayable(l: Layout, d: Disk) {
    && Header(l) in d && Count(d[Header(l)]) <= LOGSIZE
    && forall i: nat {:trigger LogBlock(l, i)} :: i <= Count(d[Header(l)]) ==> LogBlock(l, i) in d
  }

  ghost function LogBlocks(l: Layout, d: Disk, n: nat): (vals: seq<Block>)
    requires forall i: nat {:trigger LogBlock(l, i)} :: i <= n ==> LogBlock(l, i) in d
    ensures |vals| == n && forall i :: 0 <= i < n ==> vals[i] == d[LogBlock(l, i + 1)]
  {
    if n == 0 then [] else LogBlocks(l, d, n - 1) + [d[LogBlock(l, n)]]
  }

  /** The sector writes of recover_from_log() on a given disk, in order. */
  ghost function RecoverWrites(l: Layout, d: Disk): seq<Write>
    requires Replayable(l, d)
  {
    var secs := Sectors(d[Header(l)]);
    HomeWrites(l, secs, LogBlocks(l, d, |secs|))
    + [Write(Header(l), Encode(d[Header(l)], []))]
  }

  // ---------- What may be on the disk at a crash ----------

  /** Nothing to replay. */
  ghost predicate Clean(l: Layout, d: Disk, home: Disk) {
    && HasLog(l, d)
    && Count(d[Header(l)]) == 0
    && Home(l, d) == home
  }

  /** The header names blocks that, once copied, give `home`. */
  ghost predicate Committed(l: Layout, d: Disk, home: Disk) {
    && HasLog(l, d)
    && Count(d[Header(l)]) <= LOGSIZE
    && var secs := Sectors(d[Header(l)]);
    && Loggable(l, d, secs)
    && Home(l, d).Keys == home.Keys
    && (forall i :: 0 <= i < |secs| ==> d[LogBlock(l, i + 1)] == home[At(l, secs[i])])
    && (forall a :: a in home ==> d[a] == home[a] || exists i :: 0 <= i < |secs| && At(l, secs[i]) == a)
  }

  lemma CleanIsCommitted(l: Layout, d: Disk, home: Disk)
    requires Clean(l, d, home)
    ensures Committed(l, d, home)
  {
    assert forall a :: a in home ==> Home(l, d)[a] == d[a];
  }

  lemma CommittedReplays(l: Layout, d: Disk, home: Disk)
    requires Committed(l, d, home)
    ensures Replayable(l, d)
  {
  }

  /** An attempt at recovery that stops after j sector writes. */
  ghost function Attempt(l: Layout, d: Disk, j: nat): Disk
    requires Replayable(l, d)
  {
    var ws := RecoverWrites(l, d);
    Apply(d, ws[..if j < |ws| then j else |ws|])
  }

  ghost function Recover(l: Layout, d: Disk): Disk
    requires Replayable(l, d)
  {
    Apply(d, RecoverWrites(l, d))
  }

  /** Copying one logged block to its home leaves the disk committed and the log untouched. */
  lemma ReinstallOne(l: Layout, d: Disk, home: Disk, i: nat)
    requires Committed(l, d, home) && i < Count(d[Header(l)])
    ensures var a := At(l, Sectors(d[Header(l)])[i]);
            a in home && a in d && !InLog(l, a) && Committed(l, d[a := home[a]], home)
  {
    var secs := Sectors(d[Header(l)]);
    var a := At(l, secs[i]);
    assert a in Home(l, d);
    var d' := d[a := home[a]];
    LogBlocksInLog(l);
    assert d'[Header(l)] == d[Header(l)];
    assert Home(l, d').Keys == Home(l, d).Keys;
    forall x | x in home
      ensures d'[x] == home[x] || exists k :: 0 <= k < |secs| && At(l, secs[k]) == x
    {
    }
  }

  lemma LogBlocksInLog(l: Layout)
    ensures forall i: nat {:trigger LogBlock(l, i)} :: i < l.size ==> InLog(l, LogBlock(l, i))
  {
  }

  /** d' is d with its first j logged blocks copied home. */
  ghost predicate Reinstalled(l: Layout, d: Disk, d': Disk, home: Disk, j: nat)
    requires Header(l) in d && Count(d[Header(l)]) <= LOGSIZE
  {
    && d'.Keys == d.Keys
    && (forall a :: a in d && InLog(l, a) ==> d'[a] == d[a])
    && Committed(l, d', home)
    && (forall i :: 0 <= i < j && i < |Sectors(d[Header(l)])| ==> HasHome(d', home, At(l, Sectors(d[Header(l)])[i])))
  }

  ghost predicate HasHome(d: Disk, home: Disk, a: Addr) {
    a in d && a in home && d[a] == home[a]
  }

  lemma ReinstallStep(l: Layout, d: Disk, d1: Disk, home: Disk, j: nat)
    requires Committed(l, d, home) && j < Count(d[Header(l)])
    requires Reinstalled(l, d, d1, home, j)
    ensures var a := At(l, Sectors(d[Header(l)])[j]);
            a in home && RecoverWrites(l, d)[j] == Write(a, home[a]) && Reinstalled(l, d, d1[a := home[a]], home, j + 1)
  {
    var secs := Sectors(d[Header(l)]);
    LogBlocksInLog(l);
    assert d1[Header(l)] == d[Header(l)];
    ReinstallOne(l, d1, home, j);
    var a := At(l, secs[j]);
    var d2 := d1[a := home[a]];
    forall i | 0 <= i < j + 1 && i < |secs|
      ensures HasHome(d2, home, At(l, secs[i]))
    {
      assert i < j ==> HasHome(d1, home, At(l, secs[i]));
    }
  }

  lemma {:induction false} Reinstall(l: Layout, d: Disk, home: Disk, j: nat)
    requires Committed(l, d, home) && j <= Count(d[Header(l)])
    ensures Reinstalled(l, d, Apply(d, RecoverWrites(l, d)[..j]), home, j)
  {
    var ws := RecoverWrites(l, d);
    if j == 0 {
      assert ws[..0] == [];
    } else {
      Reinstall(l, d, home, j - 1);
      ApplyStep(d, ws, j - 1);
      ReinstallStep(l, d, Apply(d, ws[..j - 1]), home, j - 1);
    }
  }

  /** The contents of a home sector of a fully reinstalled disk. */
  lemma ReinstalledHome(l: Layout, d: Disk, d1: Disk, home: Disk, a: Addr)
    requires Committed(l, d, home)
    requires Reinstalled(l, d, d1, home, Count(d[Header(l)])) && a in home
    ensures HasHome(d1, home, a) && !InLog(l, a)
  {
    var secs := Sectors(d[Header(l)]);
    LogBlocksInLog(l);
    assert d1[Header(l)] == d[Header(l)];
    assert a in Home(l, d1);
    if i :| 0 <= i < |secs| && At(l, secs[i]) == a {
      assert HasHome(d1, home, At(l, secs[i]));
    }
  }

  /** Clearing the header of a fully reinstalled disk. */
  lemma ClearHeader(l: Layout, d: Disk, d1: Disk, home: Disk, cleared: Block)
    requires Committed(l, d, home)
    requires Reinstalled(l, d, d1, home, Count(d[Header(l)])) && Count(cleared) == 0
    ensures Clean(l, d1[Header(l) := cleared], home)
  {
    var d2 := d1[Header(l) := cleared];
    LogBlocksInLog(l);
    forall a | a in home
      ensures a in Home(l, d2) && Home(l, d2)[a] == home[a]
    {
      ReinstalledHome(l, d, d1, home, a);
    }
    assert Home(l, d2).Keys == Home(l, d1).Keys;
  }

  /** Recovery of a committed disk ends with nothing to replay and the committed contents. */
  lemma RecoverCommitted(l: Layout, d: Disk, home: Disk)
    requires Committed(l, d, home)
    ensures Clean(l, Recover(l, d), home)
  {
    var ws := RecoverWrites(l, d);
    var n := Count(d[Header(l)]);
    Reinstall(l, d, home, n);
    ApplyStep(d, ws, n);
    assert ws[..n + 1] == ws;
    HeaderRoundTrip(d[Header(l)], []);
    ClearHeader(l, d, Apply(d, ws[..n]), home, Encode(d[Header(l)], []));
  }

  /** A crash during recovery loses nothing. */
  lemma AttemptKeeps(l: Layout, d: Disk, home: Disk, j: nat)
    requires Committed(l, d, home)
    ensures Committed(l, Attempt(l, d, j), home)
    ensures Clean(l, d, home) ==> Clean(l, Attempt(l, d, j), home)
  {
    var ws := RecoverWrites(l, d);
    if j >= |ws| {
      assert ws[..|ws|] == ws;
      RecoverCommitted(l, d, home);
      CleanIsCommitted(l, Recover(l, d), home);
    } else {
      Reinstall(l, d, home, j);
    }
  }

  /** The disk after recovery was cut short once for each element of `crashes`. */
  ghost function Attempts(l: Layout, d: Disk, home: Disk, crashes: seq<nat>): (r: Disk)
    requires Committed(l, d, home)
    ensures Committed(l, r, home)
    decreases |crashes|
  {
    if crashes == [] then d
    else AttemptKeeps(l, d, home, crashes[0]); Attempts(l, Attempt(l, d, crashes[0]), home, crashes[1..])
  }

  /** Recovering twice is recovering once, on the whole disk. */
  lemma RecoverIdempotent(l: Layout, d: Disk, home: Disk)
    requires Committed(l, d, home)
    ensures Committed(l, Recover(l, d), home)
    ensures Recover(l, Recover(l, d)) == Recover(l, d)
  {
    RecoverCommitted(l, d, home);
    var r := Recover(l, d);
    CleanIsCommitted(l, r, home);
    RecoveredHeader(l, d, home);
    RecoverEmpty(l, r, home);
    PutTwice(d[Header(l)], 0, 0);
  }

  lemma RecoveredHeader(l: Layout, d: Disk, home: Disk)
    requires Committed(l, d, home)
    ensures Header(l) in Recover(l, d) && Recover(l, d)[Header(l)] == PutWord(d[Header(l)], 0, 0)
  {
    var ws := RecoverWrites(l, d);
    ApplyStep(d, ws, |ws| - 1);
    assert ws[..|ws|] == ws;
  }

  lemma RecoverEmpty(l: Layout, d: Disk, home: Disk)
    requires Clean(l, d, home)
    ensures Recover(l, d) == d[Header(l) := PutWord(d[Header(l)], 0, 0)]
  {
    var ws := RecoverWrites(l, d);
    assert ws == [Write(Header(l), PutWord(d[Header(l)], 0, 0))];
    ApplyStep(d, ws, 0);
    assert ws[..1] == ws && ws[..0] == [];
  }

  // ---------- Crashes during commit ----------

  datatype Tx = Tx(secs: seq<Word>, vals: seq<Block>)

  ghost predicate TxFits(l: Layout, d: Disk, tx: Tx) {
    && |tx.secs| == |tx.vals|
    && Loggable(l, d, tx.secs)
    && (forall i, j :: 0 <= i < j < |tx.secs| ==> tx.secs[i] != tx.secs[j])
  }

  /** What a transaction is meant to do to the home sectors. */
  ghost function After(l: Layout, home: Disk, tx: Tx): Disk
    requires |tx.secs| == |tx.vals|
  {
    Apply(home, HomeWrites(l, tx.secs, tx.vals))
  }

  function WriteCount(tx: Tx): nat { if tx.secs == [] then 0 else 2 * |tx.secs| + 2 }

  ghost function TxWrites(l: Layout, d: Disk, tx: Tx): seq<Write>
    requires HasLog(l, d) && TxFits(l, d, tx)
  {
    CommitWrites(l, d[LogBlock(l, 0)], tx.secs, tx.vals)
  }

  lemma {:induction false} ApplyConcat(d: Disk, ws: seq<Write>, vs: seq<Write>)
    ensures Apply(d, ws + vs) == Apply(Apply(d, ws), vs)
  {
    if vs == [] {
      assert ws + vs == ws;
    } else {
      var all := ws + vs;
      assert all[..|all| - 1] == ws + vs[..|vs| - 1];
      ApplyConcat(d, ws, vs[..|vs| - 1]);
    }
  }

  lemma SplitApply(d: Disk, ws: seq<Write>, m: nat, k: nat)
    requires m <= k <= |ws|
    ensures Apply(d, ws[..k]) == Apply(Apply(d, ws[..m]), ws[m..][..k - m])
  {
    assert ws[..k] == ws[..m] + ws[m..][..k - m];
    ApplyConcat(d, ws[..m], ws[m..][..k - m]);
  }

  /** While log blocks are being written the header and the home sectors stay as they were. */
  lemma {:induction false} LogPhase(l: Layout, d: Disk, vals: seq<Block>, k: nat)
    requires HasLog(l, d) && k <= |vals| < l.size
    ensures var d' := Apply(d, LogWrites(l, vals)[..k]);
            && d'.Keys == d.Keys
            && (forall a :: a in d && !InLog(l, a) ==> d'[a] == d[a])
            && d'[Header(l)] == d[Header(l)]
            && (forall i :: 0 <= i < k ==> d'[LogBlock(l, i + 1)] == vals[i])
  {
    var ws := LogWrites(l, vals);
    if k == 0 {
      assert ws[..0] == [];
    } else {
      LogPhase(l, d, vals, k - 1);
      ApplyStep(d, ws, k - 1);
      hide Apply, LogWrites;
      assert ws[k - 1] == Write(LogBlock(l, k), vals[k - 1]) && LogBlock(l, k) in d;
    }
  }

  lemma {:induction false} AfterValues(l: Layout, home: Disk, tx: Tx, k: nat)
    requires |tx.secs| == |tx.vals| && k <= |tx.secs|
    requires forall i, j :: 0 <= i < j < |tx.secs| ==> tx.secs[i] != tx.secs[j]
    requires forall i :: 0 <= i < |tx.secs| ==> At(l, tx.secs[i]) in home
    ensures var h := Apply(home, HomeWrites(l, tx.secs, tx.vals)[..k]);
            && h.Keys == home.Keys
            && (forall i :: 0 <= i < k ==> h[At(l, tx.secs[i])] == tx.vals[i])
            && (forall a :: a in home ==> h[a] == home[a] || exists i :: 0 <= i < k && At(l, tx.secs[i]) == a)
  {
    var ws := HomeWrites(l, tx.secs, tx.vals);
    if k == 0 {
      assert ws[..0] == [];
    } else {
      AfterValues(l, home, tx, k - 1);
      ApplyStep(home, ws, k - 1);
    }
  }

  /** The parts of a commit: log blocks, header, home blocks, cleared header. */
  lemma CommitParts(l: Layout, d: Disk, tx: Tx)
    requires HasLog(l, d) && TxFits(l, d, tx) && tx.secs != []
    ensures var n, ws := |tx.secs|, TxWrites(l, d, tx);
            && |ws| == 2 * n + 2
            && (forall k :: 0 <= k <= n ==> ws[..k] == LogWrites(l, tx.vals)[..k])
            && ws[n] == Write(Header(l), Encode(d[Header(l)], tx.secs))
            && ws[n + 1..] == HomeWrites(l, tx.secs,
                 tx.vals) + [Write(Header(l), Encode(Encode(d[Header(l)], tx.secs), []))]
  {
  }

  /** What the disk holds once the log blocks and then the header have been written. */
  ghost predicate Logged(l: Layout, d: Disk, d2: Disk, tx: Tx)
    requires HasLog(l, d) && TxFits(l, d, tx)
  {
    && d2.Keys == d.Keys
    && d2[Header(l)] == Encode(d[Header(l)], tx.secs)
    && (forall i :: 0 <= i < |tx.secs| ==> LogBlock(l, i + 1) in d2 && d2[LogBlock(l, i + 1)] == tx.vals[i])
    && (forall a :: a in d && !InLog(l, a) ==> d2[a] == d[a])
  }

  lemma LoggedIsCommitted(l: Layout, d: Disk, d2: Disk, tx: Tx)
    requires HasLog(l, d) && TxFits(l, d, tx) && Logged(l, d, d2, tx)
    ensures Committed(l, d2, After(l, Home(l, d), tx))
  {
    var home := After(l, Home(l, d), tx);
    HeaderRoundTrip(d[Header(l)], tx.secs);
    assert HomeWrites(l, tx.secs, tx.vals)[..|tx.secs|] == HomeWrites(l, tx.secs, tx.vals);
    AfterValues(l, Home(l, d), tx, |tx.secs|);
    assert Home(l, d2).Keys == Home(l, d).Keys;
    assert forall a :: a in home ==> d2[a] == Home(l, d)[a];
  }

  lemma LoggedReplays(l: Layout, d: Disk, d2: Disk, tx: Tx)
    requires HasLog(l, d) && TxFits(l, d, tx) && tx.secs != [] && Logged(l, d, d2, tx)
    requires Replayable(l, d2)
    ensures RecoverWrites(l, d2) == TxWrites(l, d, tx)[|tx.secs| + 1..]
  {
    var n := |tx.secs|;
    HeaderRoundTrip(d[Header(l)], tx.secs);
    CommitParts(l, d, tx);
    assert LogBlocks(l, d2, n) == tx.vals;
  }

  /** Writing the header is the commit point: from then on the log holds the whole transaction. */
  lemma HeaderCommits(l: Layout, d: Disk, tx: Tx)
    requires HasLog(l, d) && TxFits(l, d, tx) && tx.secs != []
    ensures Logged(l, d, Apply(d, TxWrites(l, d, tx)[..|tx.secs| + 1]), tx)
  {
    var n, ws := |tx.secs|, TxWrites(l, d, tx);
    LogPhase(l, d, tx.vals, n);
    CommitParts(l, d, tx);
    ApplyStep(d, ws, n);
  }

  lemma CrashBeforeHeader(l: Layout, d: Disk, tx: Tx, k: nat)
    requires HasLog(l, d) && Count(d[LogBlock(l, 0)]) == 0 && TxFits(l, d, tx)
    requires k <= |TxWrites(l, d, tx)| && k <= |tx.secs|
    ensures Clean(l, Apply(d, TxWrites(l, d, tx)[..k]), Home(l, d))
  {
    if tx.secs != [] {
      LogPhase(l, d, tx.vals, k);
      CommitParts(l, d, tx);
      assert Home(l, Apply(d, TxWrites(l, d, tx)[..k])) == Home(l, d);
    }
  }

  /** Writes that end as a recovery would, stopped at k, are an attempt at that recovery. */
  lemma TailIsAttempt(l: Layout, d: Disk, ws: seq<Write>, m: nat, k: nat)
    requires m <= k <= |ws|
    requires Replayable(l, Apply(d, ws[..m])) && RecoverWrites(l, Apply(d, ws[..m])) == ws[m..]
    ensures Apply(d, ws[..k]) == Attempt(l, Apply(d, ws[..m]), k - m)
  {
    SplitApply(d, ws, m, k);
  }

  lemma CrashAfterHeader(l: Layout, d: Disk, tx: Tx, k: nat)
    requires HasLog(l, d) && TxFits(l, d, tx)
    requires |tx.secs| < k <= |TxWrites(l, d, tx)|
    ensures Committed(l, Apply(d, TxWrites(l, d, tx)[..k]), After(l, Home(l, d), tx))
    ensures k == |TxWrites(l, d, tx)| ==> Clean(l, Apply(d, TxWrites(l, d, tx)[..k]), After(l, Home(l, d), tx))
  {
    hide Apply, Committed, Clean, Logged, After, Home, Encode, RecoverWrites, GetWord;
    var home, mid := After(l, Home(l, d), tx), Apply(d, TxWrites(l, d, tx)[..|tx.secs| + 1]);
    HeaderCommits(l, d, tx);
    LoggedIsCommitted(l, d, mid, tx);
    CommittedReplays(l, mid, home);
    LoggedReplays(l, d, mid, tx);
    TailIsAttempt(l, d, TxWrites(l, d, tx), |tx.secs| + 1, k);
    AttemptKeeps(l, mid, home, k - |tx.secs| - 1);
    if k == |TxWrites(l, d, tx)| {
      var ws := RecoverWrites(l, mid);
      assert ws[..|ws|] == ws;
      RecoverCommitted(l, mid, home);
    }
  }

  /** The home sectors a commit stopped after k sector writes will recover to. */
  ghost function Surviving(l: Layout, d: Disk, tx: Tx, k: nat): Disk
    requires |tx.secs| == |tx.vals|
  {
    if k <= |tx.secs| then Home(l, d) else After(l, Home(l, d), tx)
  }

  /**
   A commit stopped after any number of sector writes, followed by any number of
   interrupted recoveries and one that completes, leaves the home sectors exactly as
   before the transaction if the header was not yet written, and exactly as after it
   otherwise.
   */
  lemma CrashAtomic(l: Layout, d: Disk, tx: Tx, k: nat, crashes: seq<nat>)
    requires HasLog(l, d) && Count(d[LogBlock(l, 0)]) == 0 && TxFits(l, d, tx)
    requires k <= WriteCount(tx)
    ensures var cut := Apply(d, TxWrites(l, d, tx)[..k]);
            && Committed(l, cut, Surviving(l, d, tx, k))
            && Clean(l, Recover(l, Attempts(l, cut, Surviving(l, d, tx, k), crashes)), Surviving(l, d, tx, k))
  {
    var cut, home := Apply(d, TxWrites(l, d, tx)[..k]), Surviving(l, d, tx, k);
    if k <= |tx.secs| {
      CrashBeforeHeader(l, d, tx, k);
      CleanIsCommitted(l, cut, home);
    } else {
      CrashAfterHeader(l, d, tx, k);
    }
    RecoverCommitted(l, Attempts(l, cut, home, crashes), home);
  }

  /** A commit that runs to its end leaves nothing to replay. */
  lemma CommitCompletes(l: Layout, d: Disk, tx: Tx)
    requires HasLog(l, d) && Count(d[LogBlock(l, 0)]) == 0 && TxFits(l, d, tx)
    ensures Clean(l, Apply(d, TxWrites(l, d, tx)), After(l, Home(l, d), tx))
    ensures Apply(d, TxWrites(l, d, tx)).Keys == d.Keys
  {
    var ws := TxWrites(l, d, tx);
    assert ws[..|ws|] == ws;
    ApplyKeys(d, ws);
    if tx.secs == [] {
      CrashBeforeHeader(l, d, tx, 0);
    } else {
      CrashAfterHeader(l, d, tx, |ws|);
    }
  }

  // ---------- Runs of transactions ----------

  /** Disks on which a run of transactions can start. */
  ghost predicate Ready(l: Layout, d: Disk, txs: seq<Tx>) {
    && HasLog(l, d) && Count(d[LogBlock(l, 0)]) == 0
    && forall i :: 0 <= i < |txs| ==> TxFits(l, d, txs[i])
  }

  /** The disk after a run of complete transactions. */
  ghost function RunDisk(l: Layout, d: Disk, txs: seq<Tx>): (r: Disk)
    requires Ready(l, d, txs)
    ensures Clean(l, r, RunHome(l, Home(l, d), txs)) && r.Keys == d.Keys
  {
    if txs == [] then d
    else
      var m := |txs| - 1;
      var before := RunDisk(l, d, txs[..m]);
      FitsKept(l, d, before, txs[m]);
      CommitCompletes(l, before, txs[m]);
      Apply(before, TxWrites(l, before, txs[m]))
  }

  /** What a run of transactions is meant to do to the home sectors. */
  ghost function RunHome(l: Layout, home: Disk, txs: seq<Tx>): Disk
    requires forall i :: 0 <= i < |txs| ==> |txs[i].secs| == |txs[i].vals|
  {
    if txs == [] then home else After(l, RunHome(l, home, txs[..|txs| - 1]), txs[|txs| - 1])
  }

  lemma FitsKept(l: Layout, d: Disk, d': Disk, tx: Tx)
    requires TxFits(l, d, tx) && d'.Keys == d.Keys
    ensures TxFits(l, d', tx)
  {
  }

  lemma {:induction false} ApplyKeys(d: Disk, ws: seq<Write>)
    requires forall i :: 0 <= i < |ws| ==> ws[i].addr in d
    ensures Apply(d, ws).Keys == d.Keys
  {
    if ws != [] {
      ApplyKeys(d, ws[..|ws| - 1]);
    }
  }

  /** The writes of the last transaction of a run. */
  ghost function LastWrites(l: Layout, d: Disk, txs: seq<Tx>): seq<Write>
    requires Ready(l, d, txs) && txs != []
  {
    var m := |txs| - 1;
    var before := RunDisk(l, d, txs[..m]);
    FitsKept(l, d, before, txs[m]);
    TxWrites(l, before, txs[m])
  }

  /**
   Over a whole run: after a crash inside the last transaction, recovery keeps every
   earlier transaction and all or nothing of the last one.
   */
  lemma RunAtomic(l: Layout, d: Disk, txs: seq<Tx>, k: nat, crashes: seq<nat>)
    requires Ready(l, d, txs) && txs != [] && k <= WriteCount(txs[|txs| - 1])
    ensures var m := |txs| - 1;
            var cut := Apply(RunDisk(l, d, txs[..m]), LastWrites(l, d, txs)[..k]);
            var home := RunHome(l, Home(l, d), if k <= |txs[m].secs| then txs[..m] else txs);
            Committed(l, cut, home) && Clean(l, Recover(l, Attempts(l, cut, home, crashes)), home)
  {
    hide Apply, Recover, Attempts, Committed, TxWrites, Home, After, HasLog, Count, RunDisk;
    var m := |txs| - 1;
    var before := RunDisk(l, d, txs[..m]);
    FitsKept(l, d, before, txs[m]);
    CrashAtomic(l, before, txs[m], k, crashes);
  }
}
