/**
 The receiving side of the TCP stack in include/UProtocols4.tcc: what a segment does to
 the transmission control block it reaches (TCB::Main and its event functions), which
 block that is (TCP<4>::Main), and what Accept and Receive hand to the program.  Each of
 them runs under the stack's lock and is one step here.
 */
module Tcp {
  import opened Blocks
  import opened Options

  const DEF_WINDOW_SIZE := 2000
  const PAGE := 4096
  const WRAP := 0x1_0000_0000

  datatype TcbState =
    Closed | Listen | SynSent | SynReceived | Established
    | FinWait1 | FinWait2 | Closing | TimeWait | CloseWait | LastAck

  datatype Segment = Segment(
    srcAddr: Word, srcPort: nat, dstPort: nat, seqNo: Word, ackNo: Word,
    fin: bool, syn: bool, rst: bool, psh: bool, ack: bool, data: seq<Byte>)

  /** A transmission control block; window is the page that holds received bytes. */
  datatype Tcb = Tcb(
    started: bool, state: TcbState, parent: Option<nat>, device: Option<nat>,
    srcPort: nat, dstAddr: Word, dstPort: nat,
    unacknowledged: Word, sendNext: Word, iss: Word,
    receiveNext: Word, irs: Word, receiveWindow: nat, window: seq<Byte>)

  function Plus(x: Word, n: nat): Word { (x + n) % WRAP }

  /** The received bytes not yet handed out. */
  function Buffered(b: Tcb): seq<Byte>
    requires Sane(b)
  {
    b.window[..DEF_WINDOW_SIZE - b.receiveWindow]
  }

  predicate Sane(b: Tcb) { |b.window| == PAGE && b.receiveWindow <= DEF_WINDOW_SIZE }

  // ---------- What a segment does to its block ----------

  function Listened(b: Tcb, f: Segment, iss: Word): Tcb {
    if f.rst || f.ack || !f.syn then b
    else b.(receiveNext := Plus(f.seqNo, 1), irs := f.seqNo, iss := iss,
            sendNext := Plus(iss, 1), unacknowledged := iss, state := SynReceived)
  }

  /** The code's bounds test on an acknowledgement; it does not compare modulo 2^32. */
  predicate AckInBounds(b: Tcb, f: Segment) { b.unacknowledged <= f.ackNo <= b.sendNext }

  /** After DoClosing: whether it ends the handling of the segment. */
  function Acked(b: Tcb, f: Segment): (Tcb, bool) {
    if !(b.unacknowledged < f.ackNo <= b.sendNext) && f.ackNo > b.sendNext then (b, true)
    else
      var c := if b.unacknowledged < f.ackNo <= b.sendNext then b.(unacknowledged := f.ackNo) else b;
      if c.state == FinWait1 then (if f.ackNo == c.sendNext then c.(state := FinWait2) else c, false)
      else if c.state == Closing then (if f.ackNo == c.sendNext then c.(state := TimeWait) else c, true)
      else (c, false)
  }

  predicate TakesData(s: TcbState) { s == Established || s == FinWait1 || s == FinWait2 }

  predicate MaySend(s: TcbState) { s == Established || s == CloseWait }

  function Stored(b: Tcb, f: Segment): Tcb
    requires Sane(b) && |f.data| <= b.receiveWindow
  {
    var at := DEF_WINDOW_SIZE - b.receiveWindow;
    b.(window := b.window[..at] + f.data + b.window[at + |f.data|..],
       receiveNext := Plus(f.seqNo, |f.data|),
       receiveWindow := b.receiveWindow - |f.data|)
  }

  function Terminated(b: Tcb): Tcb {
    var c := b.(receiveNext := Plus(b.receiveNext, 1));
    match b.state
    case SynReceived => c.(state := CloseWait)
    case Established => c.(state := CloseWait)
    case FinWait1 => c.(state := FinWait2)
    case FinWait2 => c.(state := TimeWait)
    case _ => c
  }

  function Cleared(b: Tcb): Tcb {
    b.(started := false, state := Closed, parent := None, device := None, srcPort := 0, dstAddr := 0, dstPort := 0)
  }

  /** Past LISTEN, a segment counts only if it is the next in sequence, acknowledges, and neither resets nor opens. */
  predicate InSequence(b: Tcb, f: Segment) { f.seqNo == b.receiveNext && f.ack && !f.rst && !f.syn }

  /** The segment completes the handshake: the block is established and queued on its parent. */
  predicate Completes(b: Tcb, f: Segment) { b.state == SynReceived && InSequence(b, f) && AckInBounds(b, f) }

  /** Payload reaches the buffer. */
  predicate Stores(b: Tcb, f: Segment) {
    && InSequence(b, f) && f.psh && |f.data| > 0
    && (TakesData(b.state) || Completes(b, f))
    && !(f.ackNo > b.sendNext)
  }

  /** What StoreData takes for granted: the payload fits the window it was offered. */
  predicate Acceptable(b: Tcb, f: Segment) { Stores(b, f) ==> Sane(b) && |f.data| <= b.receiveWindow }

  /** Acknowledging leaves the buffer alone, and lets payload in only if Stores says so. */
  lemma AckedStores(b: Tcb, b1: Tcb, f: Segment)
    requires InSequence(b, f) && b1 == if Completes(b, f) then b.(state := Established) else b
    ensures Acked(b1, f).0.receiveWindow == b.receiveWindow && Acked(b1, f).0.window == b.window
    ensures f.psh && |f.data| > 0 && !Acked(b1, f).1 && TakesData(Acked(b1, f).0.state) ==> Stores(b, f)
  {
  }

  /** Steps from DoSynReceived on, for a block past LISTEN. */
  function Progressed(b: Tcb, f: Segment): Tcb
    requires Acceptable(b, f) && InSequence(b, f)
  {
    var b1 := if Completes(b, f) then b.(state := Established) else b;
    var (b2, stop) := if b.state == TimeWait then (b1, false) else Acked(b1, f);
    if stop then b2
    else
      var b3 := if f.psh && |f.data| > 0 && TakesData(b2.state) then Stored(b2, f) else b2;
      if f.fin then Terminated(b3) else b3
  }

  /** TCB::Main. */
  function Handled(b: Tcb, f: Segment, iss: Word): Tcb
    requires Acceptable(b, f)
  {
    if b.state == Listen then Listened(b, f, iss)
    else if b.state == SynSent || b.state == Closed || !InSequence(b, f) then b
    else if b.state == LastAck then Cleared(b)
    else Progressed(b, f)
  }

  // ---------- What the peer can count on ----------

  /** In sequence, acknowledging no more than was sent, neither resetting nor opening. */
  predicate Expected(b: Tcb, f: Segment) {
    f.seqNo == b.receiveNext && f.ack && !f.rst && !f.syn && f.ackNo <= b.sendNext
  }

  /** The payload bytes that such a segment leaves in the buffer. */
  function Payload(b: Tcb, f: Segment): seq<Byte> {
    var open := b.state in {Established, FinWait1, FinWait2} || (b.state == SynReceived && b.unacknowledged <= f.ackNo);
    if f.psh && open then f.data else []
  }

  lemma PayloadShape(b: Tcb, f: Segment, iss: Word)
    requires Acceptable(b, f) && Sane(b) && Expected(b, f)
    requires b.state in {SynReceived, Established, FinWait1, FinWait2, CloseWait}
    ensures |Payload(b, f)| <= b.receiveWindow
    ensures var h, s := Handled(b, f, iss), if Payload(b, f) == [] then b else Stored(b, f);
            && h.window == s.window && h.receiveWindow == s.receiveWindow
            && h.receiveNext == if f.fin then Plus(s.receiveNext, 1) else s.receiveNext
  {
    hide Plus, Acked, Stored;
    var b1 := if Completes(b, f) then b.(state := Established) else b;
    AckedPasses(b1, f);
    StoredAlike(b, Acked(b1, f).0, f);
  }

  /** An acknowledgement within bounds lets the rest of the segment through and leaves the buffer alone. */
  lemma AckedPasses(b: Tcb, f: Segment)
    requires f.ackNo <= b.sendNext && b.state != Closing
    ensures var (c, stop) := Acked(b, f);
            && !stop && c.window == b.window && c.receiveWindow == b.receiveWindow && c.receiveNext == b.receiveNext
            && (TakesData(c.state) <==> TakesData(b.state))
  {
  }

  lemma StoredAlike(b: Tcb, c: Tcb, f: Segment)
    requires c.window == b.window && c.receiveWindow == b.receiveWindow
    ensures Sane(b) && |f.data| <= b.receiveWindow ==>
      && Sane(c) && Stored(c, f).window == Stored(b, f).window
      && Stored(c, f).receiveWindow == Stored(b, f).receiveWindow
      && Stored(c, f).receiveNext == Stored(b, f).receiveNext
  {
  }

  /** Its payload is appended to what is buffered, and Next moves on by as much and one more for a FIN. */
  lemma PayloadTaken(b: Tcb, f: Segment, iss: Word)
    requires Acceptable(b, f) && Sane(b) && Expected(b, f)
    requires b.state in {SynReceived, Established, FinWait1, FinWait2, CloseWait}
    ensures Sane(Handled(b, f, iss)) && Buffered(Handled(b, f, iss)) == Buffered(b) + Payload(b, f)
    ensures Handled(b, f, iss).receiveNext == Plus(f.seqNo, |Payload(b, f)| + if f.fin then 1 else 0)
  {
    hide Handled, Acceptable, Plus;
    PayloadShape(b, f, iss);
    if Payload(b, f) == [] {
      assert Buffered(b) + [] == Buffered(b);
    } else {
      StoredBuffer(b, f);
    }
    PlusPlus(f.seqNo, |Payload(b, f)|, 1);
    PlusPlus(f.seqNo, 0, 1);
    assert Plus(f.seqNo, 0) == f.seqNo by { NothingAdded(f.seqNo); }
  }

  lemma NothingAdded(x: Word)
    ensures Plus(x, 0) == x
  {
  }

  lemma StoredBuffer(b: Tcb, f: Segment)
    requires Sane(b) && |f.data| <= b.receiveWindow
    ensures Sane(Stored(b, f)) && Buffered(Stored(b, f)) == Buffered(b) + f.data
  {
  }

  /** Where a FIN leads. */
  lemma FinEdges(b: Tcb, f: Segment, iss: Word)
    requires Acceptable(b, f) && Expected(b, f) && f.fin
    ensures b.state in {SynReceived, Established, CloseWait} ==> Handled(b, f, iss).state == CloseWait
    ensures b.state == FinWait1 ==> Handled(b, f, iss).state == if f.ackNo == b.sendNext then TimeWait else FinWait2
    ensures b.state == FinWait2 || b.state == TimeWait ==> Handled(b, f, iss).state == TimeWait
  {
  }

  /** Where a segment without a FIN leads. */
  lemma OtherEdges(b: Tcb, f: Segment, iss: Word)
    requires Acceptable(b, f) && Expected(b, f) && !f.fin
    ensures b.state == SynReceived ==>
      Handled(b, f, iss).state == if b.unacknowledged <= f.ackNo then Established else SynReceived
    ensures b.state == FinWait1 ==> Handled(b, f, iss).state == if f.ackNo == b.sendNext then FinWait2 else FinWait1
    ensures b.state in {Established, FinWait2, CloseWait, TimeWait} ==> Handled(b, f, iss).state == b.state
  {
  }

  /** The last acknowledgements of a connection. */
  lemma LastEdges(b: Tcb, f: Segment, iss: Word)
    requires Acceptable(b, f) && Expected(b, f)
    ensures b.state == Closing ==> Handled(b, f, iss).state == if f.ackNo == b.sendNext then TimeWait else Closing
    ensures b.state == LastAck ==> Handled(b, f, iss).state == Closed && !Handled(b, f, iss).started
  {
  }

  /** A segment out of sequence, without an acknowledgement, resetting or opening changes nothing. */
  lemma OthersIgnored(b: Tcb, f: Segment, iss: Word)
    requires Acceptable(b, f) && b.state != Listen
    requires f.seqNo != b.receiveNext || !f.ack || f.rst || f.syn
    ensures Handled(b, f, iss) == b
  {
  }

  /** Nor does one that acknowledges what was never sent, until the connection is past that. */
  lemma BeyondIgnored(b: Tcb, f: Segment, iss: Word)
    requires Acceptable(b, f) && f.ackNo > b.sendNext
    requires b.state in {SynReceived, Established, FinWait1, FinWait2, CloseWait, Closing}
    ensures Handled(b, f, iss) == b
  {
  }

  /** A SYN to a listening block is answered: the block remembers both initial numbers. */
  lemma SynTaken(b: Tcb, f: Segment, iss: Word)
    requires Acceptable(b, f) && b.state == Listen
    ensures if f.syn && !f.rst && !f.ack then
              && Handled(b, f, iss).state == SynReceived && Handled(b, f, iss).irs == f.seqNo
              && Handled(b, f, iss).receiveNext == Plus(f.seqNo, 1) && Handled(b, f, iss).iss == iss
              && Handled(b, f, iss).unacknowledged == iss && Handled(b, f, iss).sendNext == Plus(iss, 1)
            else Handled(b, f, iss) == b
  {
  }

  // ---------- Which block a segment reaches ----------

  /** Started, on the segment's interface, with the segment's destination port. */
  predicate OnPort(b: Tcb, dev: nat, f: Segment) {
    b.started && (b.device.None? || b.device == Some(dev)) && b.srcPort == f.dstPort
  }

  predicate Exact(b: Tcb, dev: nat, f: Segment) {
    OnPort(b, dev, f) && b.dstAddr == f.srcAddr && b.dstPort == f.srcPort
  }

  predicate Listening(b: Tcb, dev: nat, f: Segment) { OnPort(b, dev, f) && b.state == Listen }

  datatype Target = Existing(i: nat) | NewBlock(i: nat, parent: nat) | Nobody

  /** The first block that matches exactly; else the first free block under the first listener, for a SYN. */
  ghost predicate IsTarget(t: seq<Tcb>, dev: nat, f: Segment, r: Target) {
    match r
    case Existing(i) => i < |t| && Exact(t[i], dev, f) && forall k :: 0 <= k < i ==> !Exact(t[k], dev, f)
    case NewBlock(i, p) =>
      && f.syn && (forall k :: 0 <= k < |t| ==> !Exact(t[k], dev, f))
      && i < |t| && !t[i].started && (forall k :: 0 <= k < i ==> t[k].started)
      && p < |t| && Listening(t[p], dev, f) && (forall k :: 0 <= k < p ==> !Listening(t[k], dev, f))
    case Nobody =>
      && (forall k :: 0 <= k < |t| ==> !Exact(t[k], dev, f))
      && (!f.syn || (forall k :: 0 <= k < |t| ==> t[k].started) || forall k :: 0 <= k < |t| ==>
           !Listening(t[k], dev, f))
  }

  lemma TargetUnique(t: seq<Tcb>, dev: nat, f: Segment, r: Target, r': Target)
    requires IsTarget(t, dev, f, r) && IsTarget(t, dev, f, r')
    ensures r == r'
  {
  }

  /** Block k is the segment's connection: its own port, the peer's address and port, any or the same interface. */
  predicate Connects(b: Tcb, dev: nat, f: Segment) {
    b.started && b.srcPort == f.dstPort && b.dstAddr == f.srcAddr && b.dstPort == f.srcPort
    && (b.device == None || b.device == Some(dev))
  }

  /** The block listens on the segment's port. */
  predicate Listens(b: Tcb, dev: nat, f: Segment) {
    b.started && b.state == Listen && b.srcPort == f.dstPort && (b.device == None || b.device == Some(dev))
  }

  /** A segment of a connection reaches that connection, and a new block is only for a SYN of none. */
  lemma TargetConnects(t: seq<Tcb>, dev: nat, f: Segment, r: Target)
    requires IsTarget(t, dev, f, r)
    ensures r.Existing? <==> exists k :: 0 <= k < |t| && Connects(t[k], dev, f)
    ensures r.Existing? ==> Connects(t[r.i], dev, f) && forall k :: 0 <= k < r.i ==> !Connects(t[k], dev, f)
    ensures r.NewBlock? ==>
      && f.syn && !t[r.i].started && (forall k :: 0 <= k < r.i ==> t[k].started)
      && Listens(t[r.parent], dev, f) && (forall k :: 0 <= k < r.parent ==> !Listens(t[k], dev, f))
  {
    if r.Existing? { assert Connects(t[r.i], dev, f); }
    forall k | 0 <= k < |t| ensures Connects(t[k], dev, f) <==> Exact(t[k], dev, f) {}
    forall k | 0 <= k < |t| ensures Listens(t[k], dev, f) <==> Listening(t[k], dev, f) {}
  }

  /** The search loop of TCP<4>::Main. */
  method Demultiplex(t: seq<Tcb>, dev: nat, f: Segment) returns (r: Target)
    ensures IsTarget(t, dev, f, r)
  {
    var free: Option<nat>, listener: Option<nat> := None, None;
    var k := 0;
    while k < |t|
      invariant 0 <= k <= |t|
      invariant forall j :: 0 <= j < k ==> !Exact(t[j], dev, f)
      invariant if free.None? then forall j :: 0 <= j < k ==> t[j].started
                else free.value < k && !t[free.value].started && forall j :: 0 <= j < free.value ==> t[j].started
      invariant if listener.None? then forall j :: 0 <= j < k ==> !Listening(t[j], dev, f)
                else listener.value < k && Listening(t[listener.value], dev, f)
                     && forall j :: 0 <= j < listener.value ==> !Listening(t[j], dev, f)
    {
      if !t[k].started {
        if free.None? { free := Some(k); }
      } else if OnPort(t[k], dev, f) {
        if t[k].dstAddr == f.srcAddr && t[k].dstPort == f.srcPort {
          return Existing(k);
        }
        if t[k].state == Listen && listener.None? { listener := Some(k); }
      }
      k := k + 1;
    }
    r := if free.None? || listener.None? || !f.syn then Nobody else NewBlock(free.value, listener.value);
  }

  function Forked(b: Tcb, p: nat, parent: Tcb, dev: nat, f: Segment): Tcb {
    b.(started := true, state := parent.state, device := Some(dev), srcPort := parent.srcPort,
       dstAddr := f.srcAddr, dstPort := f.srcPort, receiveWindow := DEF_WINDOW_SIZE, parent := Some(p))
  }

  // ---------- Runs ----------

  /**
   The table and each block's queue, with what has happened so far: how often each block
   became established, the blocks ever queued on each block, those Accept took from it,
   and, since it was forked, the bytes Receive took from it and the number it has sent.
   */
  datatype World = World(
    table: seq<Tcb>, queues: seq<seq<nat>>,
    established: seq<nat>, joined: seq<seq<nat>>, taken: seq<seq<nat>>, got: seq<seq<Byte>>, sent: seq<nat>)

  datatype Event =
    | Arrive(dev: nat, f: Segment, iss: Word, to: Target, off: nat)  // off: where the sender's stream has the payload
    | Accept(i: nat)
    | Receive(i: nat, size: nat)
    | Transmit(i: nat, size: nat)

  /** The table in which a segment finds its block: after the fork, if there is one. */
  function Opened(t: seq<Tcb>, dev: nat, f: Segment, to: Target): seq<Tcb>
    requires to.NewBlock? ==> to.i < |t| && to.parent < |t|
  {
    if to.NewBlock? then t[to.i := Forked(t[to.i], to.parent, t[to.parent], dev, f)] else t
  }

  function Entered(w: World, dev: nat, f: Segment, to: Target): World
    requires Shaped(w) && (to.NewBlock? ==> to.i < |w.table| && to.parent < |w.table|)
  {
    w.(table := Opened(w.table, dev, f, to), got := if to.NewBlock? then w.got[to.i := []] else w.got,
       sent := if to.NewBlock? then w.sent[to.i := 0] else w.sent)
  }

  predicate Shaped(w: World) {
    |w.table| == |w.queues| == |w.established| == |w.joined| == |w.taken| == |w.got| == |w.sent|
  }

  /** A step can happen: Accept and Receive wait for something to return. */
  ghost predicate Enabled(w: World, e: Event) {
    && Shaped(w)
    && match e
       case Arrive(dev, f, _, to, _) =>
         && f.srcPort != 0 && IsTarget(w.table, dev, f, to)
         && (!to.Nobody? ==> Acceptable(Opened(w.table, dev, f, to)[to.i], f))
       case Accept(i) => i < |w.table| && w.table[i].started && w.table[i].state == Listen && w.queues[i] != []
       case Receive(i, _) => i < |w.table| && Sane(w.table[i]) && Buffered(w.table[i]) != []
       case Transmit(i, _) => i < |w.table| && w.table[i].started && MaySend(w.table[i].state)
  }

  /** Block i handles the segment; if it completes the handshake its parent queues it. */
  function Delivered(w: World, i: nat, f: Segment, iss: Word): World
    requires Shaped(w) && i < |w.table| && Acceptable(w.table[i], f)
  {
    var b := w.table[i];
    var u := w.(table := w.table[i := Handled(b, f, iss)]);
    if !Completes(b, f) || b.parent.None? || b.parent.value >= |w.table| then u
    else
      var p := b.parent.value;
      u.(queues := w.queues[p := w.queues[p] + [i]], joined := w.joined[p := w.joined[p] + [i]],
         established := w.established[i := w.established[i] + 1])
  }

  /** What Receive copies out, and the block after it. */
  function Taken(b: Tcb, size: nat): (seq<Byte>, Tcb)
    requires Sane(b)
  {
    var total := DEF_WINDOW_SIZE - b.receiveWindow;
    var n := if size < total then size else total;
    (b.window[..n], b.(window := b.window[n..total] + b.window[total - n..], receiveWindow := b.receiveWindow + n))
  }

  /** Exactly the first size bytes that are buffered, or all of them, leave. */
  lemma TakenExactly(b: Tcb, size: nat)
    requires Sane(b)
    ensures var n, r := if size < |Buffered(b)| then size else |Buffered(b)|, Taken(b, size);
            && Sane(r.1) && r.0 == Buffered(b)[..n] && Buffered(r.1) == Buffered(b)[n..]
            && r.1 == b.(window := r.1.window, receiveWindow := r.1.receiveWindow)
  {
  }

  function Step(w: World, e: Event): World
    requires Enabled(w, e)
  {
    match e
    case Arrive(dev, f, iss, to, _) =>
      if to.Nobody? then w else Delivered(Entered(w, dev, f, to), to.i, f, iss)
    case Accept(i) =>
      w.(queues := w.queues[i := w.queues[i][1..]], taken := w.taken[i := w.taken[i] + [w.queues[i][0]]])
    case Receive(i, size) =>
      var (bytes, b) := Taken(w.table[i], size);
      w.(table := w.table[i := b], got := w.got[i := w.got[i] + bytes])
    case Transmit(i, size) =>
      var b := w.table[i];
      w.(table := w.table[i := b.(sendNext := Plus(b.sendNext, size))], sent := w.sent[i := w.sent[i] + size])
  }

  /** What a segment for an existing block does to the world. */
  lemma ArrivesAt(w: World, e: Event, c: nat)
    requires Enabled(w, e) && e.Arrive? && e.to == Existing(c)
    ensures c < |w.table| == |w.got| == |w.queues| && Acceptable(w.table[c], e.f)
    ensures Step(w, e).table == w.table[c := Handled(w.table[c], e.f, e.iss)] && Step(w, e).got == w.got
    ensures Shaped(Step(w, e))
    ensures Completes(w.table[c], e.f) && w.table[c].parent.Some? && w.table[c].parent.value < |w.table| ==>
      var p := w.table[c].parent.value;
      Step(w, e).queues == w.queues[p := w.queues[p] + [c]]
  {
    hide Handled, Completes, Acceptable, Exact;
  }

  // ---------- The handshake and the accept queue ----------

  /** How a block stands in a run without Close. */
  predicate BlockOk(b: Tcb, n: nat) {
    && |b.window| == PAGE
    && (b.parent.None? ==> b.state == Closed || (b.started && b.state == Listen))
    && (b.parent.None? && b.started ==> b.dstPort == 0)
    && (b.parent.Some? ==>
          && b.started && b.parent.value < n && Sane(b)
          && (b.state == Listen || b.state == SynReceived || b.state == Established || b.state == CloseWait)
          && (b.state == Listen || b.state == SynReceived ==> b.receiveWindow == DEF_WINDOW_SIZE)
          && (b.state == SynReceived ==> Fresh(b)))
  }

  /** A block that has answered the SYN expects the first byte of the stream and an acknowledgement of its own. */
  predicate Fresh(b: Tcb) {
    b.receiveNext == Plus(b.irs, 1) && b.unacknowledged == b.iss && b.sendNext == Plus(b.iss, 1)
  }

  /** Next to send is what follows the SYN and the bytes sent; nothing more than that is acknowledged. */
  predicate SentOk(b: Tcb, sent: nat) {
    b.parent.Some? ==>
      && (b.state == Listen || b.state == SynReceived ==> sent == 0)
      && (b.state != Listen ==> b.sendNext == Plus(b.iss, 1 + sent) && b.iss <= b.unacknowledged <= b.iss + 1 + sent)
  }

  predicate EstablishedOk(b: Tcb, n: nat) {
    && n <= 1
    && (n == 1 ==> b.parent.Some? && (b.state == Established || b.state == CloseWait))
    && (b.state == Established ==> n == 1)
  }

  lemma HandledKeeps(b: Tcb, f: Segment, iss: Word, n: nat)
    requires BlockOk(b, n) && b.parent.Some? && Acceptable(b, f)
    ensures BlockOk(Handled(b, f, iss), n) && Handled(b, f, iss).parent == b.parent
    ensures Completes(b, f) ==> b.state == SynReceived
    ensures Completes(b, f) ==> Handled(b, f, iss).state == Established || Handled(b, f, iss).state == CloseWait
    ensures !Completes(b, f) && Handled(b, f, iss).state == Established ==> b.state == Established
    ensures Handled(b, f, iss).state == Listen ==> b.state == Listen
    ensures Handled(b, f, iss).state == SynReceived ==> b.state == Listen || b.state == SynReceived
    ensures b.state == Established || b.state == CloseWait ==>
      Handled(b, f, iss).state == Established || Handled(b, f, iss).state == CloseWait
  {
  }

  /** An acknowledgement is taken exactly when its segment is in sequence and it acknowledges more but not too much. */
  lemma AckAdvances(b: Tcb, f: Segment, iss: Word, n: nat)
    requires BlockOk(b, n) && b.parent.Some? && b.state != Listen && Acceptable(b, f)
    ensures Handled(b, f, iss).sendNext == b.sendNext && Handled(b, f, iss).iss == b.iss
    ensures Handled(b, f, iss).unacknowledged ==
      if InSequence(b, f) && b.unacknowledged < f.ackNo <= b.sendNext then f.ackNo else b.unacknowledged
  {
  }

  lemma HandledSent(b: Tcb, f: Segment, iss: Word, n: nat, sent: nat)
    requires BlockOk(b, n) && b.parent.Some? && Acceptable(b, f) && SentOk(b, sent)
    ensures SentOk(Handled(b, f, iss), sent)
  {
    HandledKeeps(b, f, iss, n);
    if b.state != Listen {
      hide Handled, Completes;
      AckAdvances(b, f, iss, n);
    }
  }

  /** The number of times c was queued on p. */
  predicate JoinedOk(w: World, p: nat, c: nat)
    requires Shaped(w) && p < |w.joined|
  {
    multiset(w.joined[p])[c] == if c < |w.table| && w.table[c].parent == Some(p) then w.established[c] else 0
  }

  ghost predicate Inv(w: World) {
    && Shaped(w)
    && (forall c :: 0 <= c < |w.table| ==>
         BlockOk(w.table[c], |w.table|) && EstablishedOk(w.table[c], w.established[c]))
    && (forall c :: 0 <= c < |w.table| ==> SentOk(w.table[c], w.sent[c]))
    && (forall p, c :: 0 <= p < |w.joined| && 0 <= c ==> JoinedOk(w, p, c))
    && (forall p :: 0 <= p < |w.joined| ==> w.joined[p] == w.taken[p] + w.queues[p])
  }

  lemma OpenedKeeps(w: World, dev: nat, f: Segment, to: Target)
    requires Inv(w) && IsTarget(w.table, dev, f, to) && f.srcPort != 0 && !to.Nobody?
    ensures Inv(Entered(w, dev, f, to))
    ensures Opened(w.table, dev, f, to)[to.i].parent.Some?
  {
    var u := Entered(w, dev, f, to);
    assert BlockOk(w.table[to.i], |w.table|) && EstablishedOk(w.table[to.i], w.established[to.i]);
    forall p, c | 0 <= p < |w.joined| && 0 <= c ensures JoinedOk(u, p, c) {
      assert JoinedOk(w, p, c);
    }
  }

  /** One more block on p's queue: it is its first time. */
  lemma QueuedOnce(w: World, i: nat, f: Segment, iss: Word, p: nat, c: nat)
    requires Inv(w) && i < |w.table| && w.table[i].parent.Some? && Acceptable(w.table[i], f) && p < |w.joined|
    ensures JoinedOk(Delivered(w, i, f, iss), p, c)
  {
    hide Handled, Completes, Inv;
    InvAt(w, i, p, c);
    HandledKeeps(w.table[i], f, iss, |w.table|);
    assert multiset(w.joined[p] + [i]) == multiset(w.joined[p]) + multiset{i};
  }

  lemma InvAt(w: World, i: nat, p: nat, c: nat)
    requires Inv(w) && i < |w.table| && p < |w.joined|
    ensures Shaped(w) && JoinedOk(w, p, c)
    ensures BlockOk(w.table[i], |w.table|) && EstablishedOk(w.table[i], w.established[i])
              && SentOk(w.table[i], w.sent[i])
    ensures w.joined[p] == w.taken[p] + w.queues[p]
  {
  }

  lemma InvShaped(w: World)
    requires Inv(w)
    ensures Shaped(w)
  {
  }

  lemma BlockKept(w: World, i: nat)
    requires Inv(w) && i < |w.table|
    ensures BlockOk(w.table[i], |w.table|)
  {
  }

  lemma DeliveredKeeps(w: World, i: nat, f: Segment, iss: Word)
    requires Inv(w) && i < |w.table| && w.table[i].parent.Some? && Acceptable(w.table[i], f)
    ensures Inv(Delivered(w, i, f, iss))
  {
    hide Handled, Completes, JoinedOk;
    var u := Delivered(w, i, f, iss);
    assert BlockOk(w.table[i], |w.table|) && EstablishedOk(w.table[i], w.established[i]);
    HandledKeeps(w.table[i], f, iss, |w.table|);
    forall p, c | 0 <= p < |u.joined| && 0 <= c ensures JoinedOk(u, p, c) {
      QueuedOnce(w, i, f, iss, p, c);
    }
    forall c | 0 <= c < |u.table|
      ensures BlockOk(u.table[c], |u.table|) && EstablishedOk(u.table[c], u.established[c])
    {
      assert BlockOk(w.table[c], |w.table|) && EstablishedOk(w.table[c], w.established[c]);
    }
    forall p | 0 <= p < |u.joined| ensures u.joined[p] == u.taken[p] + u.queues[p] {
      assert w.joined[p] == w.taken[p] + w.queues[p];
    }
    assert SentOk(w.table[i], w.sent[i]);
    HandledSent(w.table[i], f, iss, |w.table|, w.sent[i]);
  }

  lemma AcceptKeeps(w: World, i: nat)
    requires Inv(w) && Enabled(w, Accept(i))
    ensures Inv(Step(w, Accept(i)))
  {
    var u := Step(w, Accept(i));
    forall p, c | 0 <= p < |u.joined| && 0 <= c ensures JoinedOk(u, p, c) { assert JoinedOk(w, p, c); }
    forall p | 0 <= p < |u.joined| ensures u.joined[p] == u.taken[p] + u.queues[p] {
      assert w.joined[p] == w.taken[p] + w.queues[p];
    }
  }

  lemma ReceiveKeeps(w: World, i: nat, size: nat)
    requires Inv(w) && Enabled(w, Receive(i, size))
    ensures Inv(Step(w, Receive(i, size)))
  {
    var u := Step(w, Receive(i, size));
    assert BlockOk(w.table[i], |w.table|);
    forall p, c | 0 <= p < |u.joined| && 0 <= c ensures JoinedOk(u, p, c) { assert JoinedOk(w, p, c); }
  }

  lemma TransmitKeeps(w: World, i: nat, size: nat)
    requires Inv(w) && Enabled(w, Transmit(i, size))
    ensures Inv(Step(w, Transmit(i, size)))
  {
    var u := Step(w, Transmit(i, size));
    assert BlockOk(w.table[i], |w.table|) && SentOk(w.table[i], w.sent[i]);
    PlusPlus(w.table[i].iss, 1 + w.sent[i], size);
    forall p, c | 0 <= p < |u.joined| && 0 <= c ensures JoinedOk(u, p, c) { assert JoinedOk(w, p, c); }
  }

  lemma StepKeeps(w: World, e: Event)
    requires Inv(w) && Enabled(w, e)
    ensures Inv(Step(w, e))
  {
    hide Inv;
    match e
    case Arrive(dev, f, iss, to, _) =>
      if !to.Nobody? {
        OpenedKeeps(w, dev, f, to);
        DeliveredKeeps(Entered(w, dev, f, to), to.i, f, iss);
      }
    case Accept(i) => AcceptKeeps(w, i);
    case Receive(i, size) => ReceiveKeeps(w, i, size);
    case Transmit(i, size) => TransmitKeeps(w, i, size);
  }

  /** Before any segment: opened or listening blocks without peers, and free blocks. */
  ghost predicate Initial(w: World) {
    && Shaped(w)
    && (forall c :: 0 <= c < |w.table| ==> BlockOk(w.table[c], |w.table|) && w.table[c].parent.None?)
    && (forall c :: 0 <= c < |w.table| ==> w.established[c] == 0)
    && (forall c :: 0 <= c < |w.table| ==> w.queues[c] == w.joined[c] == w.taken[c] == [])
  }

  /** v is reached from w by the events, each possible when it happens. */
  ghost predicate Reaches(w: World, events: seq<Event>, v: World)
    decreases |events|
  {
    if events == [] then w == v else Enabled(w, events[0]) && Reaches(Step(w, events[0]), events[1..], v)
  }

  lemma InitialKeeps(w: World)
    requires Initial(w)
    ensures Inv(w)
  {
    forall p, c | 0 <= p < |w.joined| && 0 <= c ensures JoinedOk(w, p, c) {}
  }

  lemma {:induction false} RunKeeps(w: World, events: seq<Event>, v: World)
    requires Inv(w) && Reaches(w, events, v)
    ensures Inv(v)
    decreases |events|
  {
    if events != [] {
      StepKeeps(w, events[0]);
      RunKeeps(Step(w, events[0]), events[1..], v);
    }
  }

  lemma CountsOne(s: seq<nat>, i: nat, j: nat)
    requires i < j < |s| && s[i] == s[j]
    ensures multiset(s)[s[i]] >= 2
  {
    assert s == s[..i] + [s[i]] + s[i + 1..j] + [s[j]] + s[j + 1..];
  }

  /**
   Over every run of segments, Accept and Receive: a block becomes established at most
   once; the blocks queued on p are its established children, each once; and Accept has
   returned them in the order they were queued, the rest still waiting in that order.
   */
  lemma HandshakeAndAccept(w: World, events: seq<Event>, v: World, p: nat)
    requires Initial(w) && Reaches(w, events, v) && p < |v.table|
    ensures Shaped(v) && v.joined[p] == v.taken[p] + v.queues[p]
    ensures v.established[p] <= 1
    ensures forall i, j :: 0 <= i < j < |v.joined[p]| ==> v.joined[p][i] != v.joined[p][j]
    ensures forall c :: 0 <= c < |v.table| ==>
      (c in v.joined[p] <==> v.table[c].parent == Some(p) && v.established[c] == 1)
  {
    InitialKeeps(w);
    RunKeeps(w, events, v);
    InvAt(v, p, p, p);
    forall i, j | 0 <= i < j < |v.joined[p]| ensures v.joined[p][i] != v.joined[p][j] {
      var c := v.joined[p][i];
      assert JoinedOk(v, p, c);
      assert c < |v.table| ==> EstablishedOk(v.table[c], v.established[c]);
      if v.joined[p][i] == v.joined[p][j] { CountsOne(v.joined[p], i, j); }
    }
    forall c | 0 <= c < |v.table|
      ensures c in v.joined[p] <==> v.table[c].parent == Some(p) && v.established[c] == 1
    {
      InvAt(v, c, p, c);
      assert c in v.joined[p] <==> c in multiset(v.joined[p]);
    }
  }

  /** Without Close, a block is closed, listening, opening, established or closed by its peer. */
  lemma StatesReached(w: World, events: seq<Event>, v: World, c: nat)
    requires Initial(w) && Reaches(w, events, v) && c < |v.table|
    ensures v.table[c].state in {Closed, Listen, SynReceived, Established, CloseWait}
  {
    InitialKeeps(w);
    RunKeeps(w, events, v);
    InvAt(v, c, c, c);
  }

  /** Which segments complete the handshake of a block that has answered the SYN. */
  lemma CompletesExactly(b: Tcb, f: Segment, n: nat)
    requires BlockOk(b, n) && b.parent.Some?
    ensures Completes(b, f) <==>
      && b.state == SynReceived && f.seqNo == Plus(b.irs, 1) && f.ack && !f.syn && !f.rst
      && b.iss < WRAP - 1 && (f.ackNo == b.iss || f.ackNo == b.iss + 1)
  {
  }

  /**
   In a run, the segment that completes a handshake starts at the first byte of the stream,
   acknowledges, neither resets nor opens, and its acknowledgement is the code's own ISS or,
   unless that is the last number before the wrap, the one after it.
   */
  lemma EstablishedBy(w: World, events: seq<Event>, v: World, c: nat, f: Segment)
    requires Initial(w) && Reaches(w, events, v) && c < |v.table| && v.table[c].parent.Some?
    ensures Completes(v.table[c], f) <==>
      && v.table[c].state == SynReceived && f.seqNo == Plus(v.table[c].irs, 1) && f.ack && !f.syn && !f.rst
      && v.table[c].iss < WRAP - 1 && (f.ackNo == v.table[c].iss || f.ackNo == v.table[c].iss + 1)
  {
    hide Inv, Reaches, Completes, BlockOk;
    InitialKeeps(w);
    RunKeeps(w, events, v);
    BlockKept(v, c);
    CompletesExactly(v.table[c], f, |v.table|);
  }

  /**
   In every reachable state the next number to send follows the SYN and the bytes sent, and
   what is acknowledged lies between the ISS and that, counted without wrap-around.
   */
  lemma AckBounded(w: World, events: seq<Event>, v: World, c: nat)
    requires Initial(w) && Reaches(w, events, v) && c < |v.table|
    requires v.table[c].parent.Some? && v.table[c].state != Listen
    ensures Shaped(v) && v.table[c].sendNext == Plus(v.table[c].iss, 1 + v.sent[c])
    ensures v.table[c].iss <= v.table[c].unacknowledged <= v.table[c].iss + 1 + v.sent[c]
  {
    InitialKeeps(w);
    RunKeeps(w, events, v);
    InvAt(v, c, c, c);
  }

  // ---------- Opening a connection ----------

  /** The two segments with which a peer opens a connection; the second answers the initial number iss. */
  predicate Opening(syn: Segment, ack: Segment, iss: Word) {
    && syn.srcPort != 0 && syn.syn && !syn.ack && !syn.rst
    && ack.srcAddr == syn.srcAddr && ack.srcPort == syn.srcPort && ack.dstPort == syn.dstPort
    && ack.seqNo == Plus(syn.seqNo, 1) && ack.ackNo == Plus(iss, 1) && ack.ack && !ack.syn && !ack.rst && !ack.fin
    && ack.data == []
  }

  /** The SYN: a block is forked and answers. */
  lemma SynArrives(w: World, dev: nat, syn: Segment, iss: Word, i: nat, p: nat)
    requires Inv(w) && syn.srcPort != 0 && syn.syn && !syn.ack && !syn.rst
    requires IsTarget(w.table, dev, syn, NewBlock(i, p))
    ensures var e := Arrive(dev, syn, iss, NewBlock(i, p), 0);
            && Enabled(w, e) && var u := Step(w, e);
            && Shaped(u) && |u.table| == |w.table| && i < |w.table| && p < |w.table| && i != p && u.queues == w.queues
            && u.table == w.table[i := u.table[i]] && w.table[p].started && w.table[p].state == Listen
            && var b := u.table[i];
            && b.state == SynReceived && b.parent == Some(p) && b.started && b.device == Some(dev)
            && b.srcPort == syn.dstPort && b.dstAddr == syn.srcAddr && b.dstPort == syn.srcPort
            && b.receiveNext == Plus(syn.seqNo, 1) && b.unacknowledged == iss && b.sendNext == Plus(iss, 1)
  {
    hide Plus, Inv;
    InvShaped(w);
  }

  /** The acknowledgement reaches that block. */
  lemma AckFinds(w: World, u: World, dev: nat, syn: Segment, ack: Segment, i: nat, p: nat)
    requires IsTarget(w.table, dev, syn, NewBlock(i, p))
    requires i < |w.table| == |u.table| && u.table == w.table[i := u.table[i]]
    requires ack.srcAddr == syn.srcAddr && ack.srcPort == syn.srcPort && ack.dstPort == syn.dstPort
    requires Connects(u.table[i], dev, ack)
    ensures IsTarget(u.table, dev, ack, Existing(i))
  {
    forall k | 0 <= k < i ensures !Exact(u.table[k], dev, ack) { assert !Exact(w.table[k], dev, syn); }
  }

  /** It completes the handshake. */
  lemma AckCompletes(b: Tcb, ack: Segment, iss': Word, seqNo: Word, iss: Word)
    requires b.state == SynReceived && b.receiveNext == Plus(seqNo, 1) && b.unacknowledged == iss < WRAP - 1
    requires b.sendNext == Plus(iss, 1) && ack.seqNo == Plus(seqNo, 1) && ack.ackNo == Plus(iss, 1)
    requires ack.ack && !ack.syn && !ack.rst && !ack.fin && ack.data == []
    ensures Completes(b, ack) && Acceptable(b, ack)
    ensures Handled(b, ack, iss').state == Established && Handled(b, ack, iss').receiveNext == b.receiveNext
  {
    assert Plus(iss, 1) == iss + 1;
    hide Plus;
  }

  lemma AckEnabled(u: World, dev: nat, ack: Segment, iss: Word, i: nat)
    requires Shaped(u) && ack.srcPort != 0 && IsTarget(u.table, dev, ack, Existing(i)) && i < |u.table|
    requires Acceptable(u.table[i], ack)
    ensures Enabled(u, Arrive(dev, ack, iss, Existing(i), 0))
  {
    hide Acceptable;
  }

  lemma AcceptEnabled(v: World, p: nat)
    requires Shaped(v) && p < |v.table| && v.table[p].started && v.table[p].state == Listen && v.queues[p] != []
    ensures Enabled(v, Accept(p))
  {
  }

  /**
   A peer that sends a SYN to a listening port, with a block free, and then acknowledges the
   answer has a connection: the acknowledgement finds the forked block, which is established
   and last in the listener's queue.  Only the last initial number before the wrap fails.
   */
  lemma ConnectionOpens(w: World, dev: nat, syn: Segment, ack: Segment, iss: Word, iss': Word, i: nat, p: nat)
    requires Inv(w) && Opening(syn, ack, iss) && iss < WRAP - 1 && IsTarget(w.table, dev, syn, NewBlock(i, p))
    ensures var first, second := Arrive(dev, syn, iss, NewBlock(i, p), 0), Arrive(dev, ack, iss', Existing(i), 0);
            && Enabled(w, first) && Enabled(Step(w, first), second)
            && var v := Step(Step(w, first), second);
               && v.table[i].state == Established && v.table[i].receiveNext == Plus(syn.seqNo, 1)
               && v.queues[p] == w.queues[p] + [i] && v.table[p] == w.table[p] && Enabled(v, Accept(p))
  {
    hide Inv, Handled, Completes, Step, Enabled, Acceptable, IsTarget, Plus;
    var first, second := Arrive(dev, syn, iss, NewBlock(i, p), 0), Arrive(dev, ack, iss', Existing(i), 0);
    SynArrives(w, dev, syn, iss, i, p);
    var u := Step(w, first);
    AckFinds(w, u, dev, syn, ack, i, p);
    AckCompletes(u.table[i], ack, iss', syn.seqNo, iss);
    assert Enabled(u, second) by { AckEnabled(u, dev, ack, iss', i); }
    ArrivesAt(u, second, i);
    assert Enabled(Step(u, second), Accept(p)) by { AcceptEnabled(Step(u, second), p); }
  }

  // ---------- The byte stream ----------

  /** What StoreData leaves in the 16-bit window field. */
  function WindowAfter(window: nat, len: nat): nat { (window - len) % 0x1_0000 }

  /** Window plus buffered bytes is 2000 after a payload exactly when the payload fits the window. */
  lemma WindowExact(window: nat, len: nat)
    requires window <= DEF_WINDOW_SIZE
    ensures WindowAfter(window, len) + (DEF_WINDOW_SIZE - window + len) == DEF_WINDOW_SIZE <==> len <= window
  {
  }

  function Length(b: Tcb, got: seq<Byte>): nat
    requires Sane(b)
  {
    |got| + DEF_WINDOW_SIZE - b.receiveWindow
  }

  /** What was handed out and what is buffered are the start of the sender's stream; Next is what follows. */
  ghost predicate StreamOk(b: Tcb, got: seq<Byte>, stream: seq<Byte>) {
    b.parent.Some? ==>
      && Sane(b) && Length(b, got) <= |stream|
      && got + Buffered(b) == stream[..Length(b, got)]
      && (b.state == Listen || b.state == SynReceived ==> got == [])
      && (b.state == SynReceived || b.state == Established ==> b.receiveNext == Plus(b.irs, 1 + Length(b, got)))
  }

  /** A segment of the stream, sent within 2^32 bytes of where the receiver stands. */
  ghost predicate Honest(b: Tcb, got: seq<Byte>, f: Segment, off: nat, stream: seq<Byte>)
    requires Sane(b)
  {
    && off + |f.data| <= |stream| && f.data == stream[off..off + |f.data|]
    && f.seqNo == Plus(b.irs, 1 + off)
    && off < Length(b, got) + WRAP && Length(b, got) < off + WRAP
  }

  lemma PlusPlus(x: Word, m: nat, n: nat)
    ensures Plus(Plus(x, m), n) == Plus(x, m + n)
  {
  }

  lemma SameOffset(x: Word, m: nat, n: nat)
    requires Plus(x, 1 + m) == Plus(x, 1 + n) && m < n + WRAP && n < m + WRAP
    ensures m == n
  {
  }

  lemma StoredStream(b: Tcb, f: Segment, got: seq<Byte>, stream: seq<Byte>)
    requires Sane(b) && |f.data| <= b.receiveWindow
    ensures Sane(Stored(b, f)) && Length(Stored(b, f), got) == Length(b, got) + |f.data|
    ensures got + Buffered(Stored(b, f)) == got + Buffered(b) + f.data
  {
    StoredBuffer(b, f);
  }

  /** The parts of the block that the stream depends on, when payload is stored and when it is not. */
  lemma HandledShape(b: Tcb, f: Segment, iss: Word, n: nat)
    requires BlockOk(b, n) && b.parent.Some? && Acceptable(b, f)
    ensures var h := Handled(b, f, iss);
      if Stores(b, f) then
        && h.window == Stored(b, f).window && h.receiveWindow == Stored(b, f).receiveWindow
        && h.irs == b.irs && (h.state == Established || h.state == CloseWait)
        && (h.state == Established ==> h.receiveNext == Plus(f.seqNo, |f.data|))
      else
        && h.window == b.window && h.receiveWindow == b.receiveWindow
        && (h.state == Listen ==> b.state == Listen)
        && (h.state == SynReceived ==>
              if b.state == Listen then h.receiveNext == Plus(h.irs, 1)
              else b.state == SynReceived && h.irs == b.irs && h.receiveNext == b.receiveNext)
        && (h.state == Established ==>
              (b.state == SynReceived || b.state == Established) && h.irs == b.irs && h.receiveNext == b.receiveNext)
  {
  }

  /** The next payload extends the stream. */
  lemma PayloadStream(b: Tcb, h: Tcb, f: Segment, off: nat, got: seq<Byte>, stream: seq<Byte>)
    requires Sane(b) && |f.data| <= b.receiveWindow && off == Length(b, got) && off + |f.data| <= |stream|
    requires got + Buffered(b) == stream[..off] && f.data == stream[off..off + |f.data|]
    requires h.window == Stored(b, f).window && h.receiveWindow == Stored(b, f).receiveWindow
    ensures Sane(h) && Length(h, got) == off + |f.data| && got + Buffered(h) == stream[..off + |f.data|]
  {
    StoredStream(b, f, got, stream);
    assert stream[..off] + f.data == stream[..off + |f.data|];
  }

  /** A segment that stores nothing leaves the stream as it is; the SYN starts it. */
  lemma NoPayloadStream(b: Tcb, h: Tcb, got: seq<Byte>, stream: seq<Byte>)
    requires StreamOk(b, got, stream) && b.parent.Some? && h.window == b.window && h.receiveWindow == b.receiveWindow
    requires h.state == Listen ==> b.state == Listen
    requires h.state == SynReceived ==>
      if b.state == Listen then h.receiveNext == Plus(h.irs, 1) && h.receiveWindow == DEF_WINDOW_SIZE
      else b.state == SynReceived && h.irs == b.irs && h.receiveNext == b.receiveNext
    requires h.state == Established ==>
      (b.state == SynReceived || b.state == Established) && h.irs == b.irs && h.receiveNext == b.receiveNext
    ensures StreamOk(h, got, stream)
  {
    hide Plus;
  }

  /** One segment extends the stream by its payload if it is the next, and by nothing otherwise. */
  lemma HandledStream(b: Tcb, f: Segment, iss: Word, off: nat, got: seq<Byte>, stream: seq<Byte>, n: nat)
    requires BlockOk(b, n) && b.parent.Some? && Acceptable(b, f) && StreamOk(b, got, stream)
    requires Stores(b, f) ==> Honest(b, got, f, off, stream)
    ensures StreamOk(Handled(b, f, iss), got, stream)
  {
    hide Plus, Handled, Stored, Honest, Completes, Stores, Acceptable, Buffered, Sane, EstablishedOk;
    HandledShape(b, f, iss, n);
    HandledKeeps(b, f, iss, n);
    StoresWhen(b, f, n);
    if Stores(b, f) {
      NextOffset(b, f, off, got, stream);
      PayloadStream(b, Handled(b, f, iss), f, off, got, stream);
    } else {
      NoPayloadStream(b, Handled(b, f, iss), got, stream);
    }
  }

  lemma StoresWhen(b: Tcb, f: Segment, n: nat)
    requires BlockOk(b, n) && b.parent.Some? && Acceptable(b, f)
    ensures Stores(b, f) ==> (b.state == SynReceived || b.state == Established) && |f.data| <= b.receiveWindow
  {
  }

  lemma NextOffset(b: Tcb, f: Segment, off: nat, got: seq<Byte>, stream: seq<Byte>)
    requires Sane(b) && StreamOk(b, got, stream) && b.parent.Some?
    requires Stores(b, f) ==> Honest(b, got, f, off, stream)
    ensures Stores(b, f) && (b.state == SynReceived || b.state == Established) ==>
      && off == Length(b, got) && off + |f.data| <= |stream| && f.data == stream[off..off + |f.data|]
      && f.seqNo == Plus(b.irs, 1 + off) && Plus(f.seqNo, |f.data|) == Plus(b.irs, 1 + off + |f.data|)
  {
    hide Plus;
    if Stores(b, f) && (b.state == SynReceived || b.state == Established) {
      SameOffset(b.irs, off, Length(b, got));
      PlusPlus(b.irs, 1 + off, |f.data|);
    }
  }

  lemma TakenStream(b: Tcb, size: nat, got: seq<Byte>, stream: seq<Byte>, n: nat)
    requires BlockOk(b, n) && StreamOk(b, got, stream) && Sane(b)
    ensures StreamOk(Taken(b, size).1, got + Taken(b, size).0, stream)
  {
    var (bytes, c) := Taken(b, size);
    assert bytes + Buffered(c) == Buffered(b);
    assert (got + bytes) + Buffered(c) == got + (bytes + Buffered(c));
  }

  /** If the event brings block c payload that it will store, the payload is a recent part of the peer's stream. */
  ghost predicate HonestEvent(w: World, e: Event, c: nat, stream: seq<Byte>) {
    && Shaped(w)
    && (e.Arrive? && e.to == Existing(c) && c < |w.table| && Sane(w.table[c]) && Stores(w.table[c], e.f) ==>
          Honest(w.table[c], w.got[c], e.f, e.off, stream))
  }

  lemma ArriveStream(w: World, e: Event, c: nat, stream: seq<Byte>)
    requires Inv(w) && Enabled(w, e) && e.Arrive? && !e.to.Nobody? && c < |w.table|
    requires StreamOk(w.table[c], w.got[c], stream) && HonestEvent(w, e, c, stream)
    ensures StreamOk(Step(w, e).table[c], Step(w, e).got[c], stream)
  {
    hide Handled, Completes, Acceptable, Inv;
    var u := Entered(w, e.dev, e.f, e.to);
    OpenedKeeps(w, e.dev, e.f, e.to);
    InvAt(w, e.to.i, c, c);
    InvAt(u, e.to.i, c, c);
    if e.to.i == c { HandledStream(u.table[c], e.f, e.iss, e.off, u.got[c], stream, |u.table|); }
  }

  lemma StepStream(w: World, e: Event, c: nat, stream: seq<Byte>)
    requires Inv(w) && Enabled(w, e) && c < |w.table|
    requires StreamOk(w.table[c], w.got[c], stream) && HonestEvent(w, e, c, stream)
    ensures |Step(w, e).table| == |Step(w, e).got| == |w.table|
    ensures StreamOk(Step(w, e).table[c], Step(w, e).got[c], stream)
  {
    match e
    case Arrive(_, _, _, _, _) => if !e.to.Nobody? { ArriveStream(w, e, c, stream); }
    case Accept(_) =>
    case Transmit(_, _) =>
    case Receive(i, size) => if i == c { TakenStream(w.table[c], size, w.got[c], stream, |w.table|); }
  }

  ghost predicate HonestRun(w: World, events: seq<Event>, c: nat, stream: seq<Byte>)
    decreases |events|
  {
    events != [] ==>
      Enabled(w, events[0]) && HonestEvent(w, events[0], c, stream)
          && HonestRun(Step(w, events[0]), events[1..], c, stream)
  }

  lemma {:induction false} RunStream(w: World, events: seq<Event>, v: World, c: nat, stream: seq<Byte>)
    requires Inv(w) && Reaches(w, events, v) && HonestRun(w, events, c, stream)
    requires c < |w.table| && StreamOk(w.table[c], w.got[c], stream)
    ensures Shaped(v) && c < |v.table| && StreamOk(v.table[c], v.got[c], stream)
    decreases |events|
  {
    if events != [] {
      StepKeeps(w, events[0]);
      StepStream(w, events[0], c, stream);
      RunStream(Step(w, events[0]), events[1..], v, c, stream);
    }
  }

  /**
   The stream: whatever segments are lost, repeated or reordered, the bytes Receive has
   returned followed by the bytes still buffered are the start of what the peer sent; until
   the peer's FIN, Next is the number of the byte after them; and the window offered plus
   the bytes buffered is always 2000.
   */
  lemma Stream(w: World, events: seq<Event>, v: World, c: nat, stream: seq<Byte>)
    requires Initial(w) && Reaches(w, events, v) && HonestRun(w, events, c, stream)
    requires c < |w.table|
    ensures Shaped(v) && c < |v.table|
    ensures v.table[c].parent.Some? ==> Sane(v.table[c])
    ensures v.table[c].parent.Some? ==>
      && v.got[c] + Buffered(v.table[c]) <= stream
      && v.table[c].receiveWindow + |Buffered(v.table[c])| == 2000
    ensures v.table[c].parent.Some? && (v.table[c].state == SynReceived || v.table[c].state == Established) ==>
      v.table[c].receiveNext == Plus(v.table[c].irs, 1 + |v.got[c] + Buffered(v.table[c])|)
  {
    hide Inv, Reaches, HonestRun;
    InitialKeeps(w);
    RunStream(w, events, v, c, stream);
  }

  // ---------- The end of the stream ----------

  /** Once the peer has closed, a block stays so, and its bytes are those it had. */
  lemma ClosedStep(w: World, e: Event, c: nat)
    requires Inv(w) && Enabled(w, e) && c < |w.table| && w.table[c].state == CloseWait
    ensures |Step(w, e).table| == |w.table| == |w.got| == |Step(w, e).got| && Step(w, e).table[c].state == CloseWait
    ensures Sane(w.table[c]) && Sane(Step(w, e).table[c])
    ensures Step(w, e).got[c] + Buffered(Step(w, e).table[c]) == w.got[c] + Buffered(w.table[c])
  {
    hide Inv, Handled, Taken, Completes, Buffered;
    InvAt(w, c, c, c);
    var b := w.table[c];
    match e
    case Arrive(_, _, _, _, _) => ClosedArrives(w, e, c);
    case Accept(_) =>
    case Transmit(i, size) => if i == c { SameBuffer(b, Step(w, e).table[c]); }
    case Receive(i, size) => if i == c { ClosedReceives(b, size, w.got[c]); }
  }

  lemma SameBuffer(b: Tcb, c: Tcb)
    requires Sane(b) && c.window == b.window && c.receiveWindow == b.receiveWindow
    ensures Sane(c) && Buffered(c) == Buffered(b)
  {
  }

  lemma ClosedReceives(b: Tcb, size: nat, got: seq<Byte>)
    requires Sane(b)
    ensures var r := Taken(b, size);
            r.1.state == b.state && Sane(r.1) && got + r.0 + Buffered(r.1) == got + Buffered(b)
  {
    hide Taken;
    var r := Taken(b, size);
    TakenExactly(b, size);
    assert r.0 + Buffered(r.1) == Buffered(b);
    assert (got + r.0) + Buffered(r.1) == got + (r.0 + Buffered(r.1));
  }

  lemma ClosedArrives(w: World, e: Event, c: nat)
    requires Inv(w) && Enabled(w, e) && e.Arrive? && c < |w.table| && w.table[c].state == CloseWait
    ensures |Step(w, e).table| == |w.table| == |w.got| == |Step(w, e).got| && Step(w, e).table[c].state == CloseWait
    ensures Sane(w.table[c]) && Sane(Step(w, e).table[c])
    ensures Step(w, e).got[c] + Buffered(Step(w, e).table[c]) == w.got[c] + Buffered(w.table[c])
  {
    hide Inv, Handled, Completes, Buffered, Acceptable;
    InvAt(w, c, c, c);
    var b := w.table[c];
    if !e.to.Nobody? && e.to.i == c {
      ClosedHandles(b, e.f, e.iss, |w.table|);
      SameBuffer(b, Handled(b, e.f, e.iss));
    }
  }

  lemma ClosedHandles(b: Tcb, f: Segment, iss: Word, n: nat)
    requires BlockOk(b, n) && b.parent.Some? && Acceptable(b, f) && b.state == CloseWait
    ensures var h := Handled(b, f, iss);
            h.state == CloseWait && h.window == b.window && h.receiveWindow == b.receiveWindow
  {
  }

  lemma {:induction false} ClosedRun(w: World, events: seq<Event>, v: World, c: nat)
    requires Inv(w) && Reaches(w, events, v) && c < |w.table| && w.table[c].state == CloseWait
    ensures c < |v.table| && |w.table| == |w.got| && |v.table| == |v.got| && v.table[c].state == CloseWait
    ensures Sane(w.table[c]) && Sane(v.table[c])
    ensures v.got[c] + Buffered(v.table[c]) == w.got[c] + Buffered(w.table[c])
    decreases |events|
  {
    if events == [] {
      InvAt(w, c, c, c);
    } else {
      ClosedStep(w, events[0], c);
      StepKeeps(w, events[0]);
      ClosedRun(Step(w, events[0]), events[1..], v, c);
    }
  }

  /**
   A FIN ends the stream: after an expected segment with a FIN has reached an established block,
   or one whose handshake it completes, the block is closed by its peer in every later state; the
   bytes handed out and buffered are for ever those before the segment and its payload.
   */
  lemma FinEndsStream(w: World, e: Event, events: seq<Event>, v: World, c: nat)
    requires Inv(w) && Enabled(w, e) && e.Arrive? && e.to == Existing(c) && c < |w.table| && w.table[c].parent.Some?
    requires w.table[c].state in {SynReceived, Established} && Expected(w.table[c], e.f) && e.f.fin
    requires Reaches(Step(w, e), events, v)
    ensures c < |v.table| && |v.table| == |v.got| && v.table[c].state == CloseWait && Sane(v.table[c])
    ensures Sane(w.table[c]) && |w.table| == |w.got|
    ensures v.got[c] + Buffered(v.table[c]) == w.got[c] + Buffered(w.table[c]) + Payload(w.table[c], e.f)
  {
    hide Inv, Handled, Completes, Reaches, Step, Enabled, Acceptable, Buffered, Sane, Payload, Expected, Plus;
    InvShaped(w);
    var b := w.table[c];
    InvAt(w, c, c, c);
    ArrivesAt(w, e, c);
    FinEdges(b, e.f, e.iss);
    PayloadTaken(b, e.f, e.iss);
    StepKeeps(w, e);
    ClosedRun(Step(w, e), events, v, c);
    var h := Step(w, e).table[c];
    assert w.got[c] + Buffered(h) == w.got[c] + Buffered(b) + Payload(b, e.f);
  }

  /**
   Why segments must be recent: one sent exactly 2^32 bytes ago carries the same sequence
   number as the next one and is stored in its place.
   */
  lemma StaleSegmentStored(b: Tcb, f: Segment, iss: Word, off: nat, got: seq<Byte>, stream: seq<Byte>, n: nat)
    requires BlockOk(b, n) && b.parent.Some? && StreamOk(b, got, stream) && b.state == Established
    requires off + WRAP == Length(b, got) && off + |f.data| <= |stream| && f.data == stream[off..off + |f.data|]
    requires f.seqNo == Plus(b.irs, 1 + off) && f.ack && !f.rst && !f.syn && f.psh && AckInBounds(b, f)
    requires 0 < |f.data| <= b.receiveWindow
    ensures Sane(Handled(b, f, iss))
    ensures got + Buffered(Handled(b, f, iss)) == stream[..off + WRAP] + stream[off..off + |f.data|]
  {
    assert Stores(b, f);
    HandledShape(b, f, iss, n);
    StoredStream(b, f, got, stream);
  }
}
