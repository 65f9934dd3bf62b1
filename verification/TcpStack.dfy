/**
 The stack's table of blocks and their accept queues, updated in place as the code does.
 Every call is a step of the run machine in module Tcp.
 */
module TcpStack {
  import opened Blocks
  import opened Options
  import opened Tcp
  import opened AcceptQueue

  datatype Result<T> = Return(value: T) | Refused | MustSleep

  class Stack {
    var table: seq<Tcb>
    const queues: QueueTable
    ghost var world: World

    /** The history agrees with the table and the queues, and keeps its invariant. */
    ghost predicate Valid()
      reads this, queues, queues.footprint
    {
      && this !in queues.footprint && queues.Valid() && |queues.queues| == |table|
      && world.table == table && world.queues == queues.contents && Inv(world)
    }

    constructor (t: seq<Tcb>)
      requires forall c :: 0 <= c < |t| ==> BlockOk(t[c], |t|) && t[c].parent.None?
      ensures Valid() && table == t && Initial(world)
    {
      table := t;
      queues := new QueueTable(|t|);
      var none: seq<seq<nat>> := seq(|t|, _ => []);
      world := World(t, none, seq(|t|, _ => 0), none, none, seq(|t|, _ => []), seq(|t|, _ => 0));
      new;
      assert queues.contents == none;
      forall p, c | 0 <= p < |world.joined| && 0 <= c ensures JoinedOk(world, p, c) {
        assert world.joined[p] == [];
      }
    }

    method DoListen(i: nat, f: Segment, iss: Word)
      requires i < |table|
      modifies this`table
      ensures table == old(table)[i := Listened(old(table)[i], f, iss)]
    {
      var b := table[i];
      if f.rst { return; }
      if f.ack { return; }
      if f.syn {
        b := b.(receiveNext := Plus(f.seqNo, 1), irs := f.seqNo);
        b := b.(iss := iss);
        b := b.(sendNext := Plus(iss, 1), unacknowledged := iss);
        b := b.(state := SynReceived);
        table := table[i := b];
      }
    }

    /** A block whose handshake is complete goes to the end of its parent's queue. */
    method DoSynReceived(i: nat, f: Segment)
      requires i < |table| && queues.Valid() && this !in queues.footprint && |queues.queues| == |table|
      requires table[i].parent.Some? && table[i].parent.value < |table|
      modifies this`table, queues.footprint
      ensures queues.Valid() && this !in queues.footprint && |queues.contents| == |old(queues.contents)|
      ensures var b := old(table)[i];
              table == old(table)[i := if AckInBounds(b, f) then b.(state := Established) else b]
      ensures queues.contents ==
        if AckInBounds(old(table)[i], f) then
          old(queues.contents)[old(table)[i].parent.value := old(queues.contents)[old(table)[i].parent.value] + [i]]
        else old(queues.contents)
    {
      if table[i].unacknowledged <= f.ackNo && f.ackNo <= table[i].sendNext {
        table := table[i := table[i].(state := Established)];
        queues.Push(table[i].parent.value, i);
      }
    }

    method DoClosing(i: nat, f: Segment) returns (stop: bool)
      requires i < |table|
      modifies this`table
      ensures table == old(table)[i := Acked(old(table)[i], f).0] && stop == Acked(old(table)[i], f).1
    {
      if table[i].unacknowledged < f.ackNo && f.ackNo <= table[i].sendNext {
        table := table[i := table[i].(unacknowledged := f.ackNo)];
      } else if f.ackNo > table[i].sendNext {
        return true;
      }
      if table[i].state == FinWait1 {
        if f.ackNo == table[i].sendNext { table := table[i := table[i].(state := FinWait2)]; }
      } else if table[i].state == Closing {
        if f.ackNo == table[i].sendNext { table := table[i := table[i].(state := TimeWait)]; }
        return true;
      }
      return false;
    }

    method StoreData(i: nat, f: Segment)
      requires i < |table| && Sane(table[i]) && |f.data| <= table[i].receiveWindow
      modifies this`table
      ensures table == old(table)[i := Stored(old(table)[i], f)]
    {
      var b := table[i];
      var at := DEF_WINDOW_SIZE - b.receiveWindow;
      b := b.(window := b.window[..at] + f.data + b.window[at + |f.data|..]);
      b := b.(receiveNext := Plus(f.seqNo, |f.data|));
      b := b.(receiveWindow := b.receiveWindow - |f.data|);
      table := table[i := b];
    }

    method Terminate(i: nat)
      requires i < |table|
      modifies this`table
      ensures table == old(table)[i := Terminated(old(table)[i])]
    {
      table := table[i := table[i].(receiveNext := Plus(table[i].receiveNext, 1))];
      match table[i].state
      case SynReceived => table := table[i := table[i].(state := CloseWait)];
      case Established => table := table[i := table[i].(state := CloseWait)];
      case FinWait1 => table := table[i := table[i].(state := FinWait2)];
      case FinWait2 => table := table[i := table[i].(state := TimeWait)];
      case _ =>
    }

    /** The part of TCB::Main after its checks. */
    method Progress(i: nat, f: Segment)
      requires i < |table| && queues.Valid() && this !in queues.footprint && |queues.queues| == |table|
      requires table[i].parent.Some? && table[i].parent.value < |table|
      requires InSequence(table[i], f) && Acceptable(table[i], f)
      requires table[i].state !in {Listen, SynSent, Closed, LastAck}
      modifies this`table, queues.footprint
      ensures queues.Valid() && this !in queues.footprint && |queues.contents| == |old(queues.contents)|
      ensures table == old(table)[i := Progressed(old(table)[i], f)]
      ensures queues.contents ==
        if Completes(old(table)[i], f) then
          old(queues.contents)[old(table)[i].parent.value := old(queues.contents)[old(table)[i].parent.value] + [i]]
        else old(queues.contents)
    {
      hide Acked, Stored, Terminated, QueueTable.Valid;
      AckedStores(table[i], if Completes(table[i], f) then table[i].(state := Established) else table[i], f);
      if table[i].state == SynReceived { DoSynReceived(i, f); }
      if table[i].state != TimeWait {
        var stop := DoClosing(i, f);
        if stop { return; }
      }
      if f.psh && |f.data| > 0 && TakesData(table[i].state) { StoreData(i, f); }
      if f.fin { Terminate(i); }
    }

    /** TCB::Main on block i: a step of the run. */
    method Handle(i: nat, f: Segment, iss: Word)
      requires Valid() && i < |table| && Acceptable(table[i], f) && table[i].parent.Some?
      modifies this, queues.footprint
      ensures Valid() && world == Delivered(old(world), i, f, iss)
    {
      ghost var was := world;
      InvAt(world, i, i, i);
      world := Delivered(world, i, f, iss);
      DeliveredKeeps(was, i, f, iss);
      if table[i].state == Listen {
        DoListen(i, f, iss);
      } else if f.seqNo != table[i].receiveNext {
        return;
      } else if f.rst || f.syn {
        return;
      } else if !f.ack {
        return;
      } else {
        Progress(i, f);
      }
    }

    /** TCP<4>::Main: find the segment's block, or fork one from a listener, and let it handle the segment. */
    method Arrive(dev: nat, f: Segment, iss: Word, ghost off: nat) returns (to: Target)
      requires Valid() && f.srcPort != 0
      requires forall r :: IsTarget(table, dev, f, r) && !r.Nobody? ==> Acceptable(Opened(table, dev, f, r)[r.i], f)
      modifies this, queues.footprint
      ensures Valid() && Enabled(old(world), Event.Arrive(dev, f, iss, to, off))
      ensures world == Step(old(world), Event.Arrive(dev, f, iss, to, off))
    {
      to := Demultiplex(table, dev, f);
      if to.Nobody? { return; }
      OpenedKeeps(world, dev, f, to);
      world := Entered(world, dev, f, to);
      if to.NewBlock? {
        table := table[to.i := Forked(table[to.i], to.parent, table[to.parent], dev, f)];
      }
      Handle(to.i, f, iss);
    }

    /** Returns the block that has waited longest, or sleeps while none waits. */
    method Accept(i: nat) returns (r: Result<nat>)
      requires Valid() && i < |table|
      modifies this, queues.footprint
      ensures Valid() && (r.Refused? <==> !(old(table)[i].started && old(table)[i].state == Listen))
      ensures r.Return? <==> Enabled(old(world), Event.Accept(i))
      ensures if r.Return? then
          world == Step(old(world), Event.Accept(i)) && r.value == old(world).queues[i][0]
        else world == old(world)
    {
      if !table[i].started || table[i].state != Listen { return Refused; }
      var none := queues.Empty(i);
      if none { return MustSleep; }
      AcceptKeeps(world, i);
      world := Step(world, Event.Accept(i));
      var c := queues.Pop(i);
      r := Return(c);
    }

    /** Returns up to size buffered bytes, nothing once the peer can send no more, or sleeps. */
    method Receive(i: nat, size: nat) returns (r: Result<seq<Byte>>)
      requires Valid() && i < |table| && Sane(table[i])
      modifies this
      ensures Valid() && !r.Refused?
      ensures Buffered(old(table)[i]) != [] ==>
        && world == Step(old(world), Event.Receive(i, size)) && r == Return(Taken(old(table)[i], size).0)
      ensures Buffered(old(table)[i]) != [] ==>
        var n := if size < |Buffered(old(table)[i])| then size else |Buffered(old(table)[i])|;
        && r == Return(Buffered(old(table)[i])[..n]) && |table| == |old(table)| && Sane(table[i])
        && Buffered(table[i]) == Buffered(old(table)[i])[n..]
      ensures Buffered(old(table)[i]) == [] ==>
        && world == old(world)
        && r == if old(table)[i].state in {Established, FinWait1, FinWait2} then MustSleep else Return([])
    {
      var total := DEF_WINDOW_SIZE - table[i].receiveWindow;
      if total == 0 {
        if !TakesData(table[i].state) { return Return([]); }
        return MustSleep;
      }
      ReceiveKeeps(world, i, size);
      TakenExactly(table[i], size);
      world := Step(world, Event.Receive(i, size));
      var n := if size < total then size else total;
      var w := table[i].window;
      r := Return(w[..n]);
      table := table[i := table[i].(window := w[n..total] + w[total - n..],
          receiveWindow := table[i].receiveWindow + n)];
    }

    /** Refused unless the block may send; what it sends moves the next number on. */
    method Transmit(i: nat, size: nat) returns (r: Result<nat>)
      requires Valid() && i < |table|
      modifies this
      ensures Valid() && !r.MustSleep? && (r.Return? <==> Enabled(old(world), Event.Transmit(i, size)))
      ensures world == if r.Return? then Step(old(world), Event.Transmit(i, size)) else old(world)
      ensures r.Return? <==> old(table)[i].started && old(table)[i].state in {Established, CloseWait}
    {
      if !table[i].started || !MaySend(table[i].state) { return Refused; }
      TransmitKeeps(world, i, size);
      world := Step(world, Event.Transmit(i, size));
      table := table[i := table[i].(sendNext := Plus(table[i].sendNext, size))];
      return Return(0);
    }
  }
}
