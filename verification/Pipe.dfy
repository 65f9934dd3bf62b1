/**
 The pipe of kernel/pipe.c: a ring of 512 bytes between two 32-bit counters that only
 grow and wrap.  The ghost fields hold every byte ever placed and ever taken.
 */
module Pipe {
  import opened Blocks

  const PIPESIZE: nat := 512
  const MAX_WRITE_WAIT: nat := 1000
  const MAX_READ_WAIT: nat := 1000
  const F_ERROR := -1
  const FNOT_READY := -2
  const WRAP: nat := 0x1_0000_0000

  /** Both counters modulo 2^32 agree on fullness and emptiness with the bytes in the ring. */
  lemma Counters(taken: nat, placed: nat)
    requires taken <= placed <= taken + PIPESIZE
    ensures placed % WRAP == (taken % WRAP + PIPESIZE) % WRAP <==> placed == taken + PIPESIZE
    ensures taken % WRAP == placed % WRAP <==> taken == placed
  {
  }

  /** The counter picks the same ring slot before and after it wraps. */
  lemma Slot(n: nat)
    ensures n % WRAP % PIPESIZE == n % PIPESIZE
    ensures (n % WRAP + 1) % WRAP == (n + 1) % WRAP
  {
  }

  /** Two bytes of the ring have different slots. */
  lemma SlotsDiffer(j: nat, k: nat)
    requires j < k < j + PIPESIZE
    ensures j % PIPESIZE != k % PIPESIZE
  {
  }

  class Ring {
    const data: array<Byte>
    var nread: Word
    var nwrite: Word
    var readopen: bool
    var writeopen: bool
    ghost var placed: seq<Byte>
    ghost var taken: seq<Byte>

    /** What was taken is a prefix of what was placed; the rest, at most 512 bytes, is in the ring in order. */
    ghost predicate Valid()
      reads this, data
    {
      && data.Length == PIPESIZE
      && taken <= placed && |placed| <= |taken| + PIPESIZE
      && nread == |taken| % WRAP && nwrite == |placed| % WRAP
      && forall j :: |taken| <= j < |placed| ==> data[j % PIPESIZE] == placed[j]
    }

    /** The queue that the ring implements. */
    ghost function Queue(): seq<Byte>
      requires Valid()
      reads this, data
    {
      placed[|taken|..]
    }

    constructor ()
      ensures Valid() && Queue() == [] && placed == [] && readopen && writeopen && fresh(data)
    {
      data := new Byte[PIPESIZE];
      nread, nwrite, readopen, writeopen := 0, 0, true, true;
      placed, taken := [], [];
    }

    method Put(b: Byte)
      requires Valid() && |placed| < |taken| + PIPESIZE
      modifies this`nwrite, this`placed, data
      ensures Valid() && placed == old(placed) + [b]
    {
      Slot(|placed|);
      forall j | |taken| <= j < |placed| ensures j % PIPESIZE != |placed| % PIPESIZE { SlotsDiffer(j, |placed|); }
      data[nwrite % PIPESIZE] := b;
      nwrite := (nwrite + 1) % WRAP;
      placed := placed + [b];
    }

    method Get() returns (b: Byte)
      requires Valid() && |taken| < |placed|
      modifies this`nread, this`taken
      ensures Valid() && taken == old(taken) + [b]
    {
      Slot(|taken|);
      b := data[nread % PIPESIZE];
      nread := (nread + 1) % WRAP;
      taken := taken + [b];
    }

    /** killed(i, l) says whether the process is seen killed at byte i, turn l of the wait. */
    method WaitForRoom(i: nat, killed: (nat, nat) -> bool) returns (r: int)
      requires Valid()
      ensures r == 0 <==> |placed| < |taken| + PIPESIZE
      ensures r != 0 ==>
        r == if !readopen || exists l :: 0 <= l < MAX_WRITE_WAIT && killed(i, l) then F_ERROR else FNOT_READY
    {
      Counters(|taken|, |placed|);
      var loops: nat := 0;
      while nwrite == (nread + PIPESIZE) % WRAP && loops < MAX_WRITE_WAIT
        invariant loops > 0 ==> nwrite == (nread + PIPESIZE) % WRAP && readopen
        invariant 0 <= loops <= MAX_WRITE_WAIT && forall l :: 0 <= l < loops ==> !killed(i, l)
      {
        if !readopen || killed(i, loops) {
          return F_ERROR;
        }
        loops := loops + 1;
      }
      return if loops >= MAX_WRITE_WAIT then FNOT_READY else 0;
    }

    /**
     Places as many bytes as there is room for.  If that is not all of them it returns an
     error, and the bytes already placed stay.
     */
    method Write(addr: seq<Byte>, n: int, acquired: bool, killed: (nat, nat) -> bool) returns (r: int)
      requires Valid() && n <= |addr|
      modifies this`nwrite, this`placed, data
      ensures Valid() && (!acquired ==> r == FNOT_READY && placed == old(placed))
      ensures acquired && n <= PIPESIZE - |old(Queue())| ==>
        r == n && Queue() == old(Queue()) + addr[..if n < 0 then 0 else n]
      ensures acquired && n > PIPESIZE - |old(Queue())| ==>
        var room := PIPESIZE - |old(Queue())|;
        && Queue() == old(Queue()) + addr[..room]
        && r == if !readopen || exists l :: 0 <= l < MAX_WRITE_WAIT && killed(room, l) then F_ERROR else FNOT_READY
      ensures old(placed) <= placed
    {
      if !acquired { return FNOT_READY; }
      var i := 0;
      while i < n
        invariant 0 <= i && (i <= n || (i == 0 && n < 0)) && Valid()
        invariant placed == old(placed) + addr[..i]
      {
        var wait := WaitForRoom(i, killed);
        if wait != 0 { return wait; }
        Put(addr[i]);
        i := i + 1;
      }
      return n;
    }

    method WaitForData(killed: nat -> bool) returns (r: int)
      requires Valid()
      ensures r == 0 <==> |taken| < |placed| || !writeopen
      ensures r != 0 ==> r == if exists l :: 0 <= l < MAX_READ_WAIT && killed(l) then F_ERROR else FNOT_READY
    {
      Counters(|taken|, |placed|);
      var loops: nat := 0;
      while nread == nwrite && writeopen && loops < MAX_READ_WAIT
        invariant loops > 0 ==> nread == nwrite && writeopen
        invariant 0 <= loops <= MAX_READ_WAIT && forall l :: 0 <= l < loops ==> !killed(l)
      {
        if killed(loops) {
          return F_ERROR;
        }
        loops := loops + 1;
      }
      return if loops >= MAX_READ_WAIT then FNOT_READY else 0;
    }

    /** Takes up to n bytes from the front; waits in vain on an empty pipe that is open for writing. */
    method Read(n: int, acquired: bool, killed: nat -> bool) returns (r: int, bytes: seq<Byte>)
      requires Valid()
      modifies this`nread, this`taken
      ensures Valid() && taken == old(taken) + bytes && old(Queue()) == bytes + Queue()
      ensures acquired && (old(Queue()) != [] || !writeopen) ==>
        r == |bytes| == if n < 0 then 0 else if n < |old(Queue())| then n else |old(Queue())|
      ensures !acquired || (old(Queue()) == [] && writeopen) ==> bytes == []
      ensures !acquired ==> r == FNOT_READY
      ensures acquired && old(Queue()) == [] && writeopen ==>
        r == if exists l :: 0 <= l < MAX_READ_WAIT && killed(l) then F_ERROR else FNOT_READY
    {
      bytes := [];
      if !acquired { return FNOT_READY, bytes; }
      var wait := WaitForData(killed);
      if wait != 0 { return wait, bytes; }
      var i := 0;
      while i < n
        invariant 0 <= i && (i <= n || (i == 0 && n < 0)) && i == |bytes| && Valid()
        invariant taken == old(taken) + bytes
      {
        Counters(|taken|, |placed|);
        if nread == nwrite { break; }
        var b := Get();
        bytes := bytes + [b];
        i := i + 1;
      }
      r := i;
    }
  }
}
