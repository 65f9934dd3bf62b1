/** The linked queue of include/UQueue.tcc, node by node. */
module AcceptQueue {

  class Node<T> {
    var data: T
    var next: Node?<T>
    ghost const owner: object

    constructor (x: T, ghost q: object)
      ensures data == x && next == null && owner == q
    {
      data := x;
      next := null;
      owner := q;
    }
  }

  /** first and last point at the ends of the chain of nodes, or are both null. */
  class LinkedQueue<T(0)> {
    var first: Node?<T>
    var last: Node?<T>
    ghost var nodes: seq<Node<T>>
    ghost var contents: seq<T>

    ghost predicate Valid()
      reads this, nodes
    {
      && |contents| == |nodes|
      && (forall i, j :: 0 <= i < j < |nodes| ==> nodes[i] != nodes[j])
      && (forall i :: 0 <= i < |nodes| ==> nodes[i].data == contents[i] && nodes[i].owner == this)
      && (forall i, j :: 0 <= i < j < |nodes| && j == i + 1 ==> nodes[i].next == nodes[j])
      && (if nodes == [] then first == null && last == null
          else first == nodes[0] && last == nodes[|nodes| - 1] && last.next == null)
    }

    constructor ()
      ensures Valid() && contents == [] && nodes == []
    {
      first, last := null, null;
      nodes, contents := [], [];
    }

    method Empty() returns (r: bool)
      requires Valid()
      ensures r <==> contents == []
    {
      r := first == null && last == null;
    }

    method Front() returns (x: T)
      requires Valid() && contents != []
      ensures x == contents[0]
    {
      x := first.data;
    }

    method Push(x: T)
      requires Valid()
      modifies this, nodes
      ensures Valid() && contents == old(contents) + [x]
      ensures |nodes| == |old(nodes)| + 1 && nodes[..|old(nodes)|] == old(nodes) && fresh(nodes[|old(nodes)|])
    {
      var n := new Node(x, this);
      if last == null {
        first := n;
        last := first;
      } else {
        last.next := n;
        last := last.next;
      }
      nodes, contents := nodes + [n], contents + [x];
    }

    method Pop()
      requires Valid() && contents != []
      modifies this
      ensures Valid() && contents == old(contents)[1..] && nodes == old(nodes)[1..]
    {
      var rest := first.next;
      first := rest;
      last := if rest != null then last else null;
      assert |nodes| > 1 ==> nodes[0].next == nodes[1];
      nodes, contents := nodes[1..], contents[1..];
    }
  }

  /** One queue for each block of the table; a node belongs to the queue that made it. */
  class QueueTable {
    const queues: seq<LinkedQueue<nat>>
    ghost var contents: seq<seq<nat>>
    ghost var footprint: set<object>

    /** Queue i is well formed, inside the footprint, and holds contents[i]. */
    ghost predicate ValidAt(i: nat)
      requires i < |queues| == |contents|
      reads this, footprint
    {
      && queues[i] in footprint && (forall n :: n in queues[i].nodes ==> n in footprint)
      && queues[i].Valid() && queues[i].contents == contents[i]
    }

    ghost predicate Valid()
      reads this, footprint
    {
      && this in footprint && |queues| == |contents|
      && (forall i :: 0 <= i < |queues| ==> ValidAt(i))
      && (forall i, j :: 0 <= i < j < |queues| ==> queues[i] != queues[j])
    }

    constructor (n: nat)
      ensures Valid() && fresh(footprint) && |queues| == n
      ensures forall i :: 0 <= i < n ==> contents[i] == []
    {
      var qs: seq<LinkedQueue<nat>> := [];
      ghost var made: set<object> := {};
      while |qs| < n
        invariant |qs| <= n && forall q :: q in made ==> fresh(q)
        invariant forall i :: 0 <= i < |qs| ==> qs[i] in made && fresh(qs[i]) && qs[i].Valid()
        invariant forall i :: 0 <= i < |qs| ==> qs[i].contents == [] && qs[i].nodes == []
        invariant forall i, j :: 0 <= i < |qs| && 0 <= j < |qs| && i < j ==> qs[i] != qs[j]
      {
        var q := new LinkedQueue<nat>();
        qs := qs + [q];
        made := made + {q};
      }
      queues := qs;
      contents := seq(n, _ => []);
      footprint := {this} + made;
    }

    method Push(p: nat, x: nat)
      requires Valid() && p < |queues|
      modifies footprint
      ensures Valid() && fresh(footprint - old(footprint))
      ensures contents == old(contents)[p := old(contents)[p] + [x]]
    {
      assert ValidAt(p);
      queues[p].Push(x);
      contents := contents[p := contents[p] + [x]];
      footprint := footprint + {queues[p].last};
      forall j | 0 <= j < |queues| ensures ValidAt(j) {
        assert old(ValidAt(j));
      }
    }

    method Pop(p: nat) returns (x: nat)
      requires Valid() && p < |queues| && contents[p] != []
      modifies footprint
      ensures Valid() && footprint == old(footprint)
      ensures x == old(contents)[p][0] && contents == old(contents)[p := old(contents)[p][1..]]
    {
      assert ValidAt(p);
      x := queues[p].Front();
      queues[p].Pop();
      contents := contents[p := contents[p][1..]];
      forall j | 0 <= j < |queues| ensures ValidAt(j) {
        assert old(ValidAt(j));
      }
    }

    method Empty(p: nat) returns (r: bool)
      requires Valid() && p < |queues|
      ensures r <==> contents[p] == []
    {
      assert ValidAt(p);
      r := queues[p].Empty();
    }
  }
}
