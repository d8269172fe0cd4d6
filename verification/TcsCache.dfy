/** The per-thread event cache: a circular doubly linked list with a head node, searched and
    extended in place. */
module TcsCache {

  class Node {
    var next: Node
    var prev: Node
    const tcs: int
    const event: int

    /** A node linked to itself. */
    constructor (tcs: int, event: int)
      ensures next == this && prev == this && this.tcs == tcs && this.event == event
    {
      this.tcs := tcs;
      this.event := event;
      next := this;
      prev := this;
    }
  }

  class Cache {
    const head: Node
    /** The entries in list order; the most recent one is first. */
    ghost var nodes: seq<Node>

    /** Position i of the ring: the head, the entries, and the head again. */
    ghost function At(i: nat): Node
      requires i <= |nodes| + 1
      reads this
    {
      if 1 <= i <= |nodes| then nodes[i - 1] else head
    }

    /** Every step forward in the ring is undone by the step back. */
    ghost predicate Ring()
      reads this, head, nodes
    {
      forall i: nat :: i <= |nodes| ==> At(i).next == At(i + 1) && At(i + 1).prev == At(i)
    }

    ghost predicate Valid()
      reads this, head, nodes
    {
      && Ring()
      && head !in nodes
      && (forall i, j :: 0 <= i < j < |nodes| ==> nodes[i] != nodes[j])
      && (forall i, j :: 0 <= i < j < |nodes| ==> nodes[i].tcs != nodes[j].tcs)
      && (forall i, j :: 0 <= i < j < |nodes| && nodes[i].event != 0 ==> nodes[i].event != nodes[j].event)
    }

    constructor ()
      ensures Valid() && nodes == [] && fresh(head)
    {
      head := new Node(0, 0);
      nodes := [];
    }

    /** Insert an unlinked entry behind the head. */
    method Add(n: Node)
      requires Valid() && n != head && n !in nodes
      requires forall i :: 0 <= i < |nodes| ==> nodes[i].tcs != n.tcs && (n.event != 0 ==> nodes[i].event != n.event)
      modifies this, head, nodes, n
      ensures Valid() && nodes == [n] + old(nodes)
    {
      var next := head.next;
      assert At(0).next == At(0 + 1) && At(0 + 1).prev == At(0);
      next.prev := n;
      n.next := next;
      n.prev := head;
      head.next := n;
      nodes := [n] + nodes;
      forall i: nat | i <= |nodes|
        ensures At(i).next == At(i + 1) && At(i + 1).prev == At(i)
      {
        if i >= 2 {
          assert At(i) == old(At(i - 1)) && At(i + 1) == old(At(i));
          assert old(At(i - 1).next == At(i) && At(i).prev == At(i - 1));
        }
      }
    }

    /** The event of a thread: the one it has, or a new one.  `event` is what allocating one would
        return, memory not in use or 0; `canAlloc` says whether allocating a list entry succeeds.
        A failed event allocation leaves an entry with no event. */
    method EventGet(tcs: int, event: int, canAlloc: bool) returns (ev: int)
      requires Valid() && (event != 0 ==> forall i :: 0 <= i < |nodes| ==> nodes[i].event != event)
      modifies this, head, nodes
      ensures Valid()
      ensures (exists n :: n in old(nodes) && n.tcs == tcs) ==>
                nodes == old(nodes) && exists n :: n in nodes && n.tcs == tcs && n.event == ev
      ensures !(exists n :: n in old(nodes) && n.tcs == tcs) ==>
                if canAlloc then |nodes| > 0 && nodes[1..] == old(nodes) && nodes[0].tcs == tcs && nodes[0].event == ev == event
                else nodes == old(nodes) && ev == 0
    {
      var p := head.next;
      ghost var k := 0;
      assert At(0).next == At(1);
      while p != head
        invariant 0 <= k <= |nodes| && p == At(k + 1) && nodes == old(nodes) && Valid()
        invariant forall i :: 0 <= i < k ==> nodes[i].tcs != tcs
        decreases |nodes| - k
      {
        assert p == nodes[k];
        if p.tcs == tcs {
          return p.event;
        }
        assert At(k + 1).next == At(k + 2);
        p := p.next;
        k := k + 1;
      }
      assert k == |nodes|;
      if !canAlloc {
        return 0;
      }
      var n := new Node(tcs, event);
      Add(n);
      return event;
    }
  }
}
