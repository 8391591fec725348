/** The doubly linked queue with two sentinels that the search works through. */
module Queue {
  import opened Sequences
  import opened Topology

  class QueueNode {
    var n: Node?
    var next: QueueNode?
    var prev: QueueNode?

    constructor (n: Node?)
      ensures this.n == n
    {
      this.n, next, prev := n, null, null;
    }
  }

  /** From the header sentinel to the tail sentinel, linked both ways. */
  ghost predicate Linked(chain: seq<QueueNode>)
    reads chain`next, chain`prev
  {
    && (forall i | 0 < i < |chain| :: chain[i - 1].next == chain[i])
    && (forall i | 0 < i < |chain| :: chain[i].prev == chain[i - 1])
  }

  ghost predicate Carries(chain: seq<QueueNode>, work: seq<Node>)
    reads chain`n
  {
    |chain| == |work| + 2 && forall i | 0 <= i < |work| :: chain[i + 1].n == work[i]
  }

  class SentinelQueue {
    const header: QueueNode
    const tail: QueueNode
    ghost var chain: seq<QueueNode>
    ghost var work: seq<Node>

    ghost predicate Valid()
      reads this, chain`next, chain`prev, chain`n
    {
      && Carries(chain, work) && Linked(chain) && NoDuplicates(chain)
      && chain[0] == header && chain[|chain| - 1] == tail
    }

    ghost function Members(): set<QueueNode>
      reads this
    {
      Elements(chain)
    }

    constructor ()
      ensures Valid() && work == [] && fresh(Members())
    {
      header := new QueueNode(null);
      tail := new QueueNode(null);
      new;
      header.next, tail.prev := tail, header;
      chain, work := [header, tail], [];
    }

    method PushBack(q: QueueNode)
      requires Valid() && q !in chain && q.n != null
      modifies this, Members()`next, Members()`prev, q`next, q`prev
      ensures Valid() && work == old(work) + [q.n] && Members() == old(Members()) + {q}
    {
      ghost var last := |chain| - 1;
      assert chain[last - 1].next == chain[last] && chain[last].prev == chain[last - 1];
      ghost var chain' := chain[..last] + [q] + [tail];
      assert forall i | 0 <= i < last :: chain'[i] == chain[i];
      assert chain'[last] == q && chain'[last + 1] == tail;
      q.next := tail;
      q.prev := tail.prev;
      tail.prev.next := q;
      tail.prev := q;
      chain, work := chain', work + [q.n];
    }

    method PopFront() returns (q: QueueNode)
      requires Valid() && work != []
      modifies this, Members()`next, Members()`prev
      ensures Valid() && q.n == old(work)[0] && work == old(work)[1..]
      ensures Members() <= old(Members())
    {
      assert chain[0].next == chain[1] && chain[1].next == chain[2] && chain[2].prev == chain[1];
      ghost var chain' := [header] + chain[2..];
      assert forall i | 0 < i < |chain'| :: chain'[i] == chain[i + 1];
      q := header.next;
      header.next := header.next.next;
      header.next.prev := header;
      chain, work := chain', work[1..];
    }

    method IsEmpty() returns (b: bool)
      requires Valid()
      ensures b <==> work == []
    {
      ghost var last := |chain| - 1;
      assert chain[0].next == chain[1] && chain[last].prev == chain[last - 1];
      b := header.next == tail || tail.prev == header;
    }
  }
}
