/**
 * The `ListNode` and `DoublyLinkedList` of names/lru_cache.py.
 *
 * Nodes carry a key and a value, and `add_to_head`/`add_to_tail` take an existing
 * node rather than a value.  The list owns the arena of its nodes; a node is its
 * handle.  `ListNode.delete` leaves the removed node's own links in place and
 * `add_to_head` never clears the `prev` of the node it adds, so the head may carry
 * a stale `prev`: `Valid` does not constrain it, and the operations that would
 * follow that stale link ask that it not lead back into the list.
 */
module LruList {
  import opened Wrappers
  import opened Arena

  /** The key and value a `ListNode` of the cache carries. */
  datatype Entry = Entry(key: int, value: int)

  class DoublyLinkedList {
    var nodes: seq<Node<Entry>>
    var head: int
    var tail: int
    var length: int
    /** The linked handles, from head to tail. */
    ghost var order: seq<int>

    ghost predicate Valid()
      reads this
    {
      Closed(nodes) && Chain(nodes, order, head, tail) && length == |order|
    }

    /** The entries from head to tail. */
    ghost function Contents(): (s: seq<Entry>)
      reads this
      requires Valid()
    {
      Values(nodes, order)
    }

    /** The head's `prev` does not lead to a linked node, so unlinking the head is safe. */
    ghost predicate HeadPrevDetached()
      reads this
      requires Valid()
    {
      order != [] ==> nodes[head].prev !in order
    }

    /** `DoublyLinkedList()`: the empty list. */
    constructor ()
      ensures Valid() && order == [] && nodes == []
    {
      nodes, head, tail, length := [], NIL, NIL, 0;
      order := [];
    }

    /** `DoublyLinkedList(ListNode(key, value))`: a list of one fresh node. */
    constructor WithNode(key: int, value: int)
      ensures Valid() && order == [0] && Contents() == [Entry(key, value)]
    {
      nodes := [Node(Entry(key, value), NIL, NIL)];
      head, tail, length := 0, 0, 1;
      order := [0];
    }

    /** `ListNode(key, value)`: a new node with no neighbours, not yet linked. */
    method NewNode(key: int, value: int) returns (h: int)
      requires Valid()
      modifies this`nodes
      ensures Valid() && HeadPrevDetached() == old(HeadPrevDetached())
      ensures h == |old(nodes)| && nodes == old(nodes) + [Node(Entry(key, value), NIL, NIL)]
      ensures h !in order && Contents() == old(Contents())
    {
      h := |nodes|;
      nodes := nodes + [Node(Entry(key, value), NIL, NIL)];
    }

    /** `ListNode.delete`: the neighbours of `h` skip it; `h` keeps its own links. */
    method NodeDelete(h: int)
      requires Closed(nodes) && 0 <= h < |nodes|
      modifies this`nodes
      ensures nodes == Unlinked(old(nodes), h)
      ensures nodes[h].payload == old(nodes)[h].payload
    {
      var p, n := nodes[h].prev, nodes[h].next;
      if p != NIL {
        nodes := nodes[p := nodes[p].(next := n)];
      }
      if n != NIL {
        nodes := nodes[n := nodes[n].(prev := p)];
      }
    }

    /**
     * `node.value = value` on a linked node: only the entry at that node's position
     * changes, keeping its key.
     */
    method SetValue(h: int, value: int)
      requires Valid() && h in order
      modifies this`nodes
      ensures Valid() && nodes == old(nodes)[h := old(nodes)[h].(payload := old(nodes)[h].payload.(value := value))]
      ensures HeadPrevDetached() == old(HeadPrevDetached())
      ensures Contents() == old(Contents())[IndexOf(order, h) := Entry(old(Contents())[IndexOf(order, h)].key, value)]
    {
      SetPayloadKeepsChain(nodes, order, head, tail, IndexOf(order, h), Entry(nodes[h].payload.key, value));
      nodes := nodes[h := nodes[h].(payload := nodes[h].payload.(value := value))];
    }

    /** `__len__`. */
    method Len() returns (n: int)
      requires Valid()
      ensures n == |Contents()|
      ensures n == 0 <==> head == NIL
    {
      n := length;
    }

    /**
     * `add_to_head(new_node)`: the node becomes the head, in front of the old head
     * (or the only node); `length` rises by one.  Its `prev` is left as it was.
     */
    method AddToHead(h: int)
      requires Valid()
      requires 0 <= h < |nodes| && h !in order
      requires order == [] ==> nodes[h].next == NIL
      modifies this
      ensures Valid()
      ensures order == [h] + old(order) && head == h && length == old(length) + 1
      ensures Contents() == [old(nodes)[h].payload] + old(Contents())
      ensures tail == if old(order) == [] then h else old(tail)
      ensures nodes[h].prev == old(nodes)[h].prev
    {
      length := length + 1;
      if head == NIL && tail == NIL {
        head, tail := h, h;
      } else {
        LinkFrontKeepsChain(nodes, order, head, tail, h);
        nodes := nodes[h := nodes[h].(next := head)];
        nodes := nodes[head := nodes[head].(prev := h)];
        head := h;
      }
      order := [h] + order;
    }

    /**
     * `add_to_tail(new_node)`: the node becomes the tail, after the old tail (or the
     * only node); `length` rises by one.  The node must have no `next`, since the
     * source does not reset it.
     */
    method AddToTail(h: int)
      requires Valid()
      requires 0 <= h < |nodes| && h !in order && nodes[h].next == NIL
      modifies this
      ensures Valid()
      ensures order == old(order) + [h] && tail == h && length == old(length) + 1
      ensures Contents() == old(Contents()) + [old(nodes)[h].payload]
      ensures head == if old(order) == [] then h else old(head)
      ensures old(order) != [] ==> nodes[head].prev == old(nodes)[old(head)].prev
    {
      length := length + 1;
      if head == NIL && tail == NIL {
        head, tail := h, h;
      } else {
        LinkBackKeepsChain(nodes, order, head, tail, h);
        nodes := nodes[h := nodes[h].(prev := tail)];
        nodes := nodes[tail := nodes[tail].(next := h)];
        tail := h;
      }
      order := order + [h];
    }

    /**
     * `remove_from_head`: None on the empty list, which is left alone; otherwise the
     * head's value, with the next node promoted to head.
     */
    method RemoveFromHead() returns (r: Option<int>)
      requires Valid() && HeadPrevDetached()
      modifies this
      ensures Valid() && HeadPrevDetached()
      ensures old(order) == [] ==> r == None && unchanged(this)
      ensures old(order) != [] ==> r == Some(old(Contents())[0].value)
      ensures old(order) != [] ==> order == old(order)[1..] && Contents() == old(Contents())[1..]
      ensures length == |order|
    {
      if head == NIL {
        return None;
      } else if head == tail {
        length := length - 1;
        var headValue := nodes[head].payload.value;
        head, tail := NIL, NIL;
        order := [];
        return Some(headValue);
      } else {
        ghost var rest := order[1..];
        UnlinkHeadKeepsChain(nodes, order, head, tail);
        length := length - 1;
        var newHead := nodes[head].next;
        var oldHead := nodes[head].payload.value;
        assert newHead == order[1];
        head := newHead;
        NodeDelete(nodes[head].prev);
        order := rest;
        return Some(oldHead);
      }
    }

    /**
     * `remove_from_tail`: None on the empty list, which is left alone; otherwise the
     * tail's value, with the previous node promoted to tail.
     */
    method RemoveFromTail() returns (r: Option<int>)
      requires Valid()
      modifies this
      ensures Valid()
      ensures old(order) == [] ==> r == None && unchanged(this)
      ensures old(order) != [] ==> r == Some(old(Contents())[|old(order)| - 1].value)
      ensures old(order) != [] ==> order == old(order)[..|old(order)| - 1]
      ensures old(order) != [] ==> Contents() == old(Contents())[..|old(order)| - 1]
      ensures length == |order|
      ensures |old(order)| > 1 ==> head == old(head) && nodes[head].prev == old(nodes)[old(head)].prev
      ensures old(HeadPrevDetached()) ==> HeadPrevDetached()
    {
      if tail == NIL {
        return None;
      } else if tail == head {
        length := length - 1;
        var tailValue := nodes[tail].payload.value;
        head, tail := NIL, NIL;
        order := [];
        return Some(tailValue);
      } else {
        ghost var rest := order[..|order| - 1];
        UnlinkTailKeepsChain(nodes, order, head, tail);
        length := length - 1;
        var newTail := nodes[tail].prev;
        var oldTail := nodes[tail].payload.value;
        assert newTail == order[|order| - 2];
        tail := newTail;
        NodeDelete(nodes[tail].next);
        order := rest;
        return Some(oldTail);
      }
    }

    /**
     * `delete(node)`: nothing on the empty list; otherwise `length` drops by one and
     * exactly that node leaves the order, the others keeping theirs.
     */
    method Delete(h: int)
      requires Valid()
      requires order != [] ==> h in order
      requires 2 <= |order| && h == head ==> nodes[head].prev !in order
      modifies this
      ensures Valid()
      ensures old(order) == [] ==> unchanged(this)
      ensures old(order) != [] ==> order == RemoveAt(old(order), IndexOf(old(order), h))
      ensures old(order) != [] ==> Contents() == RemoveAt(old(Contents()), IndexOf(old(order), h))
      ensures length == |order|
      ensures |nodes| == |old(nodes)|
      ensures old(order) != [] ==> nodes[h].payload == old(nodes)[h].payload
      ensures |old(order)| == 1 ==> nodes == old(nodes)
      ensures |old(order)| >= 2 ==> nodes == Unlinked(old(nodes), h)
    {
      if head == NIL && tail == NIL {
        return;
      }
      ghost var i := IndexOf(order, h);
      if head == tail {
        head, tail := NIL, NIL;
        length := length - 1;
        order := [];
      } else {
        ghost var rest := RemoveAt(order, i);
        UnlinkKeepsChain(nodes, order, head, tail, i);
        if h == head {
          assert i == 0 && nodes[head].next == order[1] == rest[0];
          head := nodes[head].next;
          length := length - 1;
          NodeDelete(h);
        } else if h == tail {
          assert i == |order| - 1 && nodes[tail].prev == order[|order| - 2] == rest[|rest| - 1];
          tail := nodes[tail].prev;
          length := length - 1;
          NodeDelete(h);
        } else {
          assert head == rest[0] && tail == rest[|rest| - 1];
          length := length - 1;
          NodeDelete(h);
        }
        order := rest;
      }
    }

    /**
     * `get_max`: None on the empty list, otherwise the largest value met walking from
     * head to tail.
     */
    method GetMax() returns (r: Option<int>)
      requires Valid()
      ensures r == None <==> order == []
      ensures r.Some? ==> exists i :: 0 <= i < |order| && Contents()[i].value == r.value
      ensures r.Some? ==> forall i :: 0 <= i < |order| ==> Contents()[i].value <= r.value
    {
      if head == NIL {
        return None;
      }
      ghost var entries := Contents();
      var maxSoFar := nodes[head].payload.value;
      var current := nodes[head].next;
      ghost var k, at := 1, 0;
      while current != NIL
        invariant 1 <= k <= |order| && 0 <= at < k
        invariant current == if k < |order| then order[k] else NIL
        invariant entries[at].value == maxSoFar
        invariant forall i :: 0 <= i < k ==> entries[i].value <= maxSoFar
        decreases |order| - k
      {
        if nodes[current].payload.value > maxSoFar {
          maxSoFar := nodes[current].payload.value;
          at := k;
        }
        current := nodes[current].next;
        k := k + 1;
      }
      return Some(maxSoFar);
    }
  }

  /** `remove_from_tail` then `remove_from_head`: both ends of a list of two or more go. */
  method TrimEnds(l: DoublyLinkedList) returns (last: Option<int>, first: Option<int>)
    requires l.Valid() && l.HeadPrevDetached() && |l.order| >= 2
    modifies l
    ensures l.Valid() && l.HeadPrevDetached()
    ensures last == Some(old(l.Contents())[|old(l.order)| - 1].value)
    ensures first == Some(old(l.Contents())[0].value)
    ensures l.Contents() == old(l.Contents())[1..|old(l.order)| - 1]
  {
    last := l.RemoveFromTail();
    first := l.RemoveFromHead();
  }

  /**
   * `add_to_tail(node)` then `remove_from_head` on a non-empty list: a queue step.
   * The head's stale `prev` must not be the added node.
   */
  method Cycle(l: DoublyLinkedList, h: int) returns (first: Option<int>)
    requires l.Valid() && l.HeadPrevDetached() && l.order != []
    requires 0 <= h < |l.nodes| && h !in l.order && l.nodes[h].next == NIL
    requires l.nodes[l.head].prev != h
    modifies l
    ensures l.Valid() && l.HeadPrevDetached()
    ensures first == Some(old(l.Contents())[0].value)
    ensures l.Contents() == old(l.Contents())[1..] + [old(l.nodes)[h].payload]
  {
    l.AddToTail(h);
    first := l.RemoveFromHead();
  }

  /** `node.value = value` then `remove_from_head`: the head's value is the one written if `node` is the head. */
  method WriteThenPop(l: DoublyLinkedList, h: int, value: int) returns (first: Option<int>)
    requires l.Valid() && l.HeadPrevDetached() && h in l.order
    modifies l
    ensures l.Valid() && l.HeadPrevDetached()
    ensures first == Some(if h == old(l.head) then value else old(l.Contents())[0].value)
    ensures l.order == old(l.order)[1..]
    ensures l.Contents() == old(l.Contents())[IndexOf(old(l.order), h) := Entry(old(l.nodes)[h].payload.key, value)][1..]
  {
    l.SetValue(h, value);
    first := l.RemoveFromHead();
  }
}
