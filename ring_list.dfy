/**
 * The `ListNode` and `DoublyLinkedList` of ring_buffer/doubly_linked_list.py.
 *
 * Nodes carry a value only, and the list builds a fresh node for every value it is
 * given.  Here the head's `prev` is always None, so `Valid` says so.
 * `move_to_front`/`move_to_end` do not move the node they are given: they copy its
 * value into a new node at the other end and unlink the old one, which keeps its
 * own links and is no longer part of the list.
 */
module RingList {
  import opened Wrappers
  import opened Arena

  class DoublyLinkedList {
    var nodes: seq<Node<int>>
    var head: int
    var tail: int
    var length: int
    /** The linked handles, from head to tail. */
    ghost var order: seq<int>

    ghost predicate Valid()
      reads this
    {
      Closed(nodes) && Chain(nodes, order, head, tail) && length == |order| &&
      (order != [] ==> nodes[head].prev == NIL)
    }

    /** The values from head to tail. */
    ghost function Contents(): (s: seq<int>)
      reads this
      requires Valid()
    {
      Values(nodes, order)
    }

    /** `DoublyLinkedList()`: the empty list. */
    constructor ()
      ensures Valid() && order == [] && nodes == []
    {
      nodes, head, tail, length := [], NIL, NIL, 0;
      order := [];
    }

    /** `DoublyLinkedList(ListNode(value))`: a list of one fresh node. */
    constructor WithNode(value: int)
      ensures Valid() && order == [0] && Contents() == [value]
    {
      nodes := [Node(value, NIL, NIL)];
      head, tail, length := 0, 0, 1;
      order := [0];
    }

    /** `ListNode(value)`: a new node with no neighbours, not yet linked. */
    method NewNode(value: int) returns (h: int)
      requires Valid()
      modifies this`nodes
      ensures Valid()
      ensures h == |old(nodes)| && nodes == old(nodes) + [Node(value, NIL, NIL)]
      ensures h !in order && Contents() == old(Contents())
    {
      h := |nodes|;
      nodes := nodes + [Node(value, NIL, NIL)];
    }

    /** `ListNode.delete`: the neighbours of `h` skip it; `h` keeps its own links. */
    method NodeDelete(h: int)
      requires Closed(nodes) && 0 <= h < |nodes|
      modifies this`nodes
      ensures nodes == Unlinked(old(nodes), h)
    {
      var p, n := nodes[h].prev, nodes[h].next;
      if p != NIL {
        nodes := nodes[p := nodes[p].(next := n)];
      }
      if n != NIL {
        nodes := nodes[n := nodes[n].(prev := p)];
      }
    }

    /** `ListNode.insert_after`: a new node holding `value` between `h` and its old next. */
    method NodeInsertAfter(h: int, value: int)
      requires Closed(nodes) && 0 <= h < |nodes|
      modifies this`nodes
      ensures nodes == SplicedAfter(old(nodes), h, value)
    {
      var currentNext := nodes[h].next;
      var added := |nodes|;
      nodes := nodes + [Node(value, h, currentNext)];
      nodes := nodes[h := nodes[h].(next := added)];
      if currentNext != NIL {
        nodes := nodes[currentNext := nodes[currentNext].(prev := added)];
      }
    }

    /** `ListNode.insert_before`: a new node holding `value` between `h`'s old prev and `h`. */
    method NodeInsertBefore(h: int, value: int)
      requires Closed(nodes) && 0 <= h < |nodes|
      modifies this`nodes
      ensures nodes == SplicedBefore(old(nodes), h, value)
    {
      var currentPrev := nodes[h].prev;
      var added := |nodes|;
      nodes := nodes + [Node(value, currentPrev, h)];
      nodes := nodes[h := nodes[h].(prev := added)];
      if currentPrev != NIL {
        nodes := nodes[currentPrev := nodes[currentPrev].(next := added)];
      }
    }

    /** `node.value = value` on a linked node: only the value at that node's position changes. */
    method SetValue(h: int, value: int)
      requires Valid() && h in order
      modifies this`nodes
      ensures Valid() && nodes == old(nodes)[h := old(nodes)[h].(payload := value)]
      ensures Contents() == old(Contents())[IndexOf(order, h) := value]
    {
      SetPayloadKeepsChain(nodes, order, head, tail, IndexOf(order, h), value);
      nodes := nodes[h := nodes[h].(payload := value)];
    }

    /** `__len__`. */
    method Len() returns (n: int)
      requires Valid()
      ensures n == |Contents()|
      ensures n == 0 <==> head == NIL
    {
      n := length;
    }

    /** `add_to_head(value)`: a new node holding `value` becomes the head; `length` rises by one. */
    method AddToHead(value: int)
      requires Valid()
      modifies this
      ensures Valid()
      ensures head == |old(nodes)| && order == [head] + old(order) && length == old(length) + 1
      ensures Contents() == [value] + old(Contents())
      ensures tail == if old(order) == [] then head else old(tail)
    {
      var newNode := NewNode(value);
      length := length + 1;
      if head == NIL && tail == NIL {
        head, tail := newNode, newNode;
      } else {
        LinkFrontKeepsChain(nodes, order, head, tail, newNode);
        nodes := nodes[newNode := nodes[newNode].(next := head)];
        nodes := nodes[head := nodes[head].(prev := newNode)];
        head := newNode;
      }
      order := [newNode] + order;
    }

    /** `add_to_tail(value)`: a new node holding `value` becomes the tail; `length` rises by one. */
    method AddToTail(value: int)
      requires Valid()
      modifies this
      ensures Valid()
      ensures tail == |old(nodes)| && order == old(order) + [tail] && length == old(length) + 1
      ensures Contents() == old(Contents()) + [value]
      ensures head == if old(order) == [] then tail else old(head)
      ensures forall k :: 0 <= k < |old(nodes)| ==> nodes[k].payload == old(nodes)[k].payload
    {
      var newNode := NewNode(value);
      length := length + 1;
      if head == NIL && tail == NIL {
        head, tail := newNode, newNode;
      } else {
        LinkBackKeepsChain(nodes, order, head, tail, newNode);
        nodes := nodes[newNode := nodes[newNode].(prev := tail)];
        nodes := nodes[tail := nodes[tail].(next := newNode)];
        tail := newNode;
      }
      order := order + [newNode];
    }

    /**
     * `remove_from_head`: None on the empty list, which is left alone; otherwise the
     * head's value, with the next node promoted to head and its `prev` cleared.
     */
    method RemoveFromHead() returns (r: Option<int>)
      requires Valid()
      modifies this
      ensures Valid()
      ensures old(order) == [] ==> r == None && unchanged(this)
      ensures old(order) != [] ==> r == Some(old(Contents())[0])
      ensures old(order) != [] ==> order == old(order)[1..] && Contents() == old(Contents())[1..]
      ensures length == |order|
    {
      if head == NIL {
        return None;
      } else if head == tail {
        length := length - 1;
        var headValue := nodes[head].payload;
        head, tail := NIL, NIL;
        order := [];
        return Some(headValue);
      } else {
        ghost var rest := order[1..];
        UnlinkHeadKeepsChain(nodes, order, head, tail);
        length := length - 1;
        var newHead := nodes[head].next;
        var oldHead := nodes[head].payload;
        assert newHead == order[1];
        head := newHead;
        NodeDelete(nodes[head].prev);
        order := rest;
        return Some(oldHead);
      }
    }

    /**
     * `remove_from_tail`: None on the empty list, which is left alone; otherwise the
     * tail's value, with the previous node promoted to tail and its `next` cleared.
     */
    method RemoveFromTail() returns (r: Option<int>)
      requires Valid()
      modifies this
      ensures Valid()
      ensures old(order) == [] ==> r == None && unchanged(this)
      ensures old(order) != [] ==> r == Some(old(Contents())[|old(order)| - 1])
      ensures old(order) != [] ==> order == old(order)[..|old(order)| - 1]
      ensures old(order) != [] ==> Contents() == old(Contents())[..|old(order)| - 1]
      ensures length == |order|
    {
      if tail == NIL {
        return None;
      } else if tail == head {
        length := length - 1;
        var tailValue := nodes[tail].payload;
        head, tail := NIL, NIL;
        order := [];
        return Some(tailValue);
      } else {
        ghost var rest := order[..|order| - 1];
        UnlinkTailKeepsChain(nodes, order, head, tail);
        length := length - 1;
        var newTail := nodes[tail].prev;
        var oldTail := nodes[tail].payload;
        assert newTail == order[|order| - 2];
        tail := newTail;
        NodeDelete(nodes[tail].next);
        order := rest;
        return Some(oldTail);
      }
    }

    /**
     * `move_to_front(node)`: nothing when the node is the head; otherwise its value
     * is copied into a new head node and the node itself is unlinked, so the values
     * read `[value] + (the others in order)` and `length` is unchanged.
     */
    method MoveToFront(h: int)
      requires Valid() && h in order
      modifies this
      ensures Valid()
      ensures h == old(head) ==> unchanged(this)
      ensures h != old(head) ==> head == |old(nodes)| && h !in order && length == old(length)
      ensures h != old(head) ==> order == [head] + RemoveAt(old(order), IndexOf(old(order), h))
      ensures h != old(head) ==>
        Contents() == [old(nodes)[h].payload] + RemoveAt(old(Contents()), IndexOf(old(order), h))
    {
      if h == head {
        return;
      }
      ghost var i := IndexOf(order, h);
      ghost var newTail := if i == |order| - 1 then order[|order| - 2] else tail;
      ghost var moved := SplicedBefore(Unlinked(nodes, h), head, nodes[h].payload);
      ghost var newOrder := [|nodes|] + RemoveAt(order, i);
      MoveFrontKeepsChain(nodes, order, head, tail, i);
      if h == tail {
        tail := nodes[tail].prev;
      }
      assert tail == newTail;
      var nodeValue := nodes[h].payload;
      NodeDelete(h);
      NodeInsertBefore(head, nodeValue);
      assert nodes == moved;
      head := nodes[head].prev;
      order := newOrder;
    }

    /**
     * `move_to_end(node)`: nothing when the node is the tail; otherwise its value is
     * copied into a new tail node and the node itself is unlinked, so the values read
     * `(the others in order) + [value]` and `length` is unchanged.
     */
    method MoveToEnd(h: int)
      requires Valid() && h in order
      modifies this
      ensures Valid()
      ensures h == old(tail) ==> unchanged(this)
      ensures h != old(tail) ==> tail == |old(nodes)| && h !in order && length == old(length)
      ensures h != old(tail) ==> order == RemoveAt(old(order), IndexOf(old(order), h)) + [tail]
      ensures h != old(tail) ==>
        Contents() == RemoveAt(old(Contents()), IndexOf(old(order), h)) + [old(nodes)[h].payload]
    {
      if h == tail {
        return;
      }
      ghost var i, oldNodes, oldOrder, oldHead, oldTail := IndexOf(order, h), nodes, order, head, tail;
      if h == head {
        head := nodes[head].next;
      }
      var nodeValue := nodes[h].payload;
      NodeDelete(h);
      NodeInsertAfter(tail, nodeValue);
      tail := nodes[tail].next;
      order := RemoveAt(oldOrder, i) + [|oldNodes|];
      MovedToEnd(oldNodes, oldOrder, oldHead, oldTail, i, nodes, order, head, tail);
    }

    /**
     * `delete(node)`: nothing on the empty list; otherwise `length` drops by one and
     * exactly that node leaves the order, the others keeping theirs.
     */
    method Delete(h: int)
      requires Valid()
      requires order != [] ==> h in order
      modifies this
      ensures Valid()
      ensures old(order) == [] ==> unchanged(this)
      ensures old(order) != [] ==> order == RemoveAt(old(order), IndexOf(old(order), h))
      ensures old(order) != [] ==> Contents() == RemoveAt(old(Contents()), IndexOf(old(order), h))
      ensures length == |order|
    {
      if head == NIL && tail == NIL {
        return;
      }
      if head == tail {
        head, tail := NIL, NIL;
        length := length - 1;
        order := [];
      } else {
        Unlink(h, IndexOf(order, h));
      }
    }

    /** `delete(node)` on a list of two nodes or more: the branches on the node's place. */
    method Unlink(h: int, ghost i: int)
      requires Valid() && 2 <= |order| && 0 <= i < |order| && order[i] == h
      modifies this
      ensures Valid()
      ensures order == RemoveAt(old(order), i) && Contents() == RemoveAt(old(Contents()), i)
    {
      ghost var rest := RemoveAt(order, i);
      UnlinkKeepsChain(nodes, order, head, tail, i);
      if h == head {
        assert i == 0 by {
          assert IndexOf(order, order[0]) == 0;
        }
        assert nodes[head].next == order[1] == rest[0];
        head := nodes[head].next;
        length := length - 1;
        NodeDelete(h);
      } else if h == tail {
        assert i == |order| - 1 by {
          assert IndexOf(order, order[|order| - 1]) == |order| - 1;
        }
        assert nodes[tail].prev == order[|order| - 2] == rest[|rest| - 1];
        tail := nodes[tail].prev;
        length := length - 1;
        NodeDelete(h);
      } else {
        assert head == rest[0] && tail == rest[|rest| - 1];
        length := length - 1;
        NodeDelete(h);
      }
      order := rest;
    }

    /**
     * `get_max`: None on the empty list, otherwise the largest value met walking from
     * head to tail.
     */
    method GetMax() returns (r: Option<int>)
      requires Valid()
      ensures r == None <==> order == []
      ensures r.Some? ==> r.value in Contents()
      ensures r.Some? ==> forall i :: 0 <= i < |order| ==> Contents()[i] <= r.value
    {
      if head == NIL {
        return None;
      }
      ghost var values := Contents();
      var maxSoFar := nodes[head].payload;
      var current := nodes[head].next;
      ghost var k, at := 1, 0;
      while current != NIL
        invariant 1 <= k <= |order| && 0 <= at < k
        invariant current == if k < |order| then order[k] else NIL
        invariant values[at] == maxSoFar
        invariant forall i :: 0 <= i < k ==> values[i] <= maxSoFar
        decreases |order| - k
      {
        if nodes[current].payload > maxSoFar {
          maxSoFar := nodes[current].payload;
          at := k;
        }
        current := nodes[current].next;
        k := k + 1;
      }
      return Some(maxSoFar);
    }
  }

  /**
   * The state `move_to_end` leaves when the node at position `i` is not the tail: the
   * list is well formed again, the node is gone and its value is last.
   */
  lemma MovedToEnd(nodes: seq<Node<int>>, order: seq<int>, head: int, tail: int, i: int,
                   nodes': seq<Node<int>>, order': seq<int>, head': int, tail': int)
    requires Closed(nodes) && Chain(nodes, order, head, tail) && 0 <= i < |order|
    requires nodes[head].prev == NIL && order[i] != tail
    requires head' == if order[i] == head then nodes[head].next else head
    requires nodes' == SplicedAfter(Unlinked(nodes, order[i]), tail, nodes[order[i]].payload)
    requires order' == RemoveAt(order, i) + [|nodes|] && tail' == |nodes|
    ensures Closed(nodes') && Chain(nodes', order', head', tail')
    ensures 0 <= head' < |nodes'| && nodes'[head'].prev == NIL
    ensures order[i] !in order'
    ensures Values(nodes', order') == RemoveAt(Values(nodes, order), i) + [nodes[order[i]].payload]
  {
    assert IndexOf(order, order[|order| - 1]) == |order| - 1;
    MoveEndKeepsChain(nodes, order, head, tail, i);
  }
}
