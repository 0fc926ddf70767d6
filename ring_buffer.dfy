/**
 * The `RingBuffer` class of ring_buffer/ring_buffer.py over the list of
 * ring_buffer/doubly_linked_list.py.
 *
 * `oldestNode` is the handle of `oldest_node` (NIL for None); the ghost `oldestAt`
 * is its position in the list.  `Abstract` reads the object as a `RingSpec.Ring`,
 * and each method is proved against the function of that module that specifies it.
 */
module RingBuffer {
  import opened Arena
  import opened RingSpec
  import RingList

  class RingBuffer {
    var capacity: int
    var oldestNode: int
    var returnBuffer: seq<int>
    var list: RingList.DoublyLinkedList
    var currentSize: int
    /** The position of `oldestNode` in the list (0 while the list is empty). */
    ghost var oldestAt: int

    /**
     * `current_size` counts the list's nodes, `oldest_node` is None exactly while the
     * list is empty, and otherwise it is a linked node, the head until the buffer is full.
     */
    ghost predicate Valid()
      reads this, list
    {
      list.Valid() && currentSize == |list.order| &&
      (list.order == [] ==> oldestNode == NIL && oldestAt == 0) &&
      (list.order != [] ==>
         |list.order| <= capacity && 0 <= oldestAt < |list.order| && oldestNode == list.order[oldestAt] &&
         (|list.order| < capacity ==> oldestAt == 0))
    }

    /** The buffer as a value: the list's values, the position of the oldest node, the capacity. */
    ghost function Abstract(): (r: Ring)
      reads this, list
      requires Valid()
      ensures Inv(r)
    {
      Ring(list.Contents(), oldestAt, capacity)
    }

    /** `RingBuffer(capacity)`: an empty list, no oldest node, an empty return buffer. */
    constructor (capacity: int)
      ensures Valid() && Abstract() == Empty(capacity) && returnBuffer == [] && fresh(list)
    {
      this.capacity := capacity;
      oldestNode := NIL;
      returnBuffer := [];
      list := new RingList.DoublyLinkedList();
      currentSize := 0;
      oldestAt := 0;
    }

    /**
     * `append(item)`.  Below capacity the item is added at the tail and the first node
     * becomes the oldest; at capacity the oldest node's value is overwritten in place
     * and the oldest moves on to the next node, or back to the head after the tail.
     * A capacity of zero or less makes the source dereference `None` on the first
     * append, so it is excluded.
     */
    method Append(item: int)
      requires Valid() && capacity > 0
      modifies this`oldestNode, this`currentSize, this`oldestAt, list
      ensures Valid() && list == old(list)
      ensures Abstract() == RingSpec.Append(old(Abstract()), item)
      ensures old(currentSize) < capacity ==>
                currentSize == old(currentSize) + 1 && list.order == old(list.order) + [list.tail]
      ensures old(currentSize) == capacity ==>
                currentSize == old(currentSize) && list.order == old(list.order) &&
                list.head == old(list.head) && list.tail == old(list.tail)
    {
      if currentSize < capacity {
        list.AddToTail(item);
        currentSize := currentSize + 1;
        if currentSize == 1 {
          oldestNode := list.head;
        }
        oldestAt := 0;
      } else {
        ghost var o := oldestAt;
        assert IndexOf(list.order, list.order[o]) == o;
        list.SetValue(oldestNode, item);
        if oldestNode == list.tail {
          assert o == |list.order| - 1 by {
            assert IndexOf(list.order, list.order[|list.order| - 1]) == |list.order| - 1;
          }
          oldestNode := list.head;
          oldestAt := 0;
        } else {
          assert list.nodes[list.order[o]].next == list.order[o + 1];
          oldestNode := list.nodes[oldestNode].next;
          oldestAt := o + 1;
        }
      }
    }

    /**
     * `get()` as written: the values from head to tail are added to the end of the
     * return buffer, which is kept from earlier calls, and the whole buffer is returned.
     */
    method Get() returns (r: seq<int>)
      requires Valid()
      modifies this`returnBuffer
      ensures r == returnBuffer == RingSpec.Get(old(returnBuffer), Abstract())
    {
      var node := list.head;
      ghost var k := 0;
      while node != NIL
        invariant 0 <= k <= |list.order|
        invariant node == if k < |list.order| then list.order[k] else NIL
        invariant returnBuffer == old(returnBuffer) + list.Contents()[..k]
        decreases |list.order| - k
      {
        returnBuffer := returnBuffer + [list.nodes[node].payload];
        node := list.nodes[node].next;
        k := k + 1;
      }
      r := returnBuffer;
    }

    /**
     * `get()` corrected: a fresh sequence of the values from the oldest node to the
     * tail and on from the head to just before the oldest node, which is the order
     * they were appended in.
     */
    method Snapshot() returns (out: seq<int>)
      requires Valid()
      ensures out == FromOldest(Abstract())
    {
      if oldestNode == NIL {
        return [];
      }
      var newer := ValuesFrom(oldestNode, oldestAt);
      var older := ValuesBefore(oldestNode, oldestAt);
      out := newer + older;
    }

    /** The values from the node at position `k` on to the tail. */
    method ValuesFrom(start: int, ghost k: int) returns (out: seq<int>)
      requires list.Valid() && 0 <= k < |list.order| && start == list.order[k]
      ensures out == list.Contents()[k..]
    {
      out := [];
      var node := start;
      ghost var i := k;
      while node != NIL
        invariant k <= i <= |list.order|
        invariant node == if i < |list.order| then list.order[i] else NIL
        invariant out == list.Contents()[k..i]
        decreases |list.order| - i
      {
        out := out + [list.nodes[node].payload];
        node := list.nodes[node].next;
        i := i + 1;
      }
    }

    /** The values from the head up to the node at position `k`, which is left out. */
    method ValuesBefore(stop: int, ghost k: int) returns (out: seq<int>)
      requires list.Valid() && 0 <= k < |list.order| && stop == list.order[k]
      ensures out == list.Contents()[..k]
    {
      out := [];
      var node := list.head;
      ghost var i := 0;
      while node != stop
        invariant 0 <= i <= k
        invariant node == list.order[i]
        invariant out == list.Contents()[..i]
        decreases k - i
      {
        out := out + [list.nodes[node].payload];
        node := list.nodes[node].next;
        i := i + 1;
      }
      assert IndexOf(list.order, list.order[i]) == i;
    }
  }

  /**
   * A buffer of capacity 3 given 1, 2, 3, 4: `get()` returns the slots [4, 2, 3], and the
   * corrected reading returns the items kept in append order, [2, 3, 4].
   */
  method WrapScenario() returns (got: seq<int>, kept: seq<int>)
    ensures got == [4, 2, 3] && kept == [2, 3, 4]
  {
    var b := new RingBuffer(3);
    b.Append(1);
    b.Append(2);
    b.Append(3);
    b.Append(4);
    assert b.Abstract() == Ring([4, 2, 3], 1, 3);
    got := b.Get();
    kept := b.Snapshot();
    assert FromOldest(Ring([4, 2, 3], 1, 3)) == [2, 3] + [4];
  }
}
