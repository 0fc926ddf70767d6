/**
 * The `RingBuffer` of ring_buffer/ring_buffer.py as a value.
 *
 * `slots` are the values of the buffer's list from head to tail; `oldest` is the
 * position in that list of `oldest_node`, the slot the next append overwrites once
 * the buffer is full (0 while the list is empty and `oldest_node` is None).
 * `FromOldest` reads the slots starting at `oldest`, wrapping round: the values in
 * the order they were appended.
 */
module RingSpec {

  datatype Ring = Ring(slots: seq<int>, oldest: int, capacity: int)

  /** What `__init__` and every `append` leave behind. */
  predicate Inv(r: Ring) {
    (r.slots == [] ==> r.oldest == 0) &&
    (r.slots != [] ==>
       |r.slots| <= r.capacity && 0 <= r.oldest < |r.slots| &&
       (|r.slots| < r.capacity ==> r.oldest == 0))
  }

  /** `RingBuffer(capacity)`: no slots yet. */
  function Empty(capacity: int): (r: Ring)
    ensures Inv(r) && r.slots == [] && r.capacity == capacity
  {
    Ring([], 0, capacity)
  }

  /** The slots from the oldest one round to the newest. */
  function FromOldest(r: Ring): (s: seq<int>)
    requires Inv(r)
    ensures |s| == |r.slots|
  {
    r.slots[r.oldest..] + r.slots[..r.oldest]
  }

  /** Reading from the oldest slot is a rotation: it holds the same values. */
  lemma FromOldestSameValues(r: Ring)
    requires Inv(r)
    ensures multiset(FromOldest(r)) == multiset(r.slots)
  {
    assert r.slots == r.slots[..r.oldest] + r.slots[r.oldest..];
  }

  /**
   * The `i`th value from the oldest is the slot `i` places after the oldest one,
   * counting on from the head once the tail is passed.
   */
  lemma FromOldestAt(r: Ring, i: int)
    requires Inv(r) && 0 <= i < |r.slots|
    ensures FromOldest(r)[i] ==
              if r.oldest + i < |r.slots| then r.slots[r.oldest + i] else r.slots[r.oldest + i - |r.slots|]
  {
    var o, n := r.oldest, |r.slots|;
    if o + i >= n {
      assert FromOldest(r)[i] == r.slots[..o][i - (n - o)];
    }
  }

  /**
   * `append(item)`: below capacity the item goes to a new slot at the tail (the
   * oldest slot stays the head); at capacity it overwrites the oldest slot, and the
   * next slot, or the head after the tail, becomes the oldest.  A capacity of zero
   * or less makes the source dereference a missing node, so it is excluded.
   */
  function Append(r: Ring, item: int): (r': Ring)
    requires Inv(r) && r.capacity > 0
    ensures Inv(r') && r'.capacity == r.capacity
    ensures |r'.slots| == if |r.slots| < r.capacity then |r.slots| + 1 else r.capacity
  {
    if |r.slots| < r.capacity then Ring(r.slots + [item], 0, r.capacity)
    else Ring(r.slots[r.oldest := item], if r.oldest == |r.slots| - 1 then 0 else r.oldest + 1, r.capacity)
  }

  /**
   * Read from the oldest slot, `append` is a bounded queue: the item joins at the
   * newest end, and once the buffer is full the oldest item drops out.
   */
  lemma AppendFromOldest(r: Ring, item: int)
    requires Inv(r) && r.capacity > 0
    ensures FromOldest(Append(r, item)) ==
              if |r.slots| < r.capacity then FromOldest(r) + [item] else FromOldest(r)[1..] + [item]
  {
    var s, o := r.slots, r.oldest;
    if |s| < r.capacity {
      assert FromOldest(r) == s;
      assert FromOldest(Append(r, item)) == s + [item];
    } else {
      var s' := s[o := item];
      assert FromOldest(r)[1..] == s[o + 1..] + s[..o];
      if o == |s| - 1 {
        assert s' == s[..o] + [item];
        assert FromOldest(Append(r, item)) == s';
      } else {
        assert s'[o + 1..] == s[o + 1..];
        assert s'[..o + 1] == s[..o] + [item];
      }
    }
  }

  /** The buffer after appending `items`, in order, to `RingBuffer(capacity)`. */
  function Filled(capacity: int, items: seq<int>): (r: Ring)
    requires capacity > 0
    ensures Inv(r) && r.capacity == capacity
    ensures |r.slots| == if |items| < capacity then |items| else capacity
    decreases |items|
  {
    if items == [] then Empty(capacity)
    else Append(Filled(capacity, items[..|items| - 1]), items[|items| - 1])
  }

  /** The last `capacity` of `items` (all of them when there are fewer). */
  function Latest(capacity: int, items: seq<int>): (s: seq<int>)
    requires capacity > 0
  {
    if |items| < capacity then items else items[|items| - capacity..]
  }

  /**
   * Appending any items keeps exactly the last `capacity` of them, and reading from
   * the oldest slot gives them in the order they were appended.
   */
  lemma {:induction false} FilledKeepsLatest(capacity: int, items: seq<int>)
    requires capacity > 0
    ensures FromOldest(Filled(capacity, items)) == Latest(capacity, items)
    decreases |items|
  {
    if items != [] {
      var init, x := items[..|items| - 1], items[|items| - 1];
      assert items == init + [x];
      FilledKeepsLatest(capacity, init);
      AppendFromOldest(Filled(capacity, init), x);
      LatestStep(capacity, init, x);
    }
  }

  /** One more item joins the latest ones, and pushes out the first of them once there are `capacity`. */
  lemma LatestStep(capacity: int, init: seq<int>, x: int)
    requires capacity > 0
    ensures Latest(capacity, init + [x]) ==
              if |init| < capacity then Latest(capacity, init) + [x] else Latest(capacity, init)[1..] + [x]
  {
    var items := init + [x];
    if |items| == capacity {
      assert items[|items| - capacity..] == items;
    } else if |init| >= capacity {
      assert Latest(capacity, init)[1..] == init[|init| - capacity + 1..];
      assert items[|items| - capacity..] == init[|init| - capacity + 1..] + [x];
    }
  }

  /**
   * `get()` as written: the values from head to tail, which is slot order and not
   * arrival order, are added to the end of the buffer kept from earlier calls, and
   * that whole buffer is returned.
   */
  function Get(returned: seq<int>, r: Ring): (out: seq<int>)
    ensures |out| == |returned| + |r.slots| && out[..|returned|] == returned
    ensures forall i :: 0 <= i < |r.slots| ==> out[|returned| + i] == r.slots[i]
  {
    returned + r.slots
  }

  /** Once the buffer has wrapped, reading from the oldest slot gives the last `capacity` items in append order. */
  lemma WrappedKeepsLatest(capacity: int, items: seq<int>)
    requires capacity > 0 && |items| >= capacity
    ensures FromOldest(Filled(capacity, items)) == items[|items| - capacity..]
  {
    FilledKeepsLatest(capacity, items);
  }

  /**
   * After appending 1, 2, 3, 4 to a buffer of capacity 3, `get()` returns the slots
   * [4, 2, 3], while the items kept, in append order, are [2, 3, 4].
   */
  lemma GetAfterWrapExample()
    ensures var r := Append(Append(Append(Append(Empty(3), 1), 2), 3), 4);
            Get([], r) == [4, 2, 3] && FromOldest(r) == [2, 3, 4]
  {
    var r3 := Append(Append(Append(Empty(3), 1), 2), 3);
    assert r3 == Ring([1, 2, 3], 0, 3);
    var r := Append(r3, 4);
    assert r == Ring([4, 2, 3], 1, 3);
    assert FromOldest(r) == [2, 3] + [4];
  }

  /**
   * Calling `get()` twice on a buffer holding 1, 2 returns [1, 2, 1, 2] the second
   * time: the buffer of the first call is kept and added to.
   */
  lemma GetTwiceExample()
    ensures var r := Append(Append(Empty(2), 1), 2);
            Get(Get([], r), r) == [1, 2, 1, 2] && FromOldest(r) == [1, 2]
  {
    var r := Append(Append(Empty(2), 1), 2);
    assert r == Ring([1, 2], 0, 2);
  }
}
