/**
 * The node cells shared by both doubly linked lists, kept in an arena.
 *
 * A Python `ListNode` object becomes a cell of a sequence `nodes`, addressed by its
 * index (its handle).  `prev` and `next` hold handles, and `NIL` stands for `None`.
 * Cells are never freed: a node that is unlinked stays in the arena with whatever
 * links it had, exactly as the Python object keeps its own `prev`/`next`.
 *
 * `Chain` says that a sequence of handles is a well linked list, from head to tail.
 * It says nothing about the `prev` of the head: the list of names/lru_cache.py
 * leaves a stale `prev` there.
 */
module Arena {

  /** The "no neighbour" handle, Python's `None`. */
  const NIL: int := -1

  datatype Node<P> = Node(payload: P, prev: int, next: int)

  /** A link is either NIL or the handle of a cell of the arena. */
  predicate IsLink<P>(nodes: seq<Node<P>>, x: int) {
    x == NIL || 0 <= x < |nodes|
  }

  /** Every link stored in the arena is NIL or a handle of the arena. */
  ghost predicate Closed<P>(nodes: seq<Node<P>>) {
    forall h :: 0 <= h < |nodes| ==> IsLink(nodes, nodes[h].prev) && IsLink(nodes, nodes[h].next)
  }

  /** Every element of `order` is a handle of the arena. */
  ghost predicate InArena<P>(nodes: seq<Node<P>>, order: seq<int>) {
    forall i :: 0 <= i < |order| ==> 0 <= order[i] < |nodes|
  }

  /** Handles of the arena, each at most once. */
  ghost predicate Handles<P>(nodes: seq<Node<P>>, order: seq<int>) {
    InArena(nodes, order) && Distinct(order)
  }

  /**
   * No element occurs twice: every element is found where it stands.  (Stated through
   * the position of each element rather than over pairs, which keeps the verifier's
   * work linear in the number of positions it looks at.)
   */
  ghost predicate Distinct(s: seq<int>) {
    forall i :: 0 <= i < |s| ==> IndexOf(s, s[i]) == i
  }

  /** An element that occurs at `j` and nowhere else is found at `j`. */
  lemma IndexOfOnly(s: seq<int>, j: int)
    requires 0 <= j < |s| && forall k :: 0 <= k < |s| && k != j ==> s[k] != s[j]
    ensures IndexOf(s, s[j]) == j
  {
  }

  /**
   * `order` lists the linked cells from `head` to `tail`: consecutive cells point at
   * each other, the tail's `next` is NIL, and the empty list has NIL at both ends.
   */
  ghost predicate Chain<P>(nodes: seq<Node<P>>, order: seq<int>, head: int, tail: int) {
    Handles(nodes, order) &&
    (if order == [] then head == NIL && tail == NIL
     else head == order[0] && tail == order[|order| - 1] && nodes[tail].next == NIL) &&
    Linked(nodes, order)
  }

  /** Consecutive cells of `order` point at each other. */
  ghost predicate Linked<P>(nodes: seq<Node<P>>, order: seq<int>)
    requires InArena(nodes, order)
  {
    (forall i {:trigger nodes[order[i]]} :: 0 <= i < |order| - 1 ==> nodes[order[i]].next == order[i + 1]) &&
    (forall i {:trigger nodes[order[i]]} :: 0 < i < |order| ==> nodes[order[i]].prev == order[i - 1])
  }

  /** The payloads of the cells of `order`, in that order. */
  ghost function Values<P>(nodes: seq<Node<P>>, order: seq<int>): (r: seq<P>)
    requires InArena(nodes, order)
    ensures |r| == |order|
    ensures forall i {:trigger r[i]} :: 0 <= i < |order| ==> r[i] == nodes[order[i]].payload
  {
    if order == [] then [] else [nodes[order[0]].payload] + Values(nodes, order[1..])
  }

  function RemoveAt<T>(s: seq<T>, i: int): (r: seq<T>)
    requires 0 <= i < |s|
    ensures |r| == |s| - 1
    ensures forall j {:trigger r[j]} :: 0 <= j < i ==> r[j] == s[j]
    ensures forall j {:trigger r[j]} :: i <= j < |r| ==> r[j] == s[j + 1]
  {
    seq(|s| - 1, j requires 0 <= j < |s| - 1 => if j < i then s[j] else s[j + 1])
  }

  function InsertAt<T>(s: seq<T>, i: int, x: T): (r: seq<T>)
    requires 0 <= i <= |s|
    ensures |r| == |s| + 1 && r[i] == x
    ensures forall j {:trigger r[j]} :: 0 <= j < i ==> r[j] == s[j]
    ensures forall j {:trigger r[j]} :: i < j < |r| ==> r[j] == s[j - 1]
  {
    seq(|s| + 1, j requires 0 <= j <= |s| => if j < i then s[j] else if j == i then x else s[j - 1])
  }

  lemma InsertAtEnds<T>(s: seq<T>, x: T)
    ensures InsertAt(s, 0, x) == [x] + s && InsertAt(s, |s|, x) == s + [x]
  {
  }

  lemma RemoveAtEnds<T>(s: seq<T>)
    requires s != []
    ensures RemoveAt(s, 0) == s[1..] && RemoveAt(s, |s| - 1) == s[..|s| - 1]
  {
  }

  lemma MemberRemoveAt<T>(s: seq<T>, i: int, x: T)
    requires 0 <= i < |s|
    ensures x in s <==> x == s[i] || x in RemoveAt(s, i)
  {
    var r := RemoveAt(s, i);
    if x in s {
      var a :| 0 <= a < |s| && s[a] == x;
      if a < i {
        assert r[a] == x;
      } else if a > i {
        assert r[a - 1] == x;
      }
    }
    if x in r {
      var a :| 0 <= a < |r| && r[a] == x;
      assert s[if a < i then a else a + 1] == x;
    }
  }

  lemma DistinctInsertAt(s: seq<int>, i: int, x: int)
    requires Distinct(s) && x !in s && 0 <= i <= |s|
    ensures Distinct(InsertAt(s, i, x))
  {
    var o := InsertAt(s, i, x);
    forall j | 0 <= j < |o| ensures IndexOf(o, o[j]) == j {
      forall k | 0 <= k < |o| && k != j ensures o[k] != o[j] {
        if k != i && j != i {
          assert o[k] == s[if k < i then k else k - 1] && o[j] == s[if j < i then j else j - 1];
        }
      }
      IndexOfOnly(o, j);
    }
  }

  lemma DistinctRemoveAt(s: seq<int>, i: int)
    requires Distinct(s) && 0 <= i < |s|
    ensures Distinct(RemoveAt(s, i)) && s[i] !in RemoveAt(s, i)
  {
    var o := RemoveAt(s, i);
    forall j | 0 <= j < |o| ensures IndexOf(o, o[j]) == j {
      forall k | 0 <= k < |o| && k != j ensures o[k] != o[j] {
        assert o[k] == s[if k < i then k else k + 1] && o[j] == s[if j < i then j else j + 1];
      }
      IndexOfOnly(o, j);
    }
    forall a | 0 <= a < |o| ensures o[a] != s[i] {
      assert o[a] == s[if a < i then a else a + 1];
    }
  }

  lemma ValuesInsertAt<P>(nodes: seq<Node<P>>, order: seq<int>, i: int, m: int)
    requires InArena(nodes, order)
    requires 0 <= i <= |order| && 0 <= m < |nodes|
    ensures Values(nodes, InsertAt(order, i, m)) == InsertAt(Values(nodes, order), i, nodes[m].payload)
  {
  }

  lemma ValuesRemoveAt<P>(nodes: seq<Node<P>>, order: seq<int>, i: int)
    requires InArena(nodes, order)
    requires 0 <= i < |order|
    ensures Values(nodes, RemoveAt(order, i)) == RemoveAt(Values(nodes, order), i)
  {
  }

  /** Rewriting links only leaves the values of a list as they were. */
  lemma ValuesSamePayloads<P>(nodes: seq<Node<P>>, r: seq<Node<P>>, order: seq<int>)
    requires InArena(nodes, order)
    requires |nodes| <= |r| && forall k :: 0 <= k < |nodes| ==> r[k].payload == nodes[k].payload
    ensures Values(r, order) == Values(nodes, order)
  {
  }

  /** A position of `x` in `s`; in a `Distinct` sequence, its only one. */
  ghost function IndexOf(s: seq<int>, x: int): (i: int)
    requires x in s
    ensures 0 <= i < |s| && s[i] == x
  {
    var i :| 0 <= i < |s| && s[i] == x; i
  }

  /**
   * `ListNode.delete`: the previous cell (if any) skips forward over `h`, the next
   * cell (if any) skips back over `h`; `h` keeps its own links and no payload moves.
   */
  function Unlinked<P>(nodes: seq<Node<P>>, h: int): (r: seq<Node<P>>)
    requires 0 <= h < |nodes| && IsLink(nodes, nodes[h].prev) && IsLink(nodes, nodes[h].next)
    ensures |r| == |nodes|
    ensures nodes[h].prev != NIL ==> r[nodes[h].prev].next == nodes[h].next
    ensures nodes[h].next != NIL ==> r[nodes[h].next].prev == nodes[h].prev
    ensures Closed(nodes) ==> Closed(r)
  {
    var p, n := nodes[h].prev, nodes[h].next;
    var skipped := if p != NIL then nodes[p := nodes[p].(next := n)] else nodes;
    if n != NIL then skipped[n := skipped[n].(prev := p)] else skipped
  }

  /**
   * `ListNode.insert_after`: a fresh cell, at handle `|nodes|`, with `h` before it and
   * `h`'s old next after it; both neighbours are pointed at the fresh cell.
   */
  function SplicedAfter<P>(nodes: seq<Node<P>>, h: int, payload: P): (r: seq<Node<P>>)
    requires 0 <= h < |nodes| && IsLink(nodes, nodes[h].next)
    ensures |r| == |nodes| + 1
    ensures r[|nodes|] == Node(payload, h, nodes[h].next)
    ensures r[h].next == |nodes| && r[h].prev == if nodes[h].next == h then |nodes| else nodes[h].prev
    ensures nodes[h].next != NIL ==> r[nodes[h].next].prev == |nodes|
    ensures Closed(nodes) ==> Closed(r)
  {
    var added := |nodes|;
    var n := nodes[h].next;
    var grown := nodes + [Node(payload, h, n)];
    var linked := grown[h := grown[h].(next := added)];
    if n != NIL then linked[n := linked[n].(prev := added)] else linked
  }

  /**
   * `ListNode.insert_before`: a fresh cell, at handle `|nodes|`, with `h`'s old prev
   * before it and `h` after it; both neighbours are pointed at the fresh cell.
   */
  function SplicedBefore<P>(nodes: seq<Node<P>>, h: int, payload: P): (r: seq<Node<P>>)
    requires 0 <= h < |nodes| && IsLink(nodes, nodes[h].prev)
    ensures |r| == |nodes| + 1
    ensures r[|nodes|] == Node(payload, nodes[h].prev, h)
    ensures r[h].prev == |nodes| && r[h].next == if nodes[h].prev == h then |nodes| else nodes[h].next
    ensures nodes[h].prev != NIL ==> r[nodes[h].prev].next == |nodes|
    ensures Closed(nodes) ==> Closed(r)
  {
    var added := |nodes|;
    var p := nodes[h].prev;
    var grown := nodes + [Node(payload, p, h)];
    var linked := grown[h := grown[h].(prev := added)];
    if p != NIL then linked[p := linked[p].(next := added)] else linked
  }

  /** The two writes of `add_to_head` on a non-empty list: `h.next = head; head.prev = h`. */
  function LinkedFront<P>(nodes: seq<Node<P>>, h: int, head: int): (r: seq<Node<P>>)
    requires 0 <= h < |nodes| && 0 <= head < |nodes| && h != head
    ensures |r| == |nodes| && r[h].next == head && r[head].prev == h
    ensures r[h].prev == nodes[h].prev && r[head].next == nodes[head].next
    ensures Closed(nodes) ==> Closed(r)
  {
    var pointed := nodes[h := nodes[h].(next := head)];
    pointed[head := pointed[head].(prev := h)]
  }

  /** The two writes of `add_to_tail` on a non-empty list: `h.prev = tail; tail.next = h`. */
  function LinkedBack<P>(nodes: seq<Node<P>>, h: int, tail: int): (r: seq<Node<P>>)
    requires 0 <= h < |nodes| && 0 <= tail < |nodes| && h != tail
    ensures |r| == |nodes| && r[h].prev == tail && r[tail].next == h
    ensures r[h].next == nodes[h].next && r[tail].prev == nodes[tail].prev
    ensures Closed(nodes) ==> Closed(r)
  {
    var pointed := nodes[h := nodes[h].(prev := tail)];
    pointed[tail := pointed[tail].(next := h)]
  }

  /** Which links and payloads `ListNode.delete` leaves as they were. */
  lemma UnlinkedFrame<P>(nodes: seq<Node<P>>, h: int)
    requires 0 <= h < |nodes| && IsLink(nodes, nodes[h].prev) && IsLink(nodes, nodes[h].next)
    ensures var r := Unlinked(nodes, h);
            (forall k :: 0 <= k < |r| && k != nodes[h].prev ==> r[k].next == nodes[k].next) &&
            (forall k :: 0 <= k < |r| && k != nodes[h].next ==> r[k].prev == nodes[k].prev) &&
            (forall k :: 0 <= k < |r| ==> r[k].payload == nodes[k].payload)
  {
  }

  /** Which links and payloads `ListNode.insert_after` leaves as they were. */
  lemma SplicedAfterFrame<P>(nodes: seq<Node<P>>, h: int, payload: P)
    requires 0 <= h < |nodes| && IsLink(nodes, nodes[h].next)
    ensures var r := SplicedAfter(nodes, h, payload);
            (forall k :: 0 <= k < |nodes| && k != h ==> r[k].next == nodes[k].next) &&
            (forall k :: 0 <= k < |nodes| && k != nodes[h].next ==> r[k].prev == nodes[k].prev) &&
            (forall k :: 0 <= k < |nodes| ==> r[k].payload == nodes[k].payload)
  {
  }

  /** Which links and payloads `ListNode.insert_before` leaves as they were. */
  lemma SplicedBeforeFrame<P>(nodes: seq<Node<P>>, h: int, payload: P)
    requires 0 <= h < |nodes| && IsLink(nodes, nodes[h].prev)
    ensures var r := SplicedBefore(nodes, h, payload);
            (forall k :: 0 <= k < |nodes| && k != h ==> r[k].prev == nodes[k].prev) &&
            (forall k :: 0 <= k < |nodes| && k != nodes[h].prev ==> r[k].next == nodes[k].next) &&
            (forall k :: 0 <= k < |nodes| ==> r[k].payload == nodes[k].payload)
  {
  }

  /** The cells `add_to_head` does not write keep their links and payloads. */
  lemma LinkedFrontFrame<P>(nodes: seq<Node<P>>, h: int, head: int)
    requires 0 <= h < |nodes| && 0 <= head < |nodes| && h != head
    ensures var r := LinkedFront(nodes, h, head);
            (forall k :: 0 <= k < |nodes| && k != h && k != head ==> r[k] == nodes[k]) &&
            (forall k :: 0 <= k < |nodes| ==> r[k].payload == nodes[k].payload)
  {
  }

  /** The cells `add_to_tail` does not write keep their links and payloads. */
  lemma LinkedBackFrame<P>(nodes: seq<Node<P>>, h: int, tail: int)
    requires 0 <= h < |nodes| && 0 <= tail < |nodes| && h != tail
    ensures var r := LinkedBack(nodes, h, tail);
            (forall k :: 0 <= k < |nodes| && k != h && k != tail ==> r[k] == nodes[k]) &&
            (forall k :: 0 <= k < |nodes| ==> r[k].payload == nodes[k].payload)
  {
  }

  // ---------------------------------------------------------------------------
  // What the surgery does to a well linked list
  // ---------------------------------------------------------------------------

  lemma UnlinkKeepsLinks<P>(nodes: seq<Node<P>>, order: seq<int>, head: int, tail: int, i: int)
    requires Closed(nodes) && Chain(nodes, order, head, tail)
    requires 2 <= |order| && 0 <= i < |order|
    requires i == 0 ==> nodes[head].prev !in order
    ensures Linked(Unlinked(nodes, order[i]), RemoveAt(order, i))
  {
    UnlinkedFrame(nodes, order[i]);
    var h := order[i];
    var r := Unlinked(nodes, h);
    var rest := RemoveAt(order, i);
    var p, n := nodes[h].prev, nodes[h].next;
    assert i > 0 ==> p == order[i - 1];
    assert i < |order| - 1 ==> n == order[i + 1];
    forall j {:trigger r[rest[j]]} | 0 <= j < |rest| - 1 ensures r[rest[j]].next == rest[j + 1] {
      if j < i - 1 {
        assert rest[j] == order[j] && rest[j + 1] == order[j + 1] && order[j] != p;
      } else if j >= i {
        assert rest[j] == order[j + 1] && rest[j + 1] == order[j + 2] && order[j + 1] != p;
      }
    }
    forall j {:trigger r[rest[j]]} | 0 < j < |rest| ensures r[rest[j]].prev == rest[j - 1] {
      if j < i {
        assert rest[j] == order[j] && rest[j - 1] == order[j - 1] && order[j] != n;
      } else if j > i {
        assert rest[j] == order[j + 1] && rest[j - 1] == order[j] && order[j + 1] != n;
      }
    }
  }

  /**
   * Unlinking the cell at position `i` of a list of two or more leaves a well linked
   * list of the other cells in the same order, from its first to its last; the head
   * moves on when `i` is the head (provided the head's stale `prev` is not a linked
   * cell), and the new head has the old head's `prev`.
   */
  lemma UnlinkKeepsChain<P>(nodes: seq<Node<P>>, order: seq<int>, head: int, tail: int, i: int)
    requires Closed(nodes) && Chain(nodes, order, head, tail)
    requires 2 <= |order| && 0 <= i < |order|
    requires i == 0 ==> nodes[head].prev !in order
    ensures var r, rest := Unlinked(nodes, order[i]), RemoveAt(order, i);
            Chain(r, rest, rest[0], rest[|rest| - 1]) && r[rest[0]].prev == nodes[head].prev
    ensures Values(Unlinked(nodes, order[i]), RemoveAt(order, i)) == RemoveAt(Values(nodes, order), i)
    ensures order[i] !in RemoveAt(order, i)
  {
    UnlinkedFrame(nodes, order[i]);
    var h := order[i];
    var r := Unlinked(nodes, h);
    var rest := RemoveAt(order, i);
    assert Handles(r, rest) && h !in rest by {
      DistinctRemoveAt(order, i);
    }
    assert Linked(r, rest) by {
      UnlinkKeepsLinks(nodes, order, head, tail, i);
    }
    if i == |order| - 1 {
      assert nodes[h].prev == order[i - 1] && nodes[h].next == NIL;
      assert rest[|rest| - 1] == order[i - 1];
    } else {
      assert i > 0 ==> nodes[h].prev == order[i - 1];
      assert tail != nodes[h].prev && rest[|rest| - 1] == tail;
    }
    if i == 0 {
      assert rest[0] == order[1] == nodes[h].next;
    } else {
      assert rest[0] == head && nodes[h].next != head;
    }
    assert Values(r, rest) == RemoveAt(Values(nodes, order), i) by {
      ValuesRemoveAt(nodes, order, i);
      ValuesSamePayloads(nodes, r, rest);
    }
  }

  /**
   * `remove_from_head` on a list of two or more: unlinking the head leaves the rest
   * well linked, headed by the old second cell, which inherits the old head's `prev`.
   */
  lemma UnlinkHeadKeepsChain<P>(nodes: seq<Node<P>>, order: seq<int>, head: int, tail: int)
    requires Closed(nodes) && Chain(nodes, order, head, tail) && 2 <= |order|
    requires nodes[head].prev !in order
    ensures var r := Unlinked(nodes, head);
            Closed(r) && Chain(r, order[1..], order[1], tail) &&
            Values(r, order[1..]) == Values(nodes, order)[1..] &&
            r[order[1]].prev == nodes[head].prev
  {
    var r := Unlinked(nodes, head);
    assert Chain(r, RemoveAt(order, 0), order[1], tail) &&
           Values(r, RemoveAt(order, 0)) == RemoveAt(Values(nodes, order), 0) by {
      UnlinkKeepsChain(nodes, order, head, tail, 0);
    }
    RemoveAtEnds(order);
    RemoveAtEnds(Values(nodes, order));
  }

  /**
   * `remove_from_tail` on a list of two or more: unlinking the tail leaves the rest
   * well linked, ending at the old last but one cell; the head's `prev` is untouched.
   */
  lemma UnlinkTailKeepsChain<P>(nodes: seq<Node<P>>, order: seq<int>, head: int, tail: int)
    requires Closed(nodes) && Chain(nodes, order, head, tail) && 2 <= |order|
    ensures var r := Unlinked(nodes, tail);
            var n := |order| - 1;
            Closed(r) && Chain(r, order[..n], head, order[n - 1]) &&
            Values(r, order[..n]) == Values(nodes, order)[..n] &&
            r[head].prev == nodes[head].prev
  {
    var r := Unlinked(nodes, tail);
    var n := |order| - 1;
    assert Chain(r, RemoveAt(order, n), head, order[n - 1]) &&
           Values(r, RemoveAt(order, n)) == RemoveAt(Values(nodes, order), n) by {
      UnlinkKeepsChain(nodes, order, head, tail, n);
    }
    assert r[head].prev == nodes[head].prev by {
      UnlinkedFrame(nodes, tail);
      assert nodes[tail].next == NIL;
    }
    RemoveAtEnds(order);
    RemoveAtEnds(Values(nodes, order));
  }

  /** `add_to_head` on a non-empty list puts an unlinked cell in front of the old head. */
  lemma LinkFrontLinks<P>(nodes: seq<Node<P>>, order: seq<int>, head: int, tail: int, h: int)
    requires Closed(nodes) && Chain(nodes, order, head, tail) && order != []
    requires 0 <= h < |nodes| && h !in order
    ensures InArena(LinkedFront(nodes, h, head), [h] + order)
    ensures Linked(LinkedFront(nodes, h, head), [h] + order)
  {
    LinkedFrontFrame(nodes, h, head);
    var r := LinkedFront(nodes, h, head);
    var o := [h] + order;
    forall j {:trigger r[o[j]]} | 0 <= j < |o| - 1 ensures r[o[j]].next == o[j + 1] {
      if j > 0 {
        assert o[j] == order[j - 1] && o[j + 1] == order[j];
      }
    }
    forall j {:trigger r[o[j]]} | 0 < j < |o| ensures r[o[j]].prev == o[j - 1] {
      if j > 1 {
        assert o[j] == order[j - 1] && o[j - 1] == order[j - 2] && order[j - 1] != head;
      }
    }
  }

  lemma LinkFrontValues<P>(nodes: seq<Node<P>>, order: seq<int>, h: int, end: int)
    requires InArena(nodes, order) && 0 <= h < |nodes| && 0 <= end < |nodes| && h != end
    ensures Values(LinkedFront(nodes, h, end), [h] + order) == [nodes[h].payload] + Values(nodes, order)
  {
    LinkedFrontFrame(nodes, h, end);
    InsertAtEnds(order, h);
    ValuesInsertAt(LinkedFront(nodes, h, end), order, 0, h);
    ValuesSamePayloads(nodes, LinkedFront(nodes, h, end), order);
  }

  lemma LinkFrontKeepsChain<P>(nodes: seq<Node<P>>, order: seq<int>, head: int, tail: int, h: int)
    requires Closed(nodes) && Chain(nodes, order, head, tail) && order != []
    requires 0 <= h < |nodes| && h !in order
    ensures Chain(LinkedFront(nodes, h, head), [h] + order, h, tail)
    ensures Values(LinkedFront(nodes, h, head), [h] + order) == [nodes[h].payload] + Values(nodes, order)
  {
    assert Handles(LinkedFront(nodes, h, head), [h] + order) by {
      InsertAtEnds(order, h);
      DistinctInsertAt(order, 0, h);
    }
    LinkFrontLinks(nodes, order, head, tail, h);
    LinkFrontValues(nodes, order, h, head);
    assert tail != h;
  }

  /** `add_to_tail` on a non-empty list puts an unlinked cell with no `next` after the old tail. */
  lemma LinkBackLinks<P>(nodes: seq<Node<P>>, order: seq<int>, head: int, tail: int, h: int)
    requires Closed(nodes) && Chain(nodes, order, head, tail) && order != []
    requires 0 <= h < |nodes| && h !in order
    ensures InArena(LinkedBack(nodes, h, tail), order + [h])
    ensures Linked(LinkedBack(nodes, h, tail), order + [h])
  {
    LinkedBackFrame(nodes, h, tail);
    var r := LinkedBack(nodes, h, tail);
    var o := order + [h];
    forall j {:trigger r[o[j]]} | 0 <= j < |o| - 1 ensures r[o[j]].next == o[j + 1] {
      if j < |order| - 1 {
        assert o[j] == order[j] && o[j + 1] == order[j + 1] && order[j] != tail;
      }
    }
    forall j {:trigger r[o[j]]} | 0 < j < |o| ensures r[o[j]].prev == o[j - 1] {
      if j < |order| {
        assert o[j] == order[j] && o[j - 1] == order[j - 1];
      }
    }
  }

  lemma LinkBackValues<P>(nodes: seq<Node<P>>, order: seq<int>, h: int, end: int)
    requires InArena(nodes, order) && 0 <= h < |nodes| && 0 <= end < |nodes| && h != end
    ensures Values(LinkedBack(nodes, h, end), order + [h]) == Values(nodes, order) + [nodes[h].payload]
  {
    LinkedBackFrame(nodes, h, end);
    InsertAtEnds(order, h);
    ValuesInsertAt(LinkedBack(nodes, h, end), order, |order|, h);
    ValuesSamePayloads(nodes, LinkedBack(nodes, h, end), order);
  }

  lemma LinkBackKeepsChain<P>(nodes: seq<Node<P>>, order: seq<int>, head: int, tail: int, h: int)
    requires Closed(nodes) && Chain(nodes, order, head, tail) && order != []
    requires 0 <= h < |nodes| && h !in order && nodes[h].next == NIL
    ensures Chain(LinkedBack(nodes, h, tail), order + [h], head, h)
    ensures Values(LinkedBack(nodes, h, tail), order + [h]) == Values(nodes, order) + [nodes[h].payload]
  {
    assert Handles(LinkedBack(nodes, h, tail), order + [h]) by {
      InsertAtEnds(order, h);
      DistinctInsertAt(order, |order|, h);
    }
    LinkBackLinks(nodes, order, head, tail, h);
    LinkBackValues(nodes, order, h, tail);
    assert head != h;
  }

  lemma SpliceAfterKeepsLinks<P>(nodes: seq<Node<P>>, order: seq<int>, head: int, tail: int, i: int, payload: P)
    requires Closed(nodes) && Chain(nodes, order, head, tail)
    requires 0 <= i < |order|
    ensures Linked(SplicedAfter(nodes, order[i], payload), InsertAt(order, i + 1, |nodes|))
  {
    SplicedAfterFrame(nodes, order[i], payload);
    var h, m := order[i], |nodes|;
    var r := SplicedAfter(nodes, h, payload);
    var o := InsertAt(order, i + 1, m);
    var n := nodes[h].next;
    assert i < |order| - 1 ==> n == order[i + 1];
    forall j {:trigger r[o[j]]} | 0 <= j < |o| - 1 ensures r[o[j]].next == o[j + 1] {
      if j < i {
        assert o[j] == order[j] && o[j + 1] == order[j + 1] && order[j] != h;
      } else if j > i + 1 {
        assert o[j] == order[j - 1] && o[j + 1] == order[j] && order[j - 1] != h;
      }
    }
    forall j {:trigger r[o[j]]} | 0 < j < |o| ensures r[o[j]].prev == o[j - 1] {
      if j <= i {
        assert o[j] == order[j] && o[j - 1] == order[j - 1] && order[j] != n;
      } else if j > i + 2 {
        assert o[j] == order[j - 1] && o[j - 1] == order[j - 2] && order[j - 1] != n;
      }
    }
  }

  /**
   * `insert_after` on the cell at position `i` yields a well linked list with the
   * fresh cell right after it; the fresh cell is the new tail when `i` was the tail.
   */
  lemma SpliceAfterKeepsChain<P>(nodes: seq<Node<P>>, order: seq<int>, head: int, tail: int, i: int, payload: P)
    requires Closed(nodes) && Chain(nodes, order, head, tail)
    requires 0 <= i < |order|
    ensures Chain(SplicedAfter(nodes, order[i], payload), InsertAt(order, i + 1, |nodes|),
                  head, if i == |order| - 1 then |nodes| else tail)
    ensures Values(SplicedAfter(nodes, order[i], payload), InsertAt(order, i + 1, |nodes|))
            == InsertAt(Values(nodes, order), i + 1, payload)
  {
    SpliceAfterKeepsEnds(nodes, order, head, tail, i, payload);
    SpliceAfterKeepsLinks(nodes, order, head, tail, i, payload);
    SpliceAfterValues(nodes, order, i, payload);
  }

  lemma SpliceAfterKeepsEnds<P>(nodes: seq<Node<P>>, order: seq<int>, head: int, tail: int, i: int, payload: P)
    requires Closed(nodes) && Chain(nodes, order, head, tail)
    requires 0 <= i < |order|
    ensures var r := SplicedAfter(nodes, order[i], payload);
            var o := InsertAt(order, i + 1, |nodes|);
            var newTail := if i == |order| - 1 then |nodes| else tail;
            Handles(r, o) && o[0] == head && o[|o| - 1] == newTail && r[newTail].next == NIL
  {
    var h, m := order[i], |nodes|;
    var r := SplicedAfter(nodes, h, payload);
    var o := InsertAt(order, i + 1, m);
    DistinctInsertAt(order, i + 1, m);
    ChainEnds(nodes, order, head, tail, i);
    if i != |order| - 1 {
      assert o[|o| - 1] == tail && r[tail].next == NIL by {
        SplicedAfterFrame(nodes, h, payload);
      }
    }
  }

  /** `insert_after` on the cell at position `i` puts its payload right after position `i`. */
  lemma SpliceAfterValues<P>(nodes: seq<Node<P>>, order: seq<int>, i: int, payload: P)
    requires Closed(nodes) && InArena(nodes, order) && 0 <= i < |order|
    ensures Values(SplicedAfter(nodes, order[i], payload), InsertAt(order, i + 1, |nodes|))
            == InsertAt(Values(nodes, order), i + 1, payload)
  {
    var r := SplicedAfter(nodes, order[i], payload);
    SplicedAfterFrame(nodes, order[i], payload);
    ValuesInsertAt(r, order, i + 1, |nodes|);
    ValuesSamePayloads(nodes, r, order);
  }

  lemma SpliceBeforeKeepsLinks<P>(nodes: seq<Node<P>>, order: seq<int>, head: int, tail: int, i: int, payload: P)
    requires Closed(nodes) && Chain(nodes, order, head, tail)
    requires 0 <= i < |order|
    requires i == 0 ==> nodes[head].prev !in order
    ensures Linked(SplicedBefore(nodes, order[i], payload), InsertAt(order, i, |nodes|))
  {
    SplicedBeforeFrame(nodes, order[i], payload);
    var h, m := order[i], |nodes|;
    var r := SplicedBefore(nodes, h, payload);
    var o := InsertAt(order, i, m);
    var p := nodes[h].prev;
    assert i > 0 ==> p == order[i - 1];
    forall j {:trigger r[o[j]]} | 0 <= j < |o| - 1 ensures r[o[j]].next == o[j + 1] {
      if j < i - 1 {
        assert o[j] == order[j] && o[j + 1] == order[j + 1] && order[j] != p;
      } else if j > i {
        assert o[j] == order[j - 1] && o[j + 1] == order[j] && order[j - 1] != p;
      }
    }
    forall j {:trigger r[o[j]]} | 0 < j < |o| ensures r[o[j]].prev == o[j - 1] {
      if j < i {
        assert o[j] == order[j] && o[j - 1] == order[j - 1] && order[j] != h;
      } else if j > i + 1 {
        assert o[j] == order[j - 1] && o[j - 1] == order[j - 2] && order[j - 1] != h;
      }
    }
  }

  /**
   * `insert_before` on the cell at position `i` yields a well linked list with the
   * fresh cell right before it; the fresh cell is the new head when `i` was the head
   * (provided the head's `prev` is not a linked cell).
   */
  lemma SpliceBeforeKeepsChain<P>(nodes: seq<Node<P>>, order: seq<int>, head: int, tail: int, i: int, payload: P)
    requires Closed(nodes) && Chain(nodes, order, head, tail)
    requires 0 <= i < |order|
    requires i == 0 ==> nodes[head].prev !in order
    ensures Chain(SplicedBefore(nodes, order[i], payload), InsertAt(order, i, |nodes|),
                  if i == 0 then |nodes| else head, tail)
    ensures Values(SplicedBefore(nodes, order[i], payload), InsertAt(order, i, |nodes|))
            == InsertAt(Values(nodes, order), i, payload)
  {
    SplicedBeforeFrame(nodes, order[i], payload);
    var h, m := order[i], |nodes|;
    var r := SplicedBefore(nodes, h, payload);
    var o := InsertAt(order, i, m);
    SpliceBeforeKeepsEnds(nodes, order, head, tail, i, payload);
    assert Linked(r, o) by {
      SpliceBeforeKeepsLinks(nodes, order, head, tail, i, payload);
    }
    assert Values(r, o) == InsertAt(Values(nodes, order), i, payload) by {
      ValuesInsertAt(r, order, i, m);
      ValuesSamePayloads(nodes, r, order);
    }
  }

  lemma SpliceBeforeKeepsEnds<P>(nodes: seq<Node<P>>, order: seq<int>, head: int, tail: int, i: int, payload: P)
    requires Closed(nodes) && Chain(nodes, order, head, tail)
    requires 0 <= i < |order|
    requires i == 0 ==> nodes[head].prev !in order
    ensures var r := SplicedBefore(nodes, order[i], payload);
            var o := InsertAt(order, i, |nodes|);
            Handles(r, o) && o[0] == (if i == 0 then |nodes| else head) &&
            o[|o| - 1] == tail && r[tail].next == NIL
  {
    SplicedBeforeFrame(nodes, order[i], payload);
    var h, m := order[i], |nodes|;
    DistinctInsertAt(order, i, m);
    if i > 0 {
      assert nodes[h].prev == order[i - 1] && tail == order[|order| - 1];
      assert IndexOf(order, order[i - 1]) == i - 1;
    }
  }

  /** `insert_after` on the tail: the fresh cell becomes the new tail. */
  lemma SpliceAfterTailKeepsChain<P>(nodes: seq<Node<P>>, order: seq<int>, head: int, tail: int, payload: P)
    requires Closed(nodes) && Chain(nodes, order, head, tail) && order != []
    ensures Chain(SplicedAfter(nodes, tail, payload), order + [|nodes|], head, |nodes|)
    ensures Values(SplicedAfter(nodes, tail, payload), order + [|nodes|]) == Values(nodes, order) + [payload]
  {
    SplicedAfterFrame(nodes, tail, payload);
    var m := |nodes|;
    var r := SplicedAfter(nodes, tail, payload);
    var o := order + [m];
    assert Handles(r, o) by {
      InsertAtEnds(order, m);
      DistinctInsertAt(order, |order|, m);
    }
    assert Linked(r, o) by {
      forall j {:trigger r[o[j]]} | 0 <= j < |o| - 1 ensures r[o[j]].next == o[j + 1] {
        if j < |order| - 1 {
          assert o[j] == order[j] && o[j + 1] == order[j + 1] && order[j] != tail;
        }
      }
      forall j {:trigger r[o[j]]} | 0 < j < |o| ensures r[o[j]].prev == o[j - 1] {
        if j < |order| {
          assert o[j] == order[j] && o[j - 1] == order[j - 1];
        }
      }
    }
    assert Values(r, o) == Values(nodes, order) + [payload] by {
      InsertAtEnds(order, m);
      ValuesInsertAt(r, order, |order|, m);
      ValuesSamePayloads(nodes, r, order);
    }
  }

  /** `insert_before` on a head whose `prev` is not linked: the fresh cell becomes the new head. */
  lemma SpliceBeforeHeadKeepsChain<P>(nodes: seq<Node<P>>, order: seq<int>, head: int, tail: int, payload: P)
    requires Closed(nodes) && Chain(nodes, order, head, tail) && order != []
    requires nodes[head].prev !in order
    ensures Chain(SplicedBefore(nodes, head, payload), [|nodes|] + order, |nodes|, tail)
    ensures Values(SplicedBefore(nodes, head, payload), [|nodes|] + order) == [payload] + Values(nodes, order)
  {
    SplicedBeforeFrame(nodes, head, payload);
    var m := |nodes|;
    var r := SplicedBefore(nodes, head, payload);
    var o := [m] + order;
    assert Handles(r, o) by {
      InsertAtEnds(order, m);
      DistinctInsertAt(order, 0, m);
    }
    assert Linked(r, o) by {
      forall j {:trigger r[o[j]]} | 0 <= j < |o| - 1 ensures r[o[j]].next == o[j + 1] {
        if j > 0 {
          assert o[j] == order[j - 1] && o[j + 1] == order[j] && order[j - 1] != nodes[head].prev;
        }
      }
      forall j {:trigger r[o[j]]} | 0 < j < |o| ensures r[o[j]].prev == o[j - 1] {
        if j > 1 {
          assert o[j] == order[j - 1] && o[j - 1] == order[j - 2] && order[j - 1] != head;
        }
      }
    }
    assert tail != nodes[head].prev;
    assert Values(r, o) == [payload] + Values(nodes, order) by {
      InsertAtEnds(order, m);
      ValuesInsertAt(r, order, 0, m);
      ValuesSamePayloads(nodes, r, order);
    }
  }

  /** The cell at position `i` is the head only at 0 and the tail only at the end, next to its neighbour. */
  lemma ChainEnds<P>(nodes: seq<Node<P>>, order: seq<int>, head: int, tail: int, i: int)
    requires Chain(nodes, order, head, tail) && 0 <= i < |order|
    ensures order[i] == head <==> i == 0
    ensures order[i] == tail <==> i == |order| - 1
    ensures 0 < |order| - 1 ==> nodes[head].next == order[1] && nodes[tail].prev == order[|order| - 2]
  {
    assert IndexOf(order, order[0]) == 0;
    assert IndexOf(order, order[|order| - 1]) == |order| - 1;
  }

  /**
   * What `move_to_front` does to a list whose head has no `prev`: after unlinking the
   * cell at position `i > 0` and splicing a fresh cell with its payload in before the
   * head, the fresh cell heads a well linked list of the others, and has no `prev`.
   */
  lemma MoveFrontKeepsChain<P>(nodes: seq<Node<P>>, order: seq<int>, head: int, tail: int, i: int)
    requires Closed(nodes) && Chain(nodes, order, head, tail) && 0 < i < |order|
    requires nodes[head].prev == NIL
    ensures var r := SplicedBefore(Unlinked(nodes, order[i]), head, nodes[order[i]].payload);
            r[|nodes|].prev == NIL &&
            Chain(r, [|nodes|] + RemoveAt(order, i), |nodes|,
                  if i == |order| - 1 then order[|order| - 2] else tail) &&
            Values(r, [|nodes|] + RemoveAt(order, i)) ==
              [nodes[order[i]].payload] + RemoveAt(Values(nodes, order), i)
    ensures order[i] !in RemoveAt(order, i)
    ensures order[i] == tail <==> i == |order| - 1
    ensures i == |order| - 1 ==> nodes[tail].prev == order[|order| - 2]
  {
    ChainEnds(nodes, order, head, tail, i);
    var h := order[i];
    var unlinked := Unlinked(nodes, h);
    var rest := RemoveAt(order, i);
    var newTail := if i == |order| - 1 then order[|order| - 2] else tail;
    assert Chain(unlinked, rest, head, newTail) && unlinked[head].prev == NIL && h !in rest &&
           Values(unlinked, rest) == RemoveAt(Values(nodes, order), i) by {
      UnlinkKeepsChain(nodes, order, head, tail, i);
      UnlinkedFrame(nodes, h);
      assert i < |order| - 1 ==> nodes[h].next == order[i + 1];
      assert nodes[h].next != head;
    }
    SpliceBeforeHeadKeepsChain(unlinked, rest, head, newTail, nodes[h].payload);
  }

  /**
   * What `move_to_end` does to a list whose head has no `prev`: after unlinking the
   * cell at position `i < |order| - 1` and splicing a fresh cell with its payload in
   * after the tail, the fresh cell ends a well linked list of the others, whose head
   * still has no `prev`.
   */
  lemma MoveEndKeepsChain<P>(nodes: seq<Node<P>>, order: seq<int>, head: int, tail: int, i: int)
    requires Closed(nodes) && Chain(nodes, order, head, tail) && 0 <= i < |order| - 1
    requires nodes[head].prev == NIL
    ensures var r := SplicedAfter(Unlinked(nodes, order[i]), tail, nodes[order[i]].payload);
            var rest := RemoveAt(order, i);
            r[rest[0]].prev == NIL &&
            Chain(r, rest + [|nodes|], rest[0], |nodes|) &&
            Values(r, rest + [|nodes|]) == RemoveAt(Values(nodes, order), i) + [nodes[order[i]].payload]
    ensures order[i] !in RemoveAt(order, i)
    ensures order[i] == head <==> i == 0
    ensures i == 0 ==> nodes[head].next == order[1]
  {
    ChainEnds(nodes, order, head, tail, i);
    var h := order[i];
    var unlinked := Unlinked(nodes, h);
    var rest := RemoveAt(order, i);
    var newHead := rest[0];
    assert Chain(unlinked, rest, newHead, tail) &&
           unlinked[newHead].prev == NIL && unlinked[tail].next == NIL && h !in rest &&
           Values(unlinked, rest) == RemoveAt(Values(nodes, order), i) by {
      UnlinkKeepsChain(nodes, order, head, tail, i);
      UnlinkedFrame(nodes, h);
      assert nodes[h].next == order[i + 1];
      assert i > 0 ==> nodes[h].next != head;
      assert i == 0 ==> nodes[h].prev == NIL;
    }
    SpliceAfterTailKeepsChain(unlinked, rest, newHead, tail, nodes[h].payload);
  }

  /**
   * `node.value = x` on the cell at position `j`: no link changes, so the list stays
   * well linked, and only the value at position `j` changes.
   */
  lemma SetPayloadKeepsChain<P>(nodes: seq<Node<P>>, order: seq<int>, head: int, tail: int, j: int, x: P)
    requires Closed(nodes) && Chain(nodes, order, head, tail) && 0 <= j < |order|
    ensures var r := nodes[order[j] := nodes[order[j]].(payload := x)];
            Closed(r) && Chain(r, order, head, tail) && Values(r, order) == Values(nodes, order)[j := x]
  {
    SetPayloadKeepsLinks(nodes, order, j, x);
    SetPayloadValues(nodes, order, j, x);
  }

  lemma SetPayloadKeepsLinks<P>(nodes: seq<Node<P>>, order: seq<int>, j: int, x: P)
    requires Closed(nodes) && InArena(nodes, order) && Linked(nodes, order) && 0 <= j < |order|
    ensures var r := nodes[order[j] := nodes[order[j]].(payload := x)];
            Closed(r) && InArena(r, order) && Linked(r, order)
  {
    var r := nodes[order[j] := nodes[order[j]].(payload := x)];
    forall i {:trigger r[order[i]]} | 0 <= i < |order| ensures r[order[i]].prev == nodes[order[i]].prev && r[order[i]].next == nodes[order[i]].next {
    }
  }

  lemma SetPayloadValues<P>(nodes: seq<Node<P>>, order: seq<int>, j: int, x: P)
    requires Handles(nodes, order) && 0 <= j < |order|
    ensures Values(nodes[order[j] := nodes[order[j]].(payload := x)], order) == Values(nodes, order)[j := x]
  {
    var r := nodes[order[j] := nodes[order[j]].(payload := x)];
    forall i | 0 <= i < |order| ensures Values(r, order)[i] == Values(nodes, order)[j := x][i] {
      if i != j {
        assert IndexOf(order, order[i]) == i && IndexOf(order, order[j]) == j;
      }
    }
  }
}
