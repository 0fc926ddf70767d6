/**
 * The `LRUCache` of names/lru_cache.py: a `storage` dictionary from each key to its node,
 * and a doubly linked list of the nodes, most recently used at the head.
 *
 * `Get` and `Set` are proved to act on the cache's abstract value (`Abstract`) exactly as
 * `LruSpec.Get` and `LruSpec.Set` do; the properties of those are proved in `LruSpec`.
 * The steps they are split into state their effect on the list and on `storage`.
 */
module LruCache {
  import opened Wrappers
  import opened Arena
  import opened LruSpec
  import LruList

  /** `storage` maps exactly the keys of the list, each to the handle of its node. */
  ghost predicate Indexes(storage: map<int, int>, entries: seq<Entry>, order: seq<int>) {
    |entries| == |order| &&
    (forall k :: k in storage <==> k in Keys(entries)) &&
    (forall j {:trigger entries[j]} :: 0 <= j < |entries| ==> entries[j].key in storage && storage[entries[j].key] == order[j])
  }

  lemma IndexesToFront(storage: map<int, int>, entries: seq<Entry>, order: seq<int>, j: int, e: Entry)
    requires Indexes(storage, entries, order) && DistinctKeys(entries)
    requires 0 <= j < |entries| && e.key == entries[j].key
    ensures Indexes(storage, [e] + RemoveAt(entries, j), [order[j]] + RemoveAt(order, j))
  {
    var entries', order' := [e] + RemoveAt(entries, j), [order[j]] + RemoveAt(order, j);
    assert forall k :: k in storage <==> k in Keys(entries') by {
      DistinctToFront(entries, j, e);
      forall k ensures k in Keys(entries') <==> k in Keys(entries) {
        MemberRemoveAt(Keys(entries), j, k);
      }
    }
    assert forall a {:trigger entries'[a]} :: 0 <= a < |entries'| ==>
        entries'[a].key in storage && storage[entries'[a].key] == order'[a] by {
      var rest, restOrder := RemoveAt(entries, j), RemoveAt(order, j);
      forall a | 0 <= a < |entries'| ensures entries'[a].key in storage && storage[entries'[a].key] == order'[a] {
        if a == 0 {
          assert entries'[a].key == entries[j].key && order'[a] == order[j];
        } else {
          assert entries'[a] == rest[a - 1] && order'[a] == restOrder[a - 1];
          if a - 1 < j {
            assert rest[a - 1] == entries[a - 1] && restOrder[a - 1] == order[a - 1];
          } else {
            assert rest[a - 1] == entries[a] && restOrder[a - 1] == order[a];
          }
        }
      }
    }
  }

  lemma IndexesAdd(storage: map<int, int>, entries: seq<Entry>, order: seq<int>, e: Entry, h: int)
    requires Indexes(storage, entries, order) && e.key !in storage
    ensures Indexes(storage[e.key := h], [e] + entries, [h] + order)
  {
    var entries' := [e] + entries;
    KeysCons(e, entries);
    forall a | 1 <= a < |entries'| ensures entries'[a].key != e.key {
      assert entries'[a] == entries[a - 1];
    }
  }

  lemma IndexesEvict(storage: map<int, int>, entries: seq<Entry>, order: seq<int>)
    requires Indexes(storage, entries, order) && DistinctKeys(entries) && entries != []
    ensures var n := |entries| - 1;
            Indexes(storage - {entries[n].key}, entries[..n], order[..n])
  {
    var n := |entries| - 1;
    var gone := entries[n].key;
    KeysRemoveAt(entries, n);
    RemoveAtEnds(entries);
    DistinctRemoveAt(Keys(entries), n);
    forall k ensures k in Keys(entries[..n]) <==> k != gone && k in Keys(entries) {
      MemberRemoveAt(Keys(entries), n, k);
    }
    forall a | 0 <= a < n ensures entries[..n][a].key != gone {
      assert entries[..n][a] == entries[a];
    }
  }

  /** The values behind `set` on a key already cached at position `j`. */
  lemma OverwriteFacts(c: Cache, storage: map<int, int>, order: seq<int>, key: int, value: int, j: int)
    requires Inv(c) && Indexes(storage, c.entries, order) && Find(c.entries, key) == Some(j)
    ensures var e := LruList.Entry(key, value);
            var c' := LruSpec.Set(c, key, value);
            Inv(c') && c'.size == c.size && c'.limit == c.limit &&
            c'.entries == [e] + RemoveAt(c.entries, j) == [c.entries[j := e][j]] + RemoveAt(c.entries[j := e], j) &&
            Indexes(storage, c'.entries, [order[j]] + RemoveAt(order, j)) &&
            (j == 0 ==> c'.entries == c.entries[j := e] && order == [order[j]] + RemoveAt(order, j))
  {
    var e := LruList.Entry(key, value);
    var c' := LruSpec.Set(c, key, value);
    assert Inv(c') && c'.size == c.size && c'.limit == c.limit && c'.entries == [e] + RemoveAt(c.entries, j) by {
      SetPreservesInv(c, key, value);
    }
    assert RemoveAt(c.entries[j := e], j) == RemoveAt(c.entries, j);
    assert Indexes(storage, c'.entries, [order[j]] + RemoveAt(order, j)) by {
      IndexesToFront(storage, c.entries, order, j, e);
    }
    if j == 0 {
      RemoveAtEnds(order);
      RemoveAtEnds(c.entries);
      RemoveAtEnds(c.entries[j := e]);
    }
  }

  /** The values behind `set` on a key not cached: the entries kept and the new state. */
  lemma AdmitFacts(c: Cache, key: int, value: int)
    requires Inv(c) && key !in Keys(c.entries)
    ensures var n := if c.size == c.limit then |c.entries| - 1 else |c.entries|;
            0 <= n <= |c.entries| && Inv(LruSpec.Set(c, key, value)) &&
            LruSpec.Set(c, key, value) == Cache([LruList.Entry(key, value)] + c.entries[..n], c.size + 1, c.limit)
  {
    SetPreservesInv(c, key, value);
    assert c.entries[..|c.entries|] == c.entries;
  }

  class LRUCache {
    var storage: map<int, int>
    var list: LruList.DoublyLinkedList
    var limit: int
    var currentSize: int

    ghost predicate Valid()
      reads this, list
    {
      list.Valid() && Inv(Abstract()) && Indexes(storage, list.Contents(), list.order)
    }

    /** The entries from the most to the least recently used, `current_size` and `limit`. */
    ghost function Abstract(): (c: Cache)
      reads this, list
      requires list.Valid()
    {
      Cache(list.Contents(), currentSize, limit)
    }

    /** `LRUCache(limit)`: an empty cache. */
    constructor (limit: int)
      requires limit > 0
      ensures Valid() && Abstract() == Empty(limit) && storage == map[] && fresh(list)
    {
      storage := map[];
      list := new LruList.DoublyLinkedList();
      this.limit := limit;
      currentSize := 0;
    }

    /** The position of `key`'s entry, for a key in `storage`. */
    ghost function Position(key: int): (j: int)
      reads this, list
      requires Valid() && key in storage
      ensures 0 <= j < |list.order| && list.order[j] == storage[key]
      ensures Find(list.Contents(), key) == Some(j)
    {
      var j :| 0 <= j < |list.order| && Keys(list.Contents())[j] == key;
      FindUnique(list.Contents(), j);
      j
    }

    /** `len(storage)` is the list's `length`. */
    lemma StorageMatchesList()
      requires Valid()
      ensures |storage| == list.length
    {
      var entries := list.Contents();
      forall k ensures k in storage.Keys <==> k in KeySet(entries) {
      }
      assert storage.Keys == KeySet(entries);
      CardinalityOfKeys(entries);
    }

    /**
     * `get(key)`: acts on the cache as `LruSpec.Get`, answering None, the value (for
     * the most recent entry) or the key (for any other entry).
     */
    method Get(key: int) returns (r: Option<int>)
      requires Valid()
      modifies list
      ensures Valid()
      ensures (Abstract(), r) == LruSpec.Get(old(Abstract()), key)
    {
      if key !in storage {
        return None;
      }
      var node := storage[key];
      ghost var j := Position(key);
      ghost var entries, order := list.Contents(), list.order;
      if list.head == node {
        assert j == 0 by {
          assert IndexOf(order, order[j]) == j && IndexOf(order, order[0]) == 0;
        }
        return Some(list.nodes[node].payload.value);
      }
      GetPreservesInv(old(Abstract()), key);
      IndexesToFront(storage, entries, order, j, entries[j]);
      Promote(node, j);
      return Some(key);
    }

    /**
     * `set(key, value)`: acts on the cache as `LruSpec.Set`: the key's entry, holding
     * `value`, becomes the most recent; a new key first evicts the least recent entry
     * when `current_size == limit`.
     */
    method Set(key: int, value: int)
      requires Valid()
      modifies this, list
      ensures Valid() && list == old(list)
      ensures Abstract() == LruSpec.Set(old(Abstract()), key, value)
      ensures old(key in storage) ==> storage == old(storage)
    {
      if key in storage {
        Overwrite(key, value);
      } else {
        AdmitFacts(old(Abstract()), key, value);
        ghost var n := if currentSize == limit then |list.order| - 1 else |list.order|;
        ghost var gone := if currentSize == limit then {list.Contents()[n].key} else {};
        var newNode := PushNew(key, value, list.Contents()[..n], list.order[..n], gone);
        storage := storage[key := newNode];
        currentSize := currentSize + 1;
      }
    }

    /**
     * `node.value = value` on the key's node and, unless it is already the head,
     * `list.delete(node)` and `list.add_to_head(node)`: the entry, with its new value,
     * becomes the most recent.
     */
    method Overwrite(key: int, value: int)
      requires Valid() && key in storage
      modifies list
      ensures Valid()
      ensures Abstract() == LruSpec.Set(old(Abstract()), key, value)
    {
      ghost var order := list.order;
      var node := storage[key];
      ghost var j := Position(key);
      OverwriteFacts(old(Abstract()), storage, order, key, value, j);
      assert IndexOf(order, node) == j;
      list.SetValue(node, value);
      if list.head != node {
        var deletedNode := node;
        Promote(deletedNode, j);
      } else {
        assert j == 0 by {
          assert IndexOf(order, order[0]) == 0;
        }
      }
    }

    /**
     * `list.delete(node)` and `list.add_to_head(node)` for a node behind the head: its
     * entry moves to the front and the others keep their order.
     */
    method Promote(node: int, ghost j: int)
      requires list.Valid() && 0 < j < |list.order| && list.order[j] == node
      modifies list
      ensures list.Valid()
      ensures list.order == [node] + RemoveAt(old(list.order), j)
      ensures list.Contents() == [old(list.Contents())[j]] + RemoveAt(old(list.Contents()), j)
    {
      ghost var order := list.order;
      assert IndexOf(order, node) == j;
      assert list.head != node by {
        assert IndexOf(order, order[0]) == 0;
      }
      DistinctRemoveAt(order, j);
      list.Delete(node);
      list.AddToHead(node);
    }

    /**
     * `new_node = ListNode(key, value)`, the eviction when `current_size == limit`, and
     * `list.add_to_head(new_node)`: the new entry heads the entries `kept` (all of them,
     * or all but the least recent, whose key `gone` leaves `storage`), and `storage` with
     * the new key indexes the list.
     */
    method PushNew(key: int, value: int, ghost kept: seq<Entry>, ghost keptOrder: seq<int>, ghost gone: set<int>)
        returns (newNode: int)
      requires list.Valid() && DistinctKeys(list.Contents()) && Indexes(storage, list.Contents(), list.order)
      requires key !in storage
      requires var n := if currentSize == limit then |list.order| - 1 else |list.order|;
               0 <= n && kept == list.Contents()[..n] && keptOrder == list.order[..n] &&
               gone == if currentSize == limit then {list.Contents()[n].key} else {}
      modifies this`storage, list
      ensures list.Valid()
      ensures list.Contents() == [LruList.Entry(key, value)] + kept && list.order == [newNode] + keptOrder
      ensures storage == old(storage) - gone
      ensures Indexes(storage[key := newNode], list.Contents(), list.order)
    {
      ghost var entries, order := list.Contents(), list.order;
      if currentSize == limit {
        IndexesEvict(storage, entries, order);
      } else {
        assert kept == entries && keptOrder == order && storage - gone == storage;
      }
      IndexesAdd(storage - gone, kept, keptOrder, LruList.Entry(key, value), |list.nodes|);
      newNode := list.NewNode(key, value);
      if currentSize == limit {
        assert list.Contents() == entries;
        Evict(newNode);
        assert storage == old(storage) - gone;
      }
      assert newNode !in keptOrder;
      list.AddToHead(newNode);
    }

    /**
     * `del storage[list.tail.key]` and `list.delete(list.tail)`: the least recently used
     * entry leaves both the dictionary and the list; no node outside the list changes.
     */
    method Evict(ghost keep: int)
      requires list.Valid() && list.order != []
      requires 0 <= keep < |list.nodes| && keep !in list.order
      modifies this`storage, list
      ensures list.Valid() && |list.nodes| == |old(list.nodes)|
      ensures var n := |old(list.order)| - 1;
              list.order == old(list.order)[..n] && list.Contents() == old(list.Contents())[..n] &&
              storage == old(storage) - {old(list.Contents())[n].key}
      ensures list.nodes[keep] == old(list.nodes)[keep]
    {
      ghost var entries, order := list.Contents(), list.order;
      ghost var n := |order| - 1;
      assert list.nodes[list.tail].payload.key == entries[n].key;
      storage := storage - {list.nodes[list.tail].payload.key};
      if n > 0 {
        assert list.nodes[list.tail].prev == order[n - 1];
        UnlinkedFrame(list.nodes, list.tail);
      }
      RemoveAtEnds(order);
      RemoveAtEnds(entries);
      assert IndexOf(order, list.tail) == n;
      list.Delete(list.tail);
    }
  }

  /**
   * The input of `LruSpec.GetReturnsKey` run through the class: a cache of limit 2 given
   * keys 2 then 1 answers `get(2)` with the key 2, while the value stored under 2 is 20.
   */
  method GetReturnsKeyScenario() returns (answer: Option<int>, c: LRUCache)
    ensures c.Valid() && answer == Some(2)
  {
    GetReturnsKey();
    c := new LRUCache(2);
    c.Set(2, 20);
    c.Set(1, 10);
    answer := c.Get(2);
  }
}
