# Doubly linked lists, an LRU cache and a ring buffer

This project models two small containers in Dafny. Both are built on hand-written doubly linked lists:

- **`LRUCache`** (names/lru_cache.py). A dictionary `storage` maps each key to its node. A
  `DoublyLinkedList` of `(key, value)` nodes keeps the most recently used entry at the head.
- **`RingBuffer`** (ring_buffer/ring_buffer.py). It holds a fixed number of values in a
  `DoublyLinkedList` of value nodes (ring_buffer/doubly_linked_list.py). Once full, it overwrites
  the value of its `oldest_node` in place and moves that pointer on, wrapping from the tail to the head.

Layout:

- `arena.dfy` (`Arena`): the node cells shared by both lists.
  - A Python `ListNode` becomes a cell `Node(payload, prev, next)` in a sequence `nodes`.
  - Nodes are addressed by index; `NIL` stands for `None`.
  - The node operations `delete`, `insert_after` and `insert_before` are functions on that
    sequence: `Unlinked`, `SplicedAfter` and `SplicedBefore`.
  - The lemmas prove what each kind of pointer surgery does to a well linked list (`Chain`):
    which list results, and which values it holds.
- `lru_list.dfy` (`LruList`): the list of names/lru_cache.py, as a class over the arena. Its nodes
  carry an `Entry(key, value)`, and callers pass in the nodes to link.
- `lru_spec.dfy` (`LruSpec`): the cache as a value, `Cache(entries, size, limit)`.
  - `Get` and `Set` are the operations as the code performs them.
  - Lemmas state their properties.
  - The two source defects are shown on concrete inputs, next to the intended operations.
- `lru_cache.dfy` (`LruCache`): the `LRUCache` class. `Get`, `Set` and `Overwrite` are proved to act
  on `Abstract()` exactly as `LruSpec.Get` or `LruSpec.Set` does; `Promote`, `PushNew` and `Evict`
  state their effect on the list's order and contents and on `storage`.
- `ring_list.dfy` (`RingList`): the list of ring_buffer/doubly_linked_list.py, whose methods build
  their own nodes from values. It includes `move_to_front` and `move_to_end`, which copy the value
  into a fresh node.
- `ring_spec.dfy` (`RingSpec`): the ring buffer as a value, `Ring(slots, oldest, capacity)`.
  `FromOldest` reads the values in the order they were appended.
- `ring_buffer.dfy` (`RingBuffer`): the `RingBuffer` class, proved against `RingSpec`.
- `wrappers.dfy`: `Option`, for Python's `None` results.

Each list class keeps a ghost `order`: the handles from head to tail. `Contents()` is the payloads
in that order. Every list method states its new `order` and `Contents()` in terms of the old ones.

## Model

| member | source | states |
|---|---|---|
| Arena.Unlinked | names/lru_cache.py:20-24 | `ListNode.delete`: the previous node's `next` and the next node's `prev` skip the node, which keeps its own links; links stay inside the arena |
| Arena.SplicedAfter | ring_buffer/doubly_linked_list.py:7-11 | `insert_after`: a fresh node sits between the node and its old next, and both neighbours point at it |
| Arena.SplicedBefore | ring_buffer/doubly_linked_list.py:13-17 | `insert_before`: a fresh node sits between the node's old prev and the node, and both neighbours point at it |
| Arena.LinkedFront | names/lru_cache.py:41-43 | the two link writes of `add_to_head` on a non-empty list: the new node's `next` is the head and the head's `prev` is the new node; nothing else changes |
| Arena.LinkedBack | names/lru_cache.py:68-70 | the two link writes of `add_to_tail`: the new node's `prev` is the tail and the tail's `next` is the new node |
| Arena.UnlinkKeepsChain | names/lru_cache.py:111-128 | deleting the node at position `i` of a list of two or more leaves a well linked list of the other nodes, in order, with that node's value removed (for the head: only when its stale `prev` is not linked) |
| Arena.UnlinkHeadKeepsChain | names/lru_cache.py:54-60 | `remove_from_head`: after unlinking the head, the old second node heads a well linked list of the rest |
| Arena.UnlinkTailKeepsChain | names/lru_cache.py:81-87 | `remove_from_tail`: after unlinking the tail, the old last-but-one node ends a well linked list of the rest |
| Arena.LinkFrontKeepsChain | names/lru_cache.py:35-43 | `add_to_head` of an unlinked node gives a well linked list headed by it, whose values are its payload followed by the old values |
| Arena.LinkBackKeepsChain | names/lru_cache.py:62-70 | `add_to_tail` of an unlinked node with no `next` gives a well linked list ending at it, whose values are the old ones followed by its payload |
| Arena.SpliceAfterKeepsChain | ring_buffer/doubly_linked_list.py:7-11 | `insert_after` on the node at position `i` gives a well linked list with the fresh node at position `i + 1`; it becomes the tail when `i` was the tail |
| Arena.SpliceBeforeKeepsChain | ring_buffer/doubly_linked_list.py:13-17 | `insert_before` on the node at position `i` gives a well linked list with the fresh node at position `i`; it becomes the head when `i` was the head |
| Arena.SpliceAfterTailKeepsChain | ring_buffer/doubly_linked_list.py:108-110 | `insert_after` on the tail makes the fresh node the new tail and appends its value |
| Arena.SpliceBeforeHeadKeepsChain | ring_buffer/doubly_linked_list.py:97-99 | `insert_before` on a head whose `prev` is unlinked makes the fresh node the new head and prepends its value |
| Arena.MoveFrontKeepsChain | ring_buffer/doubly_linked_list.py:90-99 | unlinking the node at position `i > 0` and splicing its value in before the head gives a well linked list headed by the fresh node, which has no `prev`; the old node is no longer linked |
| Arena.MoveEndKeepsChain | ring_buffer/doubly_linked_list.py:101-110 | unlinking the node at position `i` before the tail and splicing its value in after the tail gives a well linked list ending at the fresh node; the head still has no `prev` |
| Arena.SetPayloadKeepsChain | ring_buffer/ring_buffer.py:18 | `node.value = x` on a linked node changes no link, and changes only the value at that node's position |
| LruList.DoublyLinkedList.constructor | names/lru_cache.py:27-30 | `DoublyLinkedList()` is the empty list |
| LruList.DoublyLinkedList.WithNode | names/lru_cache.py:27-30 | `DoublyLinkedList(node)` is a list of that one entry |
| LruList.DoublyLinkedList.NewNode | names/lru_cache.py:2-6 | `ListNode(key, value)` is a fresh unlinked node; the list's contents are unchanged |
| LruList.DoublyLinkedList.NodeDelete | names/lru_cache.py:20-24 | `node.delete()` on the list's cells is `Unlinked`, and keeps the node's payload |
| LruList.DoublyLinkedList.SetValue | names/lru_cache.py:193 | `node.value = value` on a linked node replaces the value at its position and keeps its key; no other cell and no link changes, so a detached head `prev` stays detached |
| LruList.DoublyLinkedList.Len | names/lru_cache.py:32-33 | `__len__` is the number of linked entries, and is 0 exactly when there is no head |
| LruList.DoublyLinkedList.AddToHead | names/lru_cache.py:35-43 | the node becomes the head, its entry comes first, `length` rises by one, and the tail changes only on an empty list |
| LruList.DoublyLinkedList.AddToTail | names/lru_cache.py:62-70 | the node becomes the tail, its entry comes last, `length` rises by one, and the head changes only on an empty list; on a non-empty list the head's `prev` is kept |
| LruList.DoublyLinkedList.RemoveFromHead | names/lru_cache.py:45-60 | None and no change on an empty list; otherwise it returns the first entry's value and drops that entry |
| LruList.DoublyLinkedList.RemoveFromTail | names/lru_cache.py:72-87 | None and no change on an empty list; otherwise it returns the last entry's value and drops that entry; on a list of two or more the head and its `prev` are kept, so a detached head `prev` stays detached |
| LruList.DoublyLinkedList.Delete | names/lru_cache.py:111-128 | no change on an empty list; otherwise it drops exactly the node's entry and keeps the others in order; the cells change as `Unlinked`, except for a single node, where they do not change |
| LruList.DoublyLinkedList.GetMax | names/lru_cache.py:130-144 | None exactly for the empty list; otherwise a value held by some entry that is at least every entry's value |
| LruList.TrimEnds | names/lru_cache.py:45-87 | `remove_from_tail` then `remove_from_head` on a list of two or more returns the last and then the first value and leaves the entries between them; the head can still be removed |
| LruList.Cycle | names/lru_cache.py:45-70 | `add_to_tail(node)` then `remove_from_head` on a non-empty list returns the first value and leaves the other entries followed by the node's entry; the head can still be removed |
| LruList.WriteThenPop | names/lru_cache.py:45-60 | `node.value = value` then `remove_from_head` returns the written value when the node was the head and the old first value otherwise, and leaves the updated entries after the first |
| LruSpec.Empty | names/lru_cache.py:154-160 | a new cache holds no entries and meets the invariant |
| LruSpec.Find | names/lru_cache.py:170 | `key in storage`: the first position holding the key, or None exactly when no entry holds it |
| LruSpec.GetMissing | names/lru_cache.py:169-171 | `get` of a missing key answers None and changes nothing |
| LruSpec.GetPresent | names/lru_cache.py:172-178 | `get` of a cached key makes its entry the most recent, keeps the other entries in order and every stored value; it answers with the value when the entry was already the head, and with the key otherwise |
| LruSpec.GetPreservesInv | names/lru_cache.py:169-178 | `get` keeps the keys distinct and the size bookkeeping |
| LruSpec.SetPreservesInv | names/lru_cache.py:190-206 | `set` keeps the keys distinct and keeps the entry count tied to `current_size` |
| LruSpec.SetFront | names/lru_cache.py:190-206 | after `set(key, value)`, the key's entry is the most recent and holds `value` |
| LruSpec.SetOthers | names/lru_cache.py:190-206 | for an existing key, `set` keeps `current_size` and the other entries in order; for a new key, it raises `current_size` by one and drops the least recent entry exactly when `current_size == limit` |
| LruSpec.SetLookupOthers | names/lru_cache.py:199-205 | `set` changes no other key's stored value; the only other key that disappears is the evicted one |
| LruSpec.NoEvictionAfterOverflow | names/lru_cache.py:201-206 | once `current_size` has passed `limit`, no `set` evicts: each new key adds one entry |
| LruSpec.GetReturnsKey | names/lru_cache.py:178 | with limit 2 and keys 2 then 1, `get(2)` answers 2 while 20 is stored |
| LruSpec.StorageOutgrowsLimit | names/lru_cache.py:201-206 | a cache of limit 1 given keys 1, 2, 3 holds two entries |
| LruSpec.GetIntendedReturnsValue | names/lru_cache.py:169-178 | the intended `get` reorders as `get` does and answers with the stored value |
| LruSpec.SetIntendedWithinLimit | names/lru_cache.py:190-206 | the intended `set` keeps the entry count exact and within `limit`, and stores the value |
| LruSpec.SetAgreesBeforeEviction | names/lru_cache.py:190-206 | until the first eviction, `set` as written and the intended `set` agree |
| LruCache.LRUCache.constructor | names/lru_cache.py:154-160 | `LRUCache(limit)` has empty storage, a fresh list, and is the empty cache |
| LruCache.LRUCache.StorageMatchesList | names/lru_cache.py:157-158 | `storage` holds as many keys as the list has nodes |
| LruCache.LRUCache.Get | names/lru_cache.py:169-178 | `get` acts on the cache's entries and answers exactly as `LruSpec.Get` |
| LruCache.LRUCache.Set | names/lru_cache.py:190-206 | `set` acts on the cache exactly as `LruSpec.Set`, keeps the same list object, leaves `storage` as it was for a cached key (the node is overwritten in place), and `storage` indexes the list |
| LruCache.LRUCache.Overwrite | names/lru_cache.py:191-198 | `set` of a cached key: its node takes the value and, unless it is the head, moves to the front |
| LruCache.LRUCache.Promote | names/lru_cache.py:176-177 | `delete(node)` followed by `add_to_head(node)`, for a node behind the head: its entry moves to the front and the others keep their order |
| LruCache.LRUCache.PushNew | names/lru_cache.py:200-204 | a new node, after the optional eviction, heads the kept entries, and `storage` with the new key indexes the list |
| LruCache.LRUCache.Evict | names/lru_cache.py:202-203 | the least recent entry leaves both `storage` and the list |
| LruCache.GetReturnsKeyScenario | names/lru_cache.py:169-178 | the `get` defect through the class itself: a new cache of limit 2 given `set(2, 20)` and `set(1, 10)` answers `get(2)` with 2 |
| LruCache.OverwriteFacts | names/lru_cache.py:191-198 | for a cached key, the new entries are the updated entry followed by the others in order, and `storage` still indexes them |
| LruCache.AdmitFacts | names/lru_cache.py:199-206 | for a new key, the new cache is the new entry in front of all the entries (or all but the last, at the limit), with `current_size` one higher |
| RingList.DoublyLinkedList.constructor | ring_buffer/doubly_linked_list.py:26-29 | `DoublyLinkedList()` is the empty list |
| RingList.DoublyLinkedList.WithNode | ring_buffer/doubly_linked_list.py:26-29 | `DoublyLinkedList(ListNode(value))` holds that one value |
| RingList.DoublyLinkedList.NewNode | ring_buffer/doubly_linked_list.py:2-5 | `ListNode(value)` is a fresh unlinked node; the list's contents are unchanged |
| RingList.DoublyLinkedList.NodeDelete | ring_buffer/doubly_linked_list.py:19-23 | `node.delete()` on the list's cells is `Unlinked` |
| RingList.DoublyLinkedList.NodeInsertAfter | ring_buffer/doubly_linked_list.py:7-11 | `insert_after` on the list's cells is `SplicedAfter` |
| RingList.DoublyLinkedList.NodeInsertBefore | ring_buffer/doubly_linked_list.py:13-17 | `insert_before` on the list's cells is `SplicedBefore` |
| RingList.DoublyLinkedList.SetValue | ring_buffer/ring_buffer.py:18 | `node.value = value` on a linked node replaces the value at its position; every other cell, and every link, is unchanged |
| RingList.DoublyLinkedList.Len | ring_buffer/doubly_linked_list.py:31-32 | `__len__` is the number of values, and is 0 exactly when there is no head |
| RingList.DoublyLinkedList.AddToHead | ring_buffer/doubly_linked_list.py:34-43 | a fresh node holding the value becomes the head, its value comes first, and `length` rises by one |
| RingList.DoublyLinkedList.AddToTail | ring_buffer/doubly_linked_list.py:62-71 | a fresh node holding the value becomes the tail, its value comes last, `length` rises by one, and no existing node's value changes |
| RingList.DoublyLinkedList.RemoveFromHead | ring_buffer/doubly_linked_list.py:45-60 | None and no change on an empty list; otherwise it returns the first value and drops it |
| RingList.DoublyLinkedList.RemoveFromTail | ring_buffer/doubly_linked_list.py:73-88 | None and no change on an empty list; otherwise it returns the last value and drops it |
| RingList.DoublyLinkedList.MoveToFront | ring_buffer/doubly_linked_list.py:90-99 | no change for the head; otherwise the node's value moves to the front in a fresh node, the node leaves the list, and the other values keep their order |
| RingList.DoublyLinkedList.MoveToEnd | ring_buffer/doubly_linked_list.py:101-110 | no change for the tail; otherwise the node's value moves to the end in a fresh node, the node leaves the list, and the other values keep their order |
| RingList.MovedToEnd | ring_buffer/doubly_linked_list.py:104-110 | the state `move_to_end` builds is a well linked list of the other values followed by the moved value; the head still has no `prev` |
| RingList.DoublyLinkedList.Delete | ring_buffer/doubly_linked_list.py:112-129 | no change on an empty list; otherwise it drops exactly the node's value and keeps the others in order |
| RingList.DoublyLinkedList.Unlink | ring_buffer/doubly_linked_list.py:119-129 | on a list of two or more, deleting the node at position `i` drops exactly the value at `i` |
| RingList.DoublyLinkedList.GetMax | ring_buffer/doubly_linked_list.py:131-145 | None exactly for the empty list; otherwise a value in the list that is at least every value |
| RingSpec.Empty | ring_buffer/ring_buffer.py:4-9 | a new buffer has no slots and meets the invariant |
| RingSpec.Append | ring_buffer/ring_buffer.py:11-22 | `append` keeps the invariant and the capacity, and adds one slot until the buffer is full |
| RingSpec.FromOldest | ring_buffer/ring_buffer.py:17-22 | reading from `oldest_node` round the list gives as many values as there are slots |
| RingSpec.FromOldestSameValues | ring_buffer/ring_buffer.py:17-22 | that reading is a rotation: it holds the same values as the slots |
| RingSpec.FromOldestAt | ring_buffer/ring_buffer.py:19-22 | its `i`th value is the slot `i` places after the oldest, counting on from the head after the tail |
| RingSpec.AppendFromOldest | ring_buffer/ring_buffer.py:11-22 | read from the oldest, `append` is a bounded queue: the item joins at the end, and once the buffer is full the first item drops out |
| RingSpec.Filled | ring_buffer/ring_buffer.py:11-22 | after appending any items, the buffer holds as many slots as items, up to the capacity |
| RingSpec.FilledKeepsLatest | ring_buffer/ring_buffer.py:11-22 | after appending any items, reading from the oldest gives exactly the last `capacity` of them, in append order |
| RingSpec.LatestStep | ring_buffer/ring_buffer.py:11-22 | one more item joins the last `capacity` items, and pushes out the first of them once there are `capacity` |
| RingSpec.WrappedKeepsLatest | ring_buffer/ring_buffer.py:17-22 | after at least `capacity` appends, reading from the oldest gives the last `capacity` items in append order |
| RingSpec.Get | ring_buffer/ring_buffer.py:24-31 | `get` as written: the old return buffer followed by the slots from head to tail |
| RingSpec.GetAfterWrapExample | ring_buffer/ring_buffer.py:24-31 | after appending 1, 2, 3, 4 at capacity 3, `get()` returns [4, 2, 3], while the items kept, in order, are [2, 3, 4] |
| RingSpec.GetTwiceExample | ring_buffer/ring_buffer.py:7 | with 1, 2 appended, a second `get()` returns [1, 2, 1, 2] |
| RingBuffer.RingBuffer.constructor | ring_buffer/ring_buffer.py:4-9 | `RingBuffer(capacity)` is the empty buffer, over a fresh list, with an empty return buffer |
| RingBuffer.RingBuffer.Append | ring_buffer/ring_buffer.py:11-22 | `append` acts on the buffer exactly as `RingSpec.Append`: below capacity it adds a node at the tail; at capacity it overwrites a value in place without changing any link or the size |
| RingBuffer.RingBuffer.Get | ring_buffer/ring_buffer.py:24-31 | `get` extends the stored return buffer as `RingSpec.Get` does, and returns it |
| RingBuffer.RingBuffer.Snapshot | ring_buffer/ring_buffer.py:24-31 | corrected `get`: a fresh sequence of the values from the oldest node round to the newest, that is `RingSpec.FromOldest` |
| RingBuffer.RingBuffer.ValuesFrom | ring_buffer/ring_buffer.py:24-31 | first half of the corrected `get`: the walk along `next` from the node at position `k` (`oldest_node`) collects the values from `k` to the tail |
| RingBuffer.RingBuffer.ValuesBefore | ring_buffer/ring_buffer.py:24-31 | second half of the corrected `get`: the walk from the head up to the node at position `k` (`oldest_node`) collects the values before `k` |
| RingBuffer.WrapScenario | ring_buffer/ring_buffer.py:11-31 | the ring-order defect through the class itself: a new buffer of capacity 3 given 1, 2, 3, 4 returns [4, 2, 3] from `get` and [2, 3, 4] from the corrected reading |

## Left out

- The `print` warning of `LRUCache.__init__` for `limit <= 0` (names/lru_cache.py:155-156) is I/O.
  - `LruCache.LRUCache.constructor` requires `limit > 0`.
  - With `limit == 0` the code keeps going, but the first `set` of a new key finds
    `current_size == limit`, reads `self.list.tail.key` on an empty list (line 202) and
    dereferences `None`.
  - With a negative limit, `current_size` starts at 0 and only rises, so `current_size == limit`
    (line 201) never holds: the cache works, never evicts and grows without bound. The model
    leaves these caches out as well; `LruSpec.Inv` assumes a positive limit.
- `LruCache.LRUCache.constructor` takes the limit as an argument; the default `limit=10` of
  names/lru_cache.py:154 is not modelled, since Dafny has no default arguments. A caller passes 10.
- `RingBuffer.RingBuffer.Append` requires `capacity > 0`.
  - The code accepts any capacity.
  - With a capacity of zero or less, the first `append` writes to `oldest_node`, which is `None`,
    and crashes.
  - The model's constructor, like the code's, accepts any capacity; only `append` needs a positive one.
- `RingBuffer.RingBuffer.Get` follows the code: it adds the values from head to tail (slot order)
  to the end of a list kept from earlier calls, and returns that list. The corrected reading of the
  buffer, in the order the kept items were appended, is `RingBuffer.RingBuffer.Snapshot`. See Findings.
- The Python list that `get` returns is the object's own `return_buffer`. A caller that mutates it
  mutates the buffer. The model returns a value and does not capture that aliasing.
- Node values, keys and `get_max` comparisons are integers.
  - Python compares any ordered values.
  - Dictionary hashing is modelled as a Dafny `map` on integer keys.
  - Truthiness tests such as `if self.prev:` are modelled as comparisons with `NIL`. Nodes are
    objects and are always true.
- Some list methods of names/lru_cache.py are not modelled: `ListNode.insert_after`,
  `ListNode.insert_before`, `move_to_front` and `move_to_end` (lines 8-18 and 89-109).
  - They call `ListNode(value, self, current_next)` against a constructor that takes a key first,
    so they would build broken nodes.
  - Nothing in the cache calls them.
  - The working versions, from ring_buffer/doubly_linked_list.py, are modelled in `RingList`.
- `LruList.DoublyLinkedList.RemoveFromHead` and `LruList.DoublyLinkedList.Delete` (of the head, on
  a list of two nodes or more) require that the head's `prev` is not a linked node.
  - After `get` or `set` re-adds a node at the head, its `prev` still points at its old
    neighbour.
  - On such a head, `node.delete()` would overwrite that neighbour's `next`.
  - The cache never removes its head from a list of two or more, so the model leaves that path out.
- `LruList.DoublyLinkedList.Delete` and `RingList.DoublyLinkedList.Delete` require the node to be
  linked when the list is not empty. The code also accepts a foreign node when head is tail, and
  then empties the list.
- `LruList.DoublyLinkedList.AddToHead` requires the node to be unlinked (`h !in order`) and, on an
  empty list, to have no `next`. The code accepts any node; re-adding a linked node would make a
  cycle, and a stale `next` on the only node would become a link out of the list. The cache only
  adds fresh nodes or nodes it has just deleted from a list of two or more.
- `LruList.DoublyLinkedList.AddToTail` requires the node to be unlinked and to have no `next`. The
  code never resets `next`, so a node with a stale `next` would leave the tail linked onward. No
  caller in the cache uses `add_to_tail`.
- `LruList.Cycle` requires that the head's `prev` is not the node it adds. Once that node is the
  tail, `remove_from_head` would follow the stale link into it and rewrite its `next`.
- `RingList.DoublyLinkedList.MoveToFront` and `RingList.DoublyLinkedList.MoveToEnd` require the
  node to be in the list. The code accepts any node; a foreign node would have its neighbours
  rewired and its value copied into the list. Nothing in the ring buffer calls them.
- Cells are never freed. An unlinked node stays in the arena with the links it had, as the Python
  object does until it is garbage-collected. Object identity is modelled as the cell's index.
- Some members are proof splits of one source method, not source operations:
  - `LruCache.LRUCache.Overwrite`, `Promote`, `PushNew` and `Evict`;
  - `RingList.DoublyLinkedList.Unlink`.
  Each performs the same steps, in the same order, as the lines it cites. The write
  `self.storage[key] = new_node` (names/lru_cache.py:205) and the increment of `current_size`
  (line 206) stay in `LruCache.LRUCache.Set`, after `PushNew` returns.
- `LruList.DoublyLinkedList.WithNode` and `RingList.DoublyLinkedList.WithNode` model
  `DoublyLinkedList(node)` for a fresh node only (built from the payload). The code accepts any
  node and keeps its links, so a node that already has a `next` would make `get_max` walk past the
  tail. Nothing in the cache or the ring buffer passes a node to the list's constructor.
- `RingBuffer.RingBuffer.ValuesFrom` and `RingBuffer.RingBuffer.ValuesBefore` are not steps of the
  code's `get`. They are the two halves of the corrected `get`, `Snapshot`: one walks from
  `oldest_node` to the tail, the other from the head up to `oldest_node`, each into a fresh sequence.
- `current_size` of `LRUCache` is an unbounded integer, like Python's.

## Findings

| source | as written | input that shows it | evidently intended | confidence | as-written member | corrected member |
|---|---|---|---|---|---|---|
| names/lru_cache.py:178 | `get` of a cached key that is not the head returns the key | limit 2; `set(2, 20)`, `set(1, 10)`, `get(2)` returns 2 | return the node's value, as the head branch does | high, not executed | LruSpec.GetReturnsKey | LruSpec.GetIntendedReturnsValue |
| names/lru_cache.py:201-206 | `current_size` rises on every new key and never falls after an eviction, so the cache evicts once and then grows without bound | limit 1; `set(1, 1)`, `set(2, 2)`, `set(3, 3)` leaves two entries | lower the count on eviction, so the cache never holds more than `limit` entries | high, not executed | LruSpec.StorageOutgrowsLimit | LruSpec.SetIntendedWithinLimit |
| ring_buffer/ring_buffer.py:24-31 | `get` reads the list from head to tail, which is slot order, not append order, after a wrap | capacity 3; append 1, 2, 3, 4; `get()` returns [4, 2, 3] | start at `oldest_node` and wrap round: [2, 3, 4]. The class tracks `oldest_node` (lines 15-16, 18-22) but `get` never reads it, and a ring buffer keeps its items in arrival order; still, head-to-tail order may have been meant, so the intended order is ambiguous | medium, not executed | RingSpec.GetAfterWrapExample | RingBuffer.RingBuffer.Snapshot |
| ring_buffer/ring_buffer.py:7 | `return_buffer` is created once and added to on every `get` | capacity 2; append 1, 2; `get()` twice returns [1, 2, 1, 2] | a fresh list of the current values on each call | high, not executed | RingSpec.GetTwiceExample | RingBuffer.RingBuffer.Snapshot |
