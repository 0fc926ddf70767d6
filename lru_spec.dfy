/**
 * What the `LRUCache` of names/lru_cache.py holds, as a value: its entries from the most
 * to the least recently used (the order of its list from head to tail), its
 * `current_size` and its `limit`.
 *
 * `Get` and `Set` follow the code as written, with its two defects: `get` of an entry
 * that is not the most recent answers with the KEY, and `current_size` is never
 * lowered after an eviction, so the cache evicts once and then grows without bound.
 * `GetIntended` and `SetIntended` are the evidently intended operations.
 */
module LruSpec {
  import opened Wrappers
  import opened Arena
  import LruList

  type Entry = LruList.Entry

  datatype Cache = Cache(entries: seq<Entry>, size: int, limit: int)

  /** The keys of `entries`, in the same order. */
  function Keys(entries: seq<Entry>): (r: seq<int>)
    ensures |r| == |entries|
    ensures forall j :: 0 <= j < |entries| ==> r[j] == entries[j].key
  {
    seq(|entries|, j requires 0 <= j < |entries| => entries[j].key)
  }

  /** No key occurs in two entries. */
  ghost predicate DistinctKeys(entries: seq<Entry>) {
    Distinct(Keys(entries))
  }

  /** How many entries a cache with this `current_size` holds: one less once it has evicted. */
  function Stored(size: int, limit: int): (n: int) {
    if size > limit then size - 1 else size
  }

  /** What every reachable cache satisfies. */
  ghost predicate Inv(c: Cache) {
    c.limit > 0 && c.size >= 0 && DistinctKeys(c.entries) && |c.entries| == Stored(c.size, c.limit)
  }

  /** `LRUCache(limit)`. */
  function Empty(limit: int): (c: Cache)
    requires limit > 0
    ensures Inv(c) && c.entries == [] && c.limit == limit
  {
    Cache([], 0, limit)
  }

  /** The position of the entry with this key (`key in self.storage`), the first one if several. */
  function Find(entries: seq<Entry>, key: int): (r: Option<nat>)
    ensures r.None? <==> key !in Keys(entries)
    ensures r.Some? ==> r.value < |entries| && entries[r.value].key == key
    ensures r.Some? ==> forall j :: 0 <= j < r.value ==> entries[j].key != key
  {
    if entries == [] then None
    else if entries[0].key == key then Some(0)
    else match Find(entries[1..], key)
      case None =>
        assert forall j :: 0 < j < |entries| ==> Keys(entries)[j] == Keys(entries[1..])[j - 1];
        None
      case Some(i) => Some(i + 1)
  }

  /** The value stored under `key`, if any. */
  function Lookup(entries: seq<Entry>, key: int): (r: Option<int>) {
    match Find(entries, key)
    case None => None
    case Some(i) => Some(entries[i].value)
  }

  /** `entries` without the entries carrying `key`, the others in their order. */
  function Without(entries: seq<Entry>, key: int): (r: seq<Entry>) {
    if entries == [] then []
    else (if entries[0].key == key then [] else [entries[0]]) + Without(entries[1..], key)
  }

  /** Whether `set(key, _)` evicts the least recently used entry. */
  predicate Evicts(c: Cache, key: int) {
    key !in Keys(c.entries) && c.size == c.limit
  }

  /**
   * `get(key)` as written: None for a missing key; the value for the most recent entry;
   * otherwise the entry moves to the front and the KEY is returned.
   */
  function Get(c: Cache, key: int): (r: (Cache, Option<int>)) {
    match Find(c.entries, key)
    case None => (c, None)
    case Some(i) =>
      if i == 0 then (c, Some(c.entries[0].value))
      else (c.(entries := [c.entries[i]] + RemoveAt(c.entries, i)), Some(key))
  }

  /**
   * `set(key, value)` as written: an existing entry takes the value and moves to the
   * front; a new entry goes to the front after the least recent one is dropped when
   * `current_size == limit`, and `current_size` rises by one.
   */
  function Set(c: Cache, key: int, value: int): (c': Cache)
    requires Inv(c)
  {
    match Find(c.entries, key)
    case Some(i) => c.(entries := [LruList.Entry(key, value)] + RemoveAt(c.entries, i))
    case None =>
      var kept := if c.size == c.limit then c.entries[..|c.entries| - 1] else c.entries;
      Cache([LruList.Entry(key, value)] + kept, c.size + 1, c.limit)
  }

  // ---------------------------------------------------------------------------
  // Facts about entries with distinct keys

  lemma SameKeySamePosition(entries: seq<Entry>, a: int, b: int)
    requires DistinctKeys(entries) && 0 <= a < |entries| && 0 <= b < |entries|
    requires entries[a].key == entries[b].key
    ensures a == b
  {
    assert Keys(entries)[a] == Keys(entries)[b];
    assert IndexOf(Keys(entries), Keys(entries)[a]) == a;
  }

  lemma KeysCons(e: Entry, entries: seq<Entry>)
    ensures Keys([e] + entries) == [e.key] + Keys(entries)
  {
  }

  lemma KeysRemoveAt(entries: seq<Entry>, i: int)
    requires 0 <= i < |entries|
    ensures Keys(RemoveAt(entries, i)) == RemoveAt(Keys(entries), i)
  {
  }

  /** A new key in front of entries with distinct keys keeps them distinct. */
  lemma DistinctKeysCons(e: Entry, entries: seq<Entry>)
    requires DistinctKeys(entries) && e.key !in Keys(entries)
    ensures DistinctKeys([e] + entries)
  {
    KeysCons(e, entries);
    DistinctInsertAt(Keys(entries), 0, e.key);
    InsertAtEnds(Keys(entries), e.key);
  }

  /** Dropping an entry keeps the keys distinct, and its key is gone. */
  lemma DistinctKeysRemoveAt(entries: seq<Entry>, i: int)
    requires DistinctKeys(entries) && 0 <= i < |entries|
    ensures DistinctKeys(RemoveAt(entries, i)) && entries[i].key !in Keys(RemoveAt(entries, i))
  {
    KeysRemoveAt(entries, i);
    DistinctRemoveAt(Keys(entries), i);
  }

  lemma FindUnique(entries: seq<Entry>, i: int)
    requires DistinctKeys(entries) && 0 <= i < |entries|
    ensures Find(entries, entries[i].key) == Some(i)
  {
    assert Keys(entries)[i] == entries[i].key;
    SameKeySamePosition(entries, Find(entries, entries[i].key).value, i);
  }

  lemma LookupAt(entries: seq<Entry>, i: int)
    requires DistinctKeys(entries) && 0 <= i < |entries|
    ensures Lookup(entries, entries[i].key) == Some(entries[i].value)
  {
    FindUnique(entries, i);
  }

  lemma {:induction false} WithoutAbsent(entries: seq<Entry>, key: int)
    requires key !in Keys(entries)
    ensures Without(entries, key) == entries
  {
    if entries != [] {
      assert Keys(entries)[0] == entries[0].key;
      assert key !in Keys(entries[1..]) by {
        forall j | 0 <= j < |entries| - 1 ensures Keys(entries[1..])[j] != key {
          assert Keys(entries[1..])[j] == Keys(entries)[j + 1];
        }
      }
      WithoutAbsent(entries[1..], key);
      assert entries == [entries[0]] + entries[1..];
    }
  }

  /** With distinct keys, leaving out a key leaves out exactly the entry carrying it. */
  lemma {:induction false} WithoutRemoveAt(entries: seq<Entry>, i: int)
    requires DistinctKeys(entries) && 0 <= i < |entries|
    ensures Without(entries, entries[i].key) == RemoveAt(entries, i)
  {
    var key := entries[i].key;
    DistinctKeysRemoveAt(entries, 0);
    RemoveAtEnds(entries);
    if i == 0 {
      WithoutAbsent(entries[1..], key);
    } else {
      assert entries[1..][i - 1] == entries[i];
      WithoutRemoveAt(entries[1..], i - 1);
      assert RemoveAt(entries, i) == [entries[0]] + RemoveAt(entries[1..], i - 1);
    }
  }

  /** The keys of `entries`, as a set. */
  ghost function KeySet(entries: seq<Entry>): (r: set<int>)
    ensures forall k :: k in r <==> k in Keys(entries)
  {
    if entries == [] then {}
    else
      assert entries == [entries[0]] + entries[1..];
      KeysCons(entries[0], entries[1..]);
      {entries[0].key} + KeySet(entries[1..])
  }

  /** Entries with distinct keys carry as many keys as there are entries. */
  lemma {:induction false} CardinalityOfKeys(entries: seq<Entry>)
    requires DistinctKeys(entries)
    ensures |KeySet(entries)| == |entries|
  {
    if entries != [] {
      DistinctKeysRemoveAt(entries, 0);
      RemoveAtEnds(entries);
      CardinalityOfKeys(entries[1..]);
    }
  }

  lemma DistinctToFront(entries: seq<Entry>, i: int, e: Entry)
    requires DistinctKeys(entries) && 0 <= i < |entries| && e.key == entries[i].key
    ensures DistinctKeys([e] + RemoveAt(entries, i))
    ensures Keys([e] + RemoveAt(entries, i)) == [e.key] + RemoveAt(Keys(entries), i)
  {
    DistinctKeysRemoveAt(entries, i);
    DistinctKeysCons(e, RemoveAt(entries, i));
    KeysCons(e, RemoveAt(entries, i));
    KeysRemoveAt(entries, i);
  }

  /** A lookup passes over a first entry with another key. */
  lemma LookupPastHead(e: Entry, entries: seq<Entry>, key: int)
    requires key != e.key
    ensures Lookup([e] + entries, key) == Lookup(entries, key)
  {
    assert ([e] + entries)[1..] == entries;
  }

  /** Removing the entry at `i` hides its key and no other. */
  lemma LookupRemoveAt(entries: seq<Entry>, i: int, key: int)
    requires DistinctKeys(entries) && 0 <= i < |entries|
    ensures Lookup(RemoveAt(entries, i), key) == if key == entries[i].key then None else Lookup(entries, key)
  {
    var rest := RemoveAt(entries, i);
    DistinctKeysRemoveAt(entries, i);
    KeysRemoveAt(entries, i);
    if key != entries[i].key {
      MemberRemoveAt(Keys(entries), i, key);
      if key in Keys(rest) {
        var j :| 0 <= j < |rest| && Keys(rest)[j] == key;
        var j' := if j < i then j else j + 1;
        assert rest[j] == entries[j'];
        LookupAt(rest, j);
        LookupAt(entries, j');
      }
    }
  }

  lemma LookupToFront(entries: seq<Entry>, i: int, e: Entry, key: int)
    requires DistinctKeys(entries) && 0 <= i < |entries| && e.key == entries[i].key
    requires key != e.key
    ensures Lookup([e] + RemoveAt(entries, i), key) == Lookup(entries, key)
  {
    LookupPastHead(e, RemoveAt(entries, i), key);
    LookupRemoveAt(entries, i, key);
  }

  // ---------------------------------------------------------------------------
  // get

  lemma GetPreservesInv(c: Cache, key: int)
    requires Inv(c)
    ensures Inv(Get(c, key).0)
  {
    if Find(c.entries, key).Some? {
      var i := Find(c.entries, key).value;
      DistinctToFront(c.entries, i, c.entries[i]);
    }
  }

  /** `get` of a missing key answers None and changes nothing. */
  lemma GetMissing(c: Cache, key: int)
    requires key !in Keys(c.entries)
    ensures Get(c, key) == (c, None)
  {
  }

  /**
   * `get` of a present key makes its entry the most recent, keeps the others in their
   * order, and keeps every stored value; it answers with the value when the entry was
   * already the most recent and with the key otherwise.
   */
  lemma GetPresent(c: Cache, key: int)
    requires Inv(c) && key in Keys(c.entries)
    ensures var (c', r) := Get(c, key);
            c'.size == c.size && c'.limit == c.limit &&
            c'.entries[0] == LruList.Entry(key, Lookup(c.entries, key).value) &&
            Without(c'.entries, key) == Without(c.entries, key) &&
            (forall k :: Lookup(c'.entries, k) == Lookup(c.entries, k)) &&
            r == if c.entries[0].key == key then Lookup(c.entries, key) else Some(key)
  {
    var i := Find(c.entries, key).value;
    var c' := Get(c, key).0;
    LookupAt(c.entries, i);
    WithoutRemoveAt(c.entries, i);
    if i > 0 {
      DistinctToFront(c.entries, i, c.entries[i]);
      WithoutRemoveAt(c'.entries, 0);
      RemoveAtEnds(c'.entries);
      forall k ensures Lookup(c'.entries, k) == Lookup(c.entries, k) {
        if k == key {
          LookupAt(c'.entries, 0);
        } else {
          LookupToFront(c.entries, i, c.entries[i], k);
        }
      }
    } else {
      assert Keys(c.entries)[0] == key;
    }
  }

  // ---------------------------------------------------------------------------
  // set

  lemma SetPreservesInv(c: Cache, key: int, value: int)
    requires Inv(c)
    ensures Inv(Set(c, key, value))
  {
    var e := LruList.Entry(key, value);
    match Find(c.entries, key)
    case Some(i) =>
      DistinctToFront(c.entries, i, e);
    case None =>
      NewKeyKeepsDistinct(c.entries, e, c.size == c.limit);
  }

  /** A new key in front of all the entries, or of all but the last, keeps keys distinct. */
  lemma NewKeyKeepsDistinct(entries: seq<Entry>, e: Entry, dropLast: bool)
    requires DistinctKeys(entries) && e.key !in Keys(entries) && (dropLast ==> entries != [])
    ensures DistinctKeys([e] + if dropLast then entries[..|entries| - 1] else entries)
  {
    if dropLast {
      var n := |entries| - 1;
      DistinctKeysRemoveAt(entries, n);
      RemoveAtEnds(entries);
      assert e.key !in Keys(entries[..n]) by {
        KeysRemoveAt(entries, n);
      }
      DistinctKeysCons(e, entries[..n]);
    } else {
      DistinctKeysCons(e, entries);
    }
  }

  /** After `set(key, value)` its entry is the most recent and holds `value`. */
  lemma SetFront(c: Cache, key: int, value: int)
    requires Inv(c)
    ensures var c' := Set(c, key, value);
            c'.entries[0] == LruList.Entry(key, value) && Lookup(c'.entries, key) == Some(value)
  {
    SetPreservesInv(c, key, value);
    LookupAt(Set(c, key, value).entries, 0);
  }

  /**
   * `set` of an existing key keeps `current_size` and the other entries in their
   * order; `set` of a new key raises `current_size` by one and drops the least recent
   * entry exactly when `current_size == limit`.
   */
  lemma SetOthers(c: Cache, key: int, value: int)
    requires Inv(c)
    ensures var c' := Set(c, key, value);
            c'.limit == c.limit &&
            c'.size == (if key in Keys(c.entries) then c.size else c.size + 1) &&
            Without(c'.entries, key) ==
              (if key in Keys(c.entries) then Without(c.entries, key)
               else if Evicts(c, key) then c.entries[..|c.entries| - 1]
               else c.entries)
  {
    var c' := Set(c, key, value);
    SetPreservesInv(c, key, value);
    WithoutRemoveAt(c'.entries, 0);
    RemoveAtEnds(c'.entries);
    match Find(c.entries, key)
    case Some(i) =>
      WithoutRemoveAt(c.entries, i);
    case None =>
      assert c'.entries[1..] == if Evicts(c, key) then c.entries[..|c.entries| - 1] else c.entries;
  }

  /**
   * `set` changes the value stored under no other key, except that the evicted entry's
   * key is no longer found.
   */
  lemma SetLookupOthers(c: Cache, key: int, value: int, other: int)
    requires Inv(c) && other != key
    ensures Lookup(Set(c, key, value).entries, other) ==
            if Evicts(c, key) && other == c.entries[|c.entries| - 1].key then None
            else Lookup(c.entries, other)
  {
    var e := LruList.Entry(key, value);
    match Find(c.entries, key)
    case Some(i) =>
      LookupToFront(c.entries, i, e, other);
    case None =>
      if c.size == c.limit {
        LookupPastHead(e, c.entries[..|c.entries| - 1], other);
        RemoveAtEnds(c.entries);
        LookupRemoveAt(c.entries, |c.entries| - 1, other);
      } else {
        LookupPastHead(e, c.entries, other);
      }
  }

  /**
   * `current_size` never drops, and once it has passed `limit` no `set` evicts again,
   * so the cache holds one entry more for every new key from then on.
   */
  lemma NoEvictionAfterOverflow(c: Cache, key: int, value: int)
    requires Inv(c) && c.size > c.limit
    ensures !Evicts(c, key)
    ensures Set(c, key, value).size > c.limit
    ensures |Set(c, key, value).entries| == (if key in Keys(c.entries) then |c.entries| else |c.entries| + 1)
  {
    SetOthers(c, key, value);
  }

  // ---------------------------------------------------------------------------
  // The two defects, on concrete inputs

  /** A cache of limit 2 filled with keys 2 then 1: `get(2)` answers 2, not the stored 20. */
  lemma GetReturnsKey()
    ensures var c := Set(Set(Empty(2), 2, 20), 1, 10);
            Lookup(c.entries, 2) == Some(20) && Get(c, 2).1 == Some(2)
  {
    var c1 := Set(Empty(2), 2, 20);
    SetPreservesInv(Empty(2), 2, 20);
    assert c1.entries == [LruList.Entry(2, 20)];
    var c := Set(c1, 1, 10);
    assert Keys(c1.entries)[0] == 2;
    assert c.entries == [LruList.Entry(1, 10), LruList.Entry(2, 20)];
    assert Find(c.entries, 2) == Some(1);
  }

  /** A cache of limit 1 given keys 1, 2, 3 ends up holding two entries. */
  lemma StorageOutgrowsLimit()
    ensures var c := Set(Set(Set(Empty(1), 1, 1), 2, 2), 3, 3);
            c.limit == 1 && |c.entries| == 2
  {
    var c1 := Set(Empty(1), 1, 1);
    SetPreservesInv(Empty(1), 1, 1);
    assert c1.entries == [LruList.Entry(1, 1)] && c1.size == 1;
    var c2 := Set(c1, 2, 2);
    assert Keys(c1.entries)[0] == 1;
    SetPreservesInv(c1, 2, 2);
    assert c2.entries == [LruList.Entry(2, 2)] && c2.size == 2;
    assert Keys(c2.entries)[0] == 2;
    assert Set(c2, 3, 3).entries == [LruList.Entry(3, 3), LruList.Entry(2, 2)];
  }

  // ---------------------------------------------------------------------------
  // The evidently intended operations

  /** `get` answering with the entry's value whichever entry it touches. */
  function GetIntended(c: Cache, key: int): (r: (Cache, Option<int>)) {
    match Find(c.entries, key)
    case None => (c, None)
    case Some(i) =>
      if i == 0 then (c, Some(c.entries[0].value))
      else (c.(entries := [c.entries[i]] + RemoveAt(c.entries, i)), Some(c.entries[i].value))
  }

  /** The intended `get` moves entries as `get` does and answers with the stored value. */
  lemma GetIntendedReturnsValue(c: Cache, key: int)
    requires Inv(c)
    ensures GetIntended(c, key).0 == Get(c, key).0
    ensures GetIntended(c, key).1 == Lookup(c.entries, key)
  {
  }

  /** The intended invariant: `current_size` counts the entries and never passes `limit`. */
  ghost predicate InvIntended(c: Cache) {
    c.limit > 0 && DistinctKeys(c.entries) && c.size == |c.entries| <= c.limit
  }

  /** `set` lowering `current_size` when it evicts, so the count stays exact. */
  function SetIntended(c: Cache, key: int, value: int): (c': Cache)
    requires InvIntended(c)
  {
    match Find(c.entries, key)
    case Some(i) => c.(entries := [LruList.Entry(key, value)] + RemoveAt(c.entries, i))
    case None =>
      var kept := if c.size == c.limit then c.entries[..|c.entries| - 1] else c.entries;
      Cache([LruList.Entry(key, value)] + kept, |kept| + 1, c.limit)
  }

  /** The intended `set` keeps the cache within its limit and stores the value. */
  lemma SetIntendedWithinLimit(c: Cache, key: int, value: int)
    requires InvIntended(c)
    ensures var c' := SetIntended(c, key, value);
            InvIntended(c') && |c'.entries| <= c.limit && Lookup(c'.entries, key) == Some(value)
  {
    var c' := SetIntended(c, key, value);
    var e := LruList.Entry(key, value);
    match Find(c.entries, key)
    case Some(i) =>
      DistinctToFront(c.entries, i, e);
    case None =>
      NewKeyKeepsDistinct(c.entries, e, c.size == c.limit);
    LookupAt(c'.entries, 0);
  }

  /** Until the first eviction, the code as written and the intended `set` agree. */
  lemma SetAgreesBeforeEviction(c: Cache, key: int, value: int)
    requires InvIntended(c) && c.size < c.limit
    ensures Inv(c) && SetIntended(c, key, value) == Set(c, key, value)
  {
  }
}
