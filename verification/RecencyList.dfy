/** The recency list of common/cache/lru.go as a value: what is stored, most recently touched first. */
module RecencyList {
  import opened Bytes

  datatype Entry<K, V> = Entry(key: K, value: V)

  function Dropped<K(==), V>(list: seq<Entry<K, V>>, key: K): seq<Entry<K, V>> {
    if list == [] then []
    else if list[|list| - 1].key == key then Dropped(list[..|list| - 1], key)
    else Dropped(list[..|list| - 1], key) + [list[|list| - 1]]
  }

  function Find<K(==), V>(list: seq<Entry<K, V>>, key: K): Option<V> {
    if list == [] then None
    else if list[|list| - 1].key == key then Some(list[|list| - 1].value)
    else Find(list[..|list| - 1], key)
  }

  ghost predicate HasValue<K, V>(list: seq<Entry<K, V>>, value: V) {
    exists i {:trigger list[i]} :: 0 <= i < |list| && list[i].value == value
  }

  /** A lookup moves the entry to the front. */
  function Looked<K(==), V>(list: seq<Entry<K, V>>, key: K): seq<Entry<K, V>> {
    match Find(list, key)
    case None => list
    case Some(v) => [Entry(key, v)] + Dropped(list, key)
  }

  /** A new key goes to the front and, beyond the capacity, the last entry goes; a known key is replaced and
      moved to the front. */
  function Stored<K(==), V>(list: seq<Entry<K, V>>, capacity: int, key: K, value: V): seq<Entry<K, V>> {
    if Find(list, key).Some? then [Entry(key, value)] + Dropped(list, key)
    else
      var longer := [Entry(key, value)] + list;
      if |longer| > capacity then longer[..|longer| - 1] else longer
  }

  /** What the value map is exact for: the key is stored with this very value, or neither is stored. */
  ghost predicate KeepsInverse<K, V>(list: seq<Entry<K, V>>, key: K, value: V) {
    Find(list, key) == Some(value) || (Find(list, key).None? && !HasValue(list, value))
  }

  // ----- lookups and stores by position -----

  ghost predicate OneEach<K, V>(list: seq<Entry<K, V>>) {
    forall i, j {:trigger list[i], list[j]} :: 0 <= i < j < |list| ==> list[i].key != list[j].key
  }

  ghost predicate OneValueEach<K, V>(list: seq<Entry<K, V>>) {
    forall i, j {:trigger list[i], list[j]} :: 0 <= i < j < |list| ==> list[i].value != list[j].value
  }

  ghost predicate HasKey<K, V>(list: seq<Entry<K, V>>, key: K) {
    exists i {:trigger list[i]} :: 0 <= i < |list| && list[i].key == key
  }

  /** e comes to the front from wherever it stood, and the others keep their order. */
  ghost predicate MovedToFront<K, V>(before: seq<Entry<K, V>>, after: seq<Entry<K, V>>, e: Entry<K, V>) {
    exists i {:trigger before[i]} :: 0 <= i < |before| && before[i] == e && after == [e] + before[..i] + before[i + 1..]
  }

  function Limit(capacity: int): nat {
    if capacity > 0 then capacity else 0
  }

  /** e is in front: in place of the entry with its key, or before all others, of which only so many stay that the
      capacity is not exceeded. */
  ghost predicate PutInFront<K, V>(before: seq<Entry<K, V>>, after: seq<Entry<K, V>>, capacity: int, e: Entry<K, V>) {
    if HasKey(before, e.key) then
      exists i {:trigger before[i]} :: 0 <= i < |before| && before[i].key == e.key
                                       && after == [e] + before[..i] + before[i + 1..]
    else
      after == ([e] + before)[..Min(|before| + 1, Limit(capacity))]
  }

  /** An absent key is not found and nothing is dropped for it. */
  lemma {:induction false} AbsentKey<K, V>(list: seq<Entry<K, V>>, key: K)
    requires !HasKey(list, key)
    ensures Find(list, key) == None && Dropped(list, key) == list
  {
    if list != [] {
      var n := |list| - 1;
      assert list[n].key != key;
      assert list[..n] + [list[n]] == list;
      AbsentKey(list[..n], key);
    }
  }

  lemma {:induction false} KeyAt<K, V>(list: seq<Entry<K, V>>, i: nat)
    requires OneEach(list) && i < |list|
    ensures Find(list, list[i].key) == Some(list[i].value)
    ensures Dropped(list, list[i].key) == list[..i] + list[i + 1..]
  {
    var n := |list| - 1;
    if i == n {
      assert list[i + 1..] == [];
      AbsentKey(list[..n], list[i].key);
    } else {
      KeyAt(list[..n], i);
      assert list[..n][..i] == list[..i];
      assert list[..n][i + 1..] + [list[n]] == list[i + 1..];
    }
  }

  lemma LookedMoves<K, V>(list: seq<Entry<K, V>>, key: K)
    requires OneEach(list)
    ensures Find(list, key).Some? <==> HasKey(list, key)
    ensures Find(list, key).Some? ==> MovedToFront(list, Looked(list, key), Entry(key, Find(list, key).value))
  {
    if HasKey(list, key) {
      var i :| 0 <= i < |list| && list[i].key == key;
      KeyAt(list, i);
      Associates([list[i]], list[..i], list[i + 1..]);
    } else {
      AbsentKey(list, key);
    }
  }

  lemma StoredPuts<K, V>(list: seq<Entry<K, V>>, capacity: int, key: K, value: V)
    requires OneEach(list) && |list| <= Limit(capacity)
    ensures PutInFront(list, Stored(list, capacity, key, value), capacity, Entry(key, value))
  {
    LookedMoves(list, key);
    if HasKey(list, key) {
      var i :| 0 <= i < |list| && list[i].key == key;
      KeyAt(list, i);
      Associates([Entry(key, value)], list[..i], list[i + 1..]);
    }
  }
}
