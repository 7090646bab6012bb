/** Whole runs of common/cache/lru.go: the list is ordered by the last use of each key, so what a full cache gives up is
    the key used longest ago. */
module LruRuns {
  import opened Bytes
  import opened RecencyList
  import opened Lru

  datatype Call<K, V> = Put(key: K, value: V) | Get(key: K) | ByValue(value: V)

  /** The key stored with this value. */
  function Holder<K, V(==)>(list: seq<Entry<K, V>>, value: V): Option<K> {
    if list == [] then None
    else if list[|list| - 1].value == value then Some(list[|list| - 1].key)
    else Holder(list[..|list| - 1], value)
  }

  /** The key that a call uses: every Put, and a lookup that finds something. */
  function Used<K(==), V(==)>(list: seq<Entry<K, V>>, call: Call<K, V>): Option<K> {
    match call
    case Put(key, _) => Some(key)
    case Get(key) => if Find(list, key).Some? then Some(key) else None
    case ByValue(value) => Holder(list, value)
  }

  function Step<K(==), V(==)>(list: seq<Entry<K, V>>, capacity: int, call: Call<K, V>): seq<Entry<K, V>> {
    match call
    case Put(key, value) => Stored(list, capacity, key, value)
    case Get(key) => Looked(list, key)
    case ByValue(value) =>
      match Holder(list, value)
      case None => list
      case Some(key) => Looked(list, key)
  }

  /** The list after a run of calls on an empty cache. */
  function After<K(==), V(==)>(capacity: int, calls: seq<Call<K, V>>): seq<Entry<K, V>> {
    if calls == [] then []
    else Step(After(capacity, calls[..|calls| - 1]), capacity, calls[|calls| - 1])
  }

  /** The number of the last call that used key, and -1 if none did. */
  function LastUse<K(==), V(==)>(capacity: int, calls: seq<Call<K, V>>, key: K): int {
    if calls == [] then -1
    else
      var n := |calls| - 1;
      if Used(After(capacity, calls[..n]), calls[n]) == Some(key) then n else LastUse(capacity, calls[..n], key)
  }

  /** Within the capacity, one entry for a key, all used, and the later used before the earlier used. */
  ghost predicate ByLastUse<K, V>(capacity: int, calls: seq<Call<K, V>>, list: seq<Entry<K, V>>) {
    && |list| <= Limit(capacity) && OneEach(list)
    && (forall i {:trigger list[i]} :: 0 <= i < |list| ==> LastUse(capacity, calls, list[i].key) >= 0)
    && (forall i, j {:trigger list[i], list[j]} :: 0 <= i < j < |list| ==>
          LastUse(capacity, calls, list[i].key) > LastUse(capacity, calls, list[j].key))
  }

  lemma {:induction false} LastUseBefore<K, V>(capacity: int, calls: seq<Call<K, V>>, key: K)
    ensures LastUse(capacity, calls, key) < |calls|
  {
    if calls != [] { LastUseBefore(capacity, calls[..|calls| - 1], key); }
  }

  lemma {:induction false} HolderHolds<K, V>(list: seq<Entry<K, V>>, value: V)
    requires Holder(list, value).Some?
    ensures HasKey(list, Holder(list, value).value)
  {
    var n := |list| - 1;
    if list[n].value != value {
      HolderHolds(list[..n], value);
      var i :| 0 <= i < n && list[..n][i].key == Holder(list, value).value;
      assert list[i].key == Holder(list, value).value;
    }
  }

  /** One more call: its key was used last, any other key when it was. */
  lemma LastUseStep<K, V>(capacity: int, calls: seq<Call<K, V>>, call: Call<K, V>, key: K)
    ensures LastUse(capacity, calls + [call], key) ==
              if Used(After(capacity, calls), call) == Some(key) then |calls| else LastUse(capacity, calls, key)
    ensures After(capacity, calls + [call]) == Step(After(capacity, calls), capacity, call)
  {
    assert (calls + [call])[..|calls|] == calls;
  }

  /** A call that uses nothing changes nothing. */
  lemma UnusedKeepsOrder<K, V>(capacity: int, calls: seq<Call<K, V>>, call: Call<K, V>)
    requires var list := After(capacity, calls); ByLastUse(capacity, calls, list) && Used(list, call) == None
    ensures ByLastUse(capacity, calls + [call], After(capacity, calls + [call]))
  {
    var list := After(capacity, calls);
    assert (calls + [call])[..|calls|] == calls;
    forall i | 0 <= i < |list|
      ensures LastUse(capacity, calls + [call], list[i].key) == LastUse(capacity, calls, list[i].key)
    {
      LastUseStep(capacity, calls, call, list[i].key);
    }
  }

  /** The used key in front of other keys that were in order. */
  lemma FrontKeepsOrder<K, V>(capacity: int, calls: seq<Call<K, V>>, call: Call<K, V>, e: Entry<K, V>,
                              rest: seq<Entry<K, V>>)
    requires ByLastUse(capacity, calls, rest) && |rest| + 1 <= Limit(capacity) && !HasKey(rest, e.key)
    requires Used(After(capacity, calls), call) == Some(e.key)
    ensures ByLastUse(capacity, calls + [call], [e] + rest)
  {
    LastUseStep(capacity, calls, call, e.key);
    forall i | 0 <= i < |rest|
      ensures LastUse(capacity, calls + [call], rest[i].key) == LastUse(capacity, calls, rest[i].key) < |calls|
      ensures rest[i].key != e.key
    {
      LastUseStep(capacity, calls, call, rest[i].key);
      LastUseBefore(capacity, calls, rest[i].key);
    }
  }

  lemma OthersInOrder<K, V>(capacity: int, calls: seq<Call<K, V>>, list: seq<Entry<K, V>>, i: nat)
    requires ByLastUse(capacity, calls, list) && i < |list|
    ensures var rest := list[..i] + list[i + 1..];
            ByLastUse(capacity, calls, rest) && !HasKey(rest, list[i].key)
  {
    var rest := list[..i] + list[i + 1..];
    forall j | 0 <= j < |rest|
      ensures rest[j] == list[if j < i then j else j + 1]
    {
    }
  }

  lemma MovedKeepsOrder<K, V>(capacity: int, calls: seq<Call<K, V>>, call: Call<K, V>, i: nat, e: Entry<K, V>)
    requires var list := After(capacity, calls);
             && ByLastUse(capacity, calls, list) && i < |list| && list[i].key == e.key
             && Used(list, call) == Some(e.key)
    ensures var list := After(capacity, calls);
            ByLastUse(capacity, calls + [call], [e] + list[..i] + list[i + 1..])
  {
    var list := After(capacity, calls);
    OthersInOrder(capacity, calls, list, i);
    FrontKeepsOrder(capacity, calls, call, e, list[..i] + list[i + 1..]);
    Associates([e], list[..i], list[i + 1..]);
  }

  lemma LookedKeepsOrder<K, V>(capacity: int, calls: seq<Call<K, V>>, call: Call<K, V>, key: K)
    requires var list := After(capacity, calls); ByLastUse(capacity, calls, list) && Used(list, call) == Some(key)
    requires HasKey(After(capacity, calls), key)
    ensures ByLastUse(capacity, calls + [call], Looked(After(capacity, calls), key))
  {
    var list := After(capacity, calls);
    LookedMoves(list, key);
    var e := Entry(key, Find(list, key).value);
    var i :| 0 <= i < |list| && list[i] == e && Looked(list, key) == [e] + list[..i] + list[i + 1..];
    MovedKeepsOrder(capacity, calls, call, i, e);
  }

  lemma StoredKeepsOrder<K, V>(capacity: int, calls: seq<Call<K, V>>, key: K, value: V)
    requires ByLastUse(capacity, calls, After(capacity, calls))
    ensures ByLastUse(capacity, calls + [Put(key, value)], Stored(After(capacity, calls), capacity, key, value))
  {
    var list, e, call := After(capacity, calls), Entry(key, value), Call.Put(key, value);
    var after := Stored(list, capacity, key, value);
    StoredPuts(list, capacity, key, value);
    if HasKey(list, key) {
      var i :| 0 <= i < |list| && list[i].key == key && after == [e] + list[..i] + list[i + 1..];
      MovedKeepsOrder(capacity, calls, call, i, e);
    } else if Limit(capacity) > 0 {
      var m := Min(|list|, Limit(capacity) - 1);
      assert after == [e] + list[..m];
      FrontKeepsOrder(capacity, calls, call, e, list[..m]);
    }
  }

  /** Main result for the cache: after every run of puts and lookups of either kind, the list is ordered by last use. */
  lemma {:induction false} RunOrder<K, V>(capacity: int, calls: seq<Call<K, V>>)
    ensures ByLastUse(capacity, calls, After(capacity, calls))
  {
    if calls != [] {
      var before, call := calls[..|calls| - 1], calls[|calls| - 1];
      RunOrder(capacity, before);
      assert before + [call] == calls;
      var list := After(capacity, before);
      if Used(list, call).None? {
        UnusedKeepsOrder(capacity, before, call);
      } else if call.Put? {
        StoredKeepsOrder(capacity, before, call.key, call.value);
      } else {
        var key := Used(list, call).value;
        if call.ByValue? { HolderHolds(list, call.value); } else { LookedMoves(list, key); }
        LookedKeepsOrder(capacity, before, call, key);
      }
    }
  }

  /** A Put gives up an entry only when its key is new and the cache is full, and then exactly the entry whose key was
      used longest ago; all others stay. */
  lemma EvictsOldest<K, V>(capacity: int, calls: seq<Call<K, V>>, key: K, value: V)
    requires capacity > 0
    ensures var list, after := After(capacity, calls), After(capacity, calls + [Put(key, value)]);
            && (HasKey(list, key) ==> |after| == |list|)
            && (!HasKey(list, key) && |list| < capacity ==> after == [Entry(key, value)] + list)
            && (!HasKey(list, key) && |list| >= capacity ==>
                  var n := |list| - 1;
                  && after == [Entry(key, value)] + list[..n]
                  && (forall i {:trigger list[i]} :: 0 <= i < n ==>
                        LastUse(capacity, calls, list[i].key) > LastUse(capacity, calls, list[n].key)))
  {
    RunOrder(capacity, calls);
    LastUseStep(capacity, calls, Call.Put(key, value), key);
    StoredPuts(After(capacity, calls), capacity, key, value);
  }

  // ----- the cache runs as its list does -----

  /** Lookups by value are made while the value map is exact: every Put before one kept it so. */
  ghost predicate ExactLookups<K, V>(capacity: int, calls: seq<Call<K, V>>) {
    forall m, n {:trigger calls[m], calls[n]} ::
      0 <= m < n < |calls| && calls[n].ByValue? && calls[m].Put? ==> PutKeeps(capacity, calls[..m], calls[m])
  }

  ghost predicate PutsKeep<K, V>(capacity: int, calls: seq<Call<K, V>>, n: nat)
    requires n <= |calls|
  {
    forall m {:trigger calls[m]} :: 0 <= m < n ==> PutKeeps(capacity, calls[..m], calls[m])
  }

  ghost predicate PutKeeps<K, V>(capacity: int, before: seq<Call<K, V>>, call: Call<K, V>) {
    call.Put? ==> KeepsInverse(After(capacity, before), call.key, call.value)
  }

  lemma {:induction false} HolderIs<K, V>(list: seq<Entry<K, V>>, value: V)
    ensures Holder(list, value).None? <==> !HasValue(list, value)
    ensures Holder(list, value).Some? ==>
              exists i {:trigger list[i]} :: 0 <= i < |list| && list[i] == Entry(Holder(list, value).value, value)
  {
    if list != [] {
      var n := |list| - 1;
      HolderIs(list[..n], value);
      assert list[n].value != value ==> (HasValue(list, value) ==> HasValue(list[..n], value));
      if HasValue(list[..n], value) {
        var i :| 0 <= i < n && list[..n][i].value == value;
        assert list[i].value == value;
      }
      if list[n].value != value && Holder(list[..n], value).Some? {
        var i :| 0 <= i < n && list[..n][i] == Entry(Holder(list, value).value, value);
        assert list[i] == list[..n][i];
      } else if list[n].value == value {
        assert list[n] == Entry(Holder(list, value).value, value);
      }
    }
  }

  /** Where values differ, the key found with a value is its holder. */
  lemma FoundIsHolder<K, V>(list: seq<Entry<K, V>>, key: K, value: V)
    requires OneEach(list) && OneValueEach(list) && Find(list, key) == Some(value)
    ensures Holder(list, value) == Some(key)
  {
    LookedMoves(list, key);
    var i :| 0 <= i < |list| && list[i].key == key;
    KeyAt(list, i);
    HolderIs(list, value);
    assert list[i].value == value;
  }

  lemma NextCall<K, V>(capacity: int, calls: seq<Call<K, V>>, n: nat)
    requires ExactLookups(capacity, calls) && n < |calls|
    ensures calls[..n + 1] == calls[..n] + [calls[n]]
    ensures calls[n].ByValue? ==> PutsKeep(capacity, calls, n)
    ensures PutsKeep(capacity, calls, n + 1) ==>
              PutsKeep(capacity, calls, n) && PutKeeps(capacity, calls[..n], calls[n])
  {
  }

  /** A run on a new cache: its list is that of the run, call by call. */
  method Run<K(==), V(==)>(capacity: int, calls: seq<Call<K, V>>) returns (c: Lru<K, V>)
    requires ExactLookups(capacity, calls)
    ensures c.Valid() && c.capacity == capacity && c.Recency() == After(capacity, calls)
    ensures ByLastUse(capacity, calls, c.Recency())
  {
    c := new Lru(capacity);
    for n := 0 to |calls|
      invariant c.Valid() && c.capacity == capacity && c.Recency() == After(capacity, calls[..n])
      invariant PutsKeep(capacity, calls, n) ==> c.Inverse()
    {
      NextCall(capacity, calls, n);
      RunOne(c, calls[..n], calls[n]);
    }
    assert calls[..|calls|] == calls;
    RunOrder(capacity, calls);
  }

  method RunOne<K(==), V(==)>(c: Lru<K, V>, before: seq<Call<K, V>>, call: Call<K, V>)
    requires c.Valid() && c.Recency() == After(c.capacity, before) && (call.ByValue? ==> c.Inverse())
    modifies c
    ensures c.Valid() && c.Recency() == After(c.capacity, before + [call])
    ensures old(c.Inverse()) && PutKeeps(c.capacity, before, call) ==> c.Inverse()
  {
    assert (before + [call])[..|before|] == before;
    match call {
      case Put(key, value) => c.Put(key, value);
      case Get(key) => var _ := c.Get(key);
      case ByValue(value) =>
        RunOrder(c.capacity, before);
        ValuesDiffer(c);
        HolderIs(c.Recency(), value);
        ghost var list := c.Recency();
        var r := c.GetKeyFromValue(value);
        if r.Some? { FoundIsHolder(list, r.value, value); }
    }
  }

  lemma LookBehind(a: Entry<nat, nat>, b: Entry<nat, nat>)
    requires a.key != b.key
    ensures Find([a, b], b.key) == Some(b.value) && Looked([a, b], b.key) == [b, a]
  {
    KeyAt([a, b], 1);
    assert [a, b][..1] + [a, b][2..] == [a];
    assert [b] + [a] == [b, a];
  }

  lemma PutThird(a: Entry<nat, nat>, b: Entry<nat, nat>, e: Entry<nat, nat>)
    requires e.key != a.key && e.key != b.key
    ensures Find([a, b], e.key) == None && Stored([a, b], 2, e.key, e.value) == [e, a]
  {
    AbsentKey([a, b], e.key);
    assert [e] + [a, b] == [e, a, b];
    assert [e, a, b][..2] == [e, a];
  }

  lemma PutSecond(a: Entry<nat, nat>, e: Entry<nat, nat>)
    requires e.key != a.key
    ensures Stored([a], 2, e.key, e.value) == [e, a]
  {
    AbsentKey([a], e.key);
    assert [e] + [a] == [e, a];
  }

  /** Capacity 2: the lookup of key 1 saves it, and the third Put gives up key 2. */
  method FiveCalls() returns (first: Option<nat>, again: Option<nat>, gone: Option<nat>)
    ensures first == Some(10) && again == Some(10) && gone == None
  {
    var c := new Lru<nat, nat>(2);
    FirstPut(2, 1, 10);
    c.Put(1, 10);
    PutSecond(Entry(1, 10), Entry(2, 20));
    c.Put(2, 20);
    LookBehind(Entry(2, 20), Entry(1, 10));
    first := c.Get(1);
    PutThird(Entry(1, 10), Entry(2, 20), Entry(3, 30));
    c.Put(3, 30);
    LookBehind(Entry(3, 30), Entry(1, 10));
    again := c.Get(1);
    PutThird(Entry(1, 10), Entry(3, 30), Entry(2, 20));
    gone := c.Get(2);
  }
}
