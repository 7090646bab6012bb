/** common/cache/lru.go: a recency list indexed by a key map and a value map. List elements are positions in
    an arena, as the code holds pointers to them; a removed element keeps its entry. */
module Lru {
  import opened Bytes
  import opened RecencyList

  // ----- the linked list -----

  /** list.Remove: the list without this element. */
  function Without(order: seq<nat>, id: nat): seq<nat> {
    if order == [] then []
    else if order[|order| - 1] == id then Without(order[..|order| - 1], id)
    else Without(order[..|order| - 1], id) + [order[|order| - 1]]
  }

  /** The elements in the list. */
  function Ids(order: seq<nat>): set<nat> {
    if order == [] then {} else Ids(order[..|order| - 1]) + {order[|order| - 1]}
  }

  lemma {:induction false} IdsAre(order: seq<nat>, x: nat)
    ensures x in Ids(order) <==> x in order
  {
    if order != [] {
      IdsAre(order[..|order| - 1], x);
      assert order == order[..|order| - 1] + [order[|order| - 1]];
    }
  }

  lemma {:induction false} IdsAt(order: seq<nat>, i: nat)
    requires i < |order|
    ensures order[i] in Ids(order)
  {
    if i < |order| - 1 { IdsAt(order[..|order| - 1], i); }
  }

  lemma {:induction false} IdsWithout(order: seq<nat>, id: nat)
    ensures Ids(Without(order, id)) == Ids(order) - {id}
  {
    if order != [] {
      var n := |order| - 1;
      IdsWithout(order[..n], id);
      var r := Without(order[..n], id);
      assert (r + [order[n]])[..|r|] == r;
    }
  }

  lemma {:induction false} IdsCons(id: nat, order: seq<nat>)
    ensures Ids([id] + order) == {id} + Ids(order)
  {
    if order == [] {
      assert ([id] + order)[..0] == [];
    } else {
      var n := |order| - 1;
      assert ([id] + order)[..n + 1] == [id] + order[..n];
      IdsCons(id, order[..n]);
    }
  }

  ghost predicate Below(ids: set<nat>, n: nat) {
    forall x {:trigger x in ids} :: x in ids ==> x < n
  }

  /** Elements are ordered by their last touch, latest first. */
  ghost predicate ByTouch(order: seq<nat>, touched: seq<nat>) {
    && (forall i :: 0 <= i < |order| ==> order[i] < |touched|)
    && (forall i, j :: 0 <= i < j < |order| ==> touched[order[i]] > touched[order[j]])
  }

  /** Every listed element was touched after this one. */
  ghost predicate TouchedAfter(ids: set<nat>, touched: seq<nat>, id: nat) {
    id < |touched| && forall x {:trigger x in ids} :: x in ids ==> x < |touched| && touched[x] > touched[id]
  }

  lemma LastTouchedFirst(order: seq<nat>, touched: seq<nat>)
    requires ByTouch(order, touched) && order != []
    ensures TouchedAfter(Ids(order[..|order| - 1]), touched, order[|order| - 1])
  {
    var n := |order| - 1;
    forall x | x in Ids(order[..n])
      ensures x < |touched| && touched[x] > touched[order[n]]
    {
      IdsAre(order[..n], x);
      var i :| 0 <= i < n && order[..n][i] == x;
      assert order[i] == x;
    }
  }

  lemma {:induction false} WithoutKeeps(order: seq<nat>, id: nat, touched: seq<nat>)
    requires ByTouch(order, touched)
    ensures ByTouch(Without(order, id), touched)
    ensures |Without(order, id)| == |order| - if id in Ids(order) then 1 else 0
  {
    if order != [] {
      var n := |order| - 1;
      WithoutKeeps(order[..n], id, touched);
      LastTouchedFirst(order, touched);
      IdsWithout(order[..n], id);
      SnocByTouch(Without(order[..n], id), order[n], touched);
    }
  }

  lemma SnocByTouch(order: seq<nat>, last: nat, touched: seq<nat>)
    requires ByTouch(order, touched) && TouchedAfter(Ids(order), touched, last)
    ensures ByTouch(order + [last], touched)
  {
    forall i | 0 <= i < |order|
      ensures touched[order[i]] > touched[last]
    {
      IdsAt(order, i);
    }
  }

  // ----- the indexes -----

  /** The key map finds exactly the listed elements, each by its own key. */
  ghost predicate Indexed<K, V>(ids: set<nat>, elements: seq<Entry<K, V>>, keyTo: map<K, nat>) {
    && (forall k {:trigger k in keyTo} :: k in keyTo ==>
          keyTo[k] in ids && keyTo[k] < |elements| && elements[keyTo[k]].key == k)
    && (forall id {:trigger id in ids} :: id in ids ==>
          id < |elements| && elements[id].key in keyTo && keyTo[elements[id].key] == id)
  }

  /** The value map finds exactly the stored values, each at its own element. */
  ghost predicate IsInverse<K, V>(ids: set<nat>, elements: seq<Entry<K, V>>, valueTo: map<V, nat>) {
    && (forall v {:trigger v in valueTo} :: v in valueTo ==>
          valueTo[v] in ids && valueTo[v] < |elements| && elements[valueTo[v]].value == v)
    && (forall id {:trigger id in ids} :: id in ids ==>
          id < |elements| && elements[id].value in valueTo && valueTo[elements[id].value] == id)
  }

  /** Two listed elements with one value. */
  ghost predicate Twice<K, V>(ids: set<nat>, elements: seq<Entry<K, V>>) {
    exists x, y {:trigger x in ids, y in ids} ::
      x in ids && y in ids && x != y && x < |elements| && y < |elements| && elements[x].value == elements[y].value
  }

  ghost predicate Listed<K, V>(ids: set<nat>, elements: seq<Entry<K, V>>, value: V) {
    exists x {:trigger x in ids} :: x in ids && x < |elements| && elements[x].value == value
  }

  lemma PushKeepsIndex<K, V>(ids: set<nat>, elements: seq<Entry<K, V>>, keyTo: map<K, nat>, e: Entry<K, V>)
    requires Indexed(ids, elements, keyTo) && e.key !in keyTo
    ensures Indexed({|elements|} + ids, elements + [e], keyTo[e.key := |elements|])
  {
  }

  lemma PushInverse<K, V>(ids: set<nat>, elements: seq<Entry<K, V>>, valueTo: map<V, nat>, e: Entry<K, V>)
    requires Below(ids, |elements|)
    ensures Listed(ids, elements, e.value) ==> Twice({|elements|} + ids, elements + [e])
    ensures IsInverse(ids, elements, valueTo) && !Listed(ids, elements, e.value) ==>
              IsInverse({|elements|} + ids, elements + [e], valueTo[e.value := |elements|])
  {
    var id, all, more := |elements|, {|elements|} + ids, elements + [e];
    assert id in all && more[id] == e;
    if Listed(ids, elements, e.value) {
      var x :| x in ids && x < |elements| && elements[x].value == e.value;
      assert x in all && more[x] == elements[x];
    }
  }

  lemma PopKeepsIndex<K, V>(ids: set<nat>, elements: seq<Entry<K, V>>, keyTo: map<K, nat>, last: nat)
    requires Indexed(ids, elements, keyTo) && last in ids
    ensures Indexed(ids - {last}, elements, keyTo - {elements[last].key})
  {
  }

  lemma PopInverse<K, V>(ids: set<nat>, elements: seq<Entry<K, V>>, valueTo: map<V, nat>, last: nat)
    requires last in ids && last < |elements|
    ensures var valueTo' := valueTo - {elements[last].value};
            && (IsInverse(ids, elements, valueTo) ==> IsInverse(ids - {last}, elements, valueTo'))
            && (Twice(ids, elements) ==> !IsInverse(ids - {last}, elements, valueTo'))
  {
    if Twice(ids, elements) {
      var x, y :| x in ids && y in ids && x != y && x < |elements| && y < |elements|
        && elements[x].value == elements[y].value;
      assert x in ids - {last} || y in ids - {last};
      assert x != last ==> x in ids - {last};
      assert y != last ==> y in ids - {last};
    }
  }

  lemma TwiceIsNotInverse<K, V>(ids: set<nat>, elements: seq<Entry<K, V>>, valueTo: map<V, nat>)
    ensures Twice(ids, elements) ==> !IsInverse(ids, elements, valueTo)
  {
  }

  lemma ReplaceIndexes<K, V>(ids: set<nat>, elements: seq<Entry<K, V>>, keyTo: map<K, nat>, valueTo: map<V, nat>,
                             id: nat, e: Entry<K, V>)
    requires Indexed(ids, elements, keyTo) && id in ids && e.key == elements[id].key
    ensures Indexed(ids, elements[id := e], keyTo)
    ensures IsInverse(ids, elements, valueTo) ==>
              (IsInverse(ids, elements[id := e], valueTo) <==> e.value == elements[id].value)
  {
    if e.value == elements[id].value {
      assert elements[id := e] == elements;
    }
  }

  // ----- elements and entries -----

  function View<K, V>(order: seq<nat>, elements: seq<Entry<K, V>>): (r: seq<Entry<K, V>>)
    requires Below(Ids(order), |elements|)
    ensures |r| == |order|
  {
    if order == [] then []
    else
      var n := |order| - 1;
      IdsAt(order, n);
      View(order[..n], elements) + [elements[order[n]]]
  }

  lemma {:induction false} ViewAt<K, V>(order: seq<nat>, elements: seq<Entry<K, V>>, i: nat)
    requires Below(Ids(order), |elements|) && i < |order|
    ensures order[i] in Ids(order) && View(order, elements)[i] == elements[order[i]]
  {
    if i < |order| - 1 { ViewAt(order[..|order| - 1], elements, i); }
  }

  lemma {:induction false} ViewCons<K, V>(id: nat, order: seq<nat>, elements: seq<Entry<K, V>>)
    requires id < |elements| && Below(Ids(order), |elements|)
    ensures Below(Ids([id] + order), |elements|)
    ensures View([id] + order, elements) == [elements[id]] + View(order, elements)
  {
    IdsCons(id, order);
    var all := [id] + order;
    if order == [] {
      assert all[..0] == [];
    } else {
      var n := |order| - 1;
      assert all[..n + 1] == [id] + order[..n] && all[n + 1] == order[n];
      ViewCons(id, order[..n], elements);
      Associates([elements[id]], View(order[..n], elements), [elements[order[n]]]);
    }
  }

  lemma {:induction false} ViewGrows<K, V>(order: seq<nat>, elements: seq<Entry<K, V>>, e: Entry<K, V>)
    requires Below(Ids(order), |elements|)
    ensures View(order, elements + [e]) == View(order, elements)
  {
    if order != [] {
      IdsAt(order, |order| - 1);
      ViewGrows(order[..|order| - 1], elements, e);
    }
  }

  /** Only this element has this key. */
  ghost predicate OwnsKey<K, V>(ids: set<nat>, elements: seq<Entry<K, V>>, id: nat) {
    && id < |elements| && Below(ids, |elements|)
    && forall x {:trigger x in ids} :: x in ids && elements[x].key == elements[id].key ==> x == id
  }

  lemma {:induction false} ViewWithout<K, V>(order: seq<nat>, elements: seq<Entry<K, V>>, id: nat)
    requires OwnsKey(Ids(order), elements, id)
    ensures Below(Ids(Without(order, id)), |elements|)
    ensures View(Without(order, id), elements) == Dropped(View(order, elements), elements[id].key)
  {
    IdsWithout(order, id);
    if order != [] {
      var n := |order| - 1;
      IdsAt(order, n);
      ViewWithout(order[..n], elements, id);
      var r := Without(order[..n], id);
      assert (r + [order[n]])[..|r|] == r;
      var t := View(order[..n], elements);
      assert (t + [elements[order[n]]])[..n] == t;
    }
  }

  /** Changing the value of one element changes no other entry. */
  lemma {:induction false} SameOthers<K, V>(order: seq<nat>, elements: seq<Entry<K, V>>, id: nat, e: Entry<K, V>)
    requires Below(Ids(order), |elements|) && id < |elements| && e.key == elements[id].key
    ensures Dropped(View(order, elements[id := e]), e.key) == Dropped(View(order, elements), e.key)
  {
    if order != [] {
      var n := |order| - 1;
      IdsAt(order, n);
      SameOthers(order[..n], elements, id, e);
      var r, t := View(order[..n], elements[id := e]), View(order[..n], elements);
      assert (r + [elements[id := e][order[n]]])[..n] == r && (t + [elements[order[n]]])[..n] == t;
    }
  }

  lemma {:induction false} FindAt<K, V>(order: seq<nat>, elements: seq<Entry<K, V>>, id: nat)
    requires OwnsKey(Ids(order), elements, id) && id in Ids(order)
    ensures Find(View(order, elements), elements[id].key) == Some(elements[id].value)
  {
    var n := |order| - 1;
    IdsAt(order, n);
    var t := View(order[..n], elements);
    assert (t + [elements[order[n]]])[..n] == t;
    if order[n] != id { FindAt(order[..n], elements, id); }
  }

  lemma {:induction false} FindNone<K, V>(order: seq<nat>, elements: seq<Entry<K, V>>, key: K)
    requires Below(Ids(order), |elements|)
    requires forall x {:trigger x in Ids(order)} :: x in Ids(order) ==> elements[x].key != key
    ensures Find(View(order, elements), key) == None
  {
    if order != [] {
      var n := |order| - 1;
      IdsAt(order, n);
      var t := View(order[..n], elements);
      assert (t + [elements[order[n]]])[..n] == t;
      FindNone(order[..n], elements, key);
    }
  }

  lemma FindIsIndex<K, V>(order: seq<nat>, elements: seq<Entry<K, V>>, keyTo: map<K, nat>, key: K)
    requires Indexed(Ids(order), elements, keyTo)
    ensures Below(Ids(order), |elements|)
    ensures Find(View(order, elements), key) == if key in keyTo then Some(elements[keyTo[key]].value) else None
  {
    if key in keyTo {
      FindAt(order, elements, keyTo[key]);
    } else {
      FindNone(order, elements, key);
    }
  }

  lemma HasValueIsListed<K, V>(order: seq<nat>, elements: seq<Entry<K, V>>, value: V)
    requires Below(Ids(order), |elements|)
    ensures HasValue(View(order, elements), value) <==> Listed(Ids(order), elements, value)
  {
    var list := View(order, elements);
    forall i | 0 <= i < |order|
      ensures order[i] in Ids(order) && list[i] == elements[order[i]]
    {
      ViewAt(order, elements, i);
    }
    if id :| id in Ids(order) && elements[id].value == value {
      IdsAre(order, id);
      var i :| 0 <= i < |order| && order[i] == id;
      assert list[i].value == value;
    }
  }

  /** Moving an element to the front makes it the latest touched. */
  lemma FrontByTouch(order: seq<nat>, touched: seq<nat>, id: nat, clock: nat)
    requires ByTouch(order, touched) && id in Ids(order) && id < |touched| && Until(touched, clock)
    ensures var moved := [id] + Without(order, id);
            ByTouch(moved, touched[id := clock]) && |moved| == |order|
  {
    var rest := Without(order, id);
    WithoutKeeps(order, id, touched);
    IdsWithout(order, id);
    forall i | 0 <= i < |rest|
      ensures rest[i] != id
    {
      IdsAt(rest, i);
    }
  }

  /** Moving an element to the front keeps what is listed. */
  lemma FrontView<K, V>(order: seq<nat>, elements: seq<Entry<K, V>>, id: nat)
    requires OwnsKey(Ids(order), elements, id) && id in Ids(order)
    ensures var moved := [id] + Without(order, id);
            && Ids(moved) == Ids(order)
            && View(moved, elements) == [elements[id]] + Dropped(View(order, elements), elements[id].key)
  {
    var rest := Without(order, id);
    IdsWithout(order, id);
    IdsCons(id, rest);
    ViewWithout(order, elements, id);
    ViewCons(id, rest, elements);
    assert {id} + (Ids(order) - {id}) == Ids(order);
  }

  ghost predicate Until(touched: seq<nat>, clock: nat) {
    forall x {:trigger touched[x]} :: 0 <= x < |touched| ==> touched[x] < clock
  }

  lemma PushView<K, V>(order: seq<nat>, elements: seq<Entry<K, V>>, touched: seq<nat>, clock: nat, e: Entry<K, V>)
    requires ByTouch(order, touched) && Until(touched, clock) && |touched| == |elements|
              && Below(Ids(order), |elements|)
    ensures var order' := [|elements|] + order;
            && ByTouch(order', touched + [clock]) && Ids(order') == {|elements|} + Ids(order)
            && View(order', elements + [e]) == [e] + View(order, elements)
  {
    IdsCons(|elements|, order);
    ViewCons(|elements|, order, elements + [e]);
    ViewGrows(order, elements, e);
  }

  /** Every value leads to an element, listed or not. */
  ghost predicate Leads<V>(valueTo: map<V, nat>, n: nat) {
    forall v {:trigger v in valueTo} :: v in valueTo ==> valueTo[v] < n
  }

  lemma PushLists<K, V>(order: seq<nat>, elements: seq<Entry<K, V>>, keyTo: map<K, nat>, touched: seq<nat>, clock: nat,
                        e: Entry<K, V>)
    requires ByTouch(order, touched) && Until(touched, clock) && |touched| == |elements|
    requires Indexed(Ids(order), elements, keyTo) && e.key !in keyTo
    ensures var id := |elements|;
            && ByTouch([id] + order, touched + [clock]) && Until(touched + [clock], clock + 1)
            && Indexed(Ids([id] + order), elements + [e], keyTo[e.key := id])
            && View([id] + order, elements + [e]) == [e] + View(order, elements)
  {
    PushView(order, elements, touched, clock, e);
    PushKeepsIndex(Ids(order), elements, keyTo, e);
  }

  lemma PushValues<K, V>(order: seq<nat>, elements: seq<Entry<K, V>>, valueTo: map<V, nat>, touched: seq<nat>,
                         clock: nat,
                         e: Entry<K, V>)
    requires ByTouch(order, touched) && Until(touched, clock) && |touched| == |elements|
              && Below(Ids(order), |elements|)
    requires Leads(valueTo, |elements|)
    ensures var id := |elements|;
            && Leads(valueTo[e.value := id], id + 1)
            && (HasValue(View(order, elements), e.value) ==> Twice(Ids([id] + order), elements + [e]))
            && (IsInverse(Ids(order), elements, valueTo) && !HasValue(View(order, elements), e.value) ==>
                  IsInverse(Ids([id] + order), elements + [e], valueTo[e.value := id]))
  {
    PushView(order, elements, touched, clock, e);
    PushInverse(Ids(order), elements, valueTo, e);
    HasValueIsListed(order, elements, e.value);
  }

  lemma {:induction false} PopView<K, V>(order: seq<nat>, elements: seq<Entry<K, V>>, touched: seq<nat>)
    requires ByTouch(order, touched) && order != [] && Below(Ids(order), |elements|)
    ensures var n := |order| - 1;
            && ByTouch(order[..n], touched) && order[n] in Ids(order) && Ids(order[..n]) == Ids(order) - {order[n]}
            && View(order[..n], elements) == View(order, elements)[..n]
            && TouchedAfter(Ids(order[..n]), touched, order[n])
  {
    IdsAt(order, |order| - 1);
    LastTouchedFirst(order, touched);
  }

  /** No key is listed twice. */
  lemma KeysDiffer<K, V>(order: seq<nat>, elements: seq<Entry<K, V>>, keyTo: map<K, nat>, touched: seq<nat>)
    requires ByTouch(order, touched) && Indexed(Ids(order), elements, keyTo)
    ensures Below(Ids(order), |elements|) && OneEach(View(order, elements))
  {
    var list := View(order, elements);
    forall i, j | 0 <= i < j < |list|
      ensures list[i].key != list[j].key
    {
      ViewAt(order, elements, i);
      ViewAt(order, elements, j);
      assert touched[order[i]] > touched[order[j]];
    }
  }

  class Lru<K(==), V(==)> {
    const capacity: int
    var order: seq<nat>               // the doubly linked list
    var elements: seq<Entry<K, V>>    // every element ever made
    var keyToElement: map<K, nat>
    var valueToElement: map<V, nat>
    ghost var clock: nat
    ghost var touched: seq<nat>       // when each element was last put or looked up

    ghost predicate Valid()
      reads this
    {
      Sound() && |order| <= Limit(capacity)
    }

    /** All indexes agree, whatever the length of the list. */
    ghost predicate Sound()
      reads this
    {
      && |touched| == |elements| && ByTouch(order, touched) && Until(touched, clock)
      && Indexed(Ids(order), elements, keyToElement)
      && Leads(valueToElement, |elements|)
    }

    constructor (capacity: int)
      ensures Valid() && this.capacity == capacity && Recency() == [] && Inverse()
    {
      this.capacity := capacity;
      order, elements, keyToElement, valueToElement, clock, touched := [], [], map[], map[], 0, [];
    }

    ghost predicate Inverse()
      requires Sound()
      reads this
    {
      IsInverse(Ids(order), elements, valueToElement)
    }

    /** What is stored, most recently touched first. */
    function Recency(): seq<Entry<K, V>>
      requires Sound()
      reads this
    {
      View(order, elements)
    }

    /** MoveBefore(element, Front()): nothing happens to an element that is not in the list. */
    method MoveToFront(id: nat)
      requires Sound() && id < |elements|
      modifies `order, `clock, `touched
      ensures Sound() && Inverse() == old(Inverse()) && |order| == |old(order)|
      ensures Recency() == if id in old(Ids(order)) then [elements[id]] + Dropped(old(Recency()), elements[id].key)
                else old(Recency())
    {
      IdsAre(order, id);
      if id in order {
        FrontByTouch(order, touched, id, clock);
        FrontView(order, elements, id);
        order, touched, clock := [id] + Without(order, id), touched[id := clock], clock + 1;
      }
    }

    method Get(key: K) returns (r: Option<V>)
      requires Valid()
      modifies `order, `clock, `touched
      ensures Valid() && Inverse() == old(Inverse())
      ensures r == Find(old(Recency()), key)
      ensures Recency() == Looked(old(Recency()), key)
      ensures r.Some? ==> MovedToFront(old(Recency()), Recency(), Entry(key, r.value))
      ensures r.None? ==> Recency() == old(Recency()) && !HasKey(Recency(), key)
    {
      KeysDiffer(order, elements, keyToElement, touched);
      LookedMoves(Recency(), key);
      FindIsIndex(order, elements, keyToElement, key);
      if key !in keyToElement { return None; }
      var id := keyToElement[key];
      MoveToFront(id);
      return Some(elements[id].value);
    }

    /** Finds a key by the value map. With an exact value map it is the key stored with this value; otherwise
        the element found may long have been removed, and then the list stays as it is. */
    method GetKeyFromValue(value: V) returns (r: Option<K>)
      requires Valid()
      modifies `order, `clock, `touched
      ensures Valid() && Inverse() == old(Inverse())
      ensures r.None? ==> Recency() == old(Recency())
      ensures r.Some? ==> Recency() == old(Recency()) || Recency() == Looked(old(Recency()), r.value)
      ensures old(Inverse()) && r.Some? ==> Find(old(Recency()), r.value) == Some(value)
      ensures old(Inverse()) && r.Some? ==> Recency() == Looked(old(Recency()), r.value)
      ensures old(Inverse()) && r.Some? ==> MovedToFront(old(Recency()), Recency(), Entry(r.value, value))
      ensures old(Inverse()) && r.None? ==> !HasValue(Recency(), value)
    {
      HasValueIsListed(order, elements, value);
      if value !in valueToElement { return None; }
      var id := valueToElement[value];
      FindIsIndex(order, elements, keyToElement, elements[id].key);
      KeysDiffer(order, elements, keyToElement, touched);
      LookedMoves(Recency(), elements[id].key);
      MoveToFront(id);
      return Some(elements[id].key);
    }

    /** element.Value = e for a stored key; the value map is left as it is. */
    method Replace(key: K, value: V)
      requires Valid() && key in keyToElement
      modifies `order, `elements, `clock, `touched
      ensures Valid()
      ensures Recency() == [Entry(key, value)] + Dropped(old(Recency()), key)
      ensures old(Inverse()) ==> (Inverse() <==> Find(old(Recency()), key) == Some(value))
    {
      var id, e := keyToElement[key], Entry(key, value);
      FindIsIndex(order, elements, keyToElement, key);
      SameOthers(order, elements, id, e);
      ReplaceIndexes(Ids(order), elements, keyToElement, valueToElement, id, e);
      elements := elements[id := e];
      MoveToFront(id);
    }

    /** PushFront and both stores. */
    method PushFront(key: K, value: V)
      requires Sound() && key !in keyToElement
      modifies this
      ensures Sound() && |order| == |old(order)| + 1
      ensures Recency() == [Entry(key, value)] + old(Recency())
      ensures old(Inverse()) && !HasValue(old(Recency()), value) ==> Inverse()
      ensures HasValue(old(Recency()), value) ==> Twice(Ids(order), elements)
    {
      var id, e := |elements|, Entry(key, value);
      PushLists(order, elements, keyToElement, touched, clock, e);
      PushValues(order, elements, valueToElement, touched, clock, e);
      order, elements := [id] + order, elements + [e];
      keyToElement, valueToElement := keyToElement[key := id], valueToElement[value := id];
      touched, clock := touched + [clock], clock + 1;
    }

    /** Removes the element touched longest ago, with the map entries of its key and its value. */
    method RemoveBack()
      requires Sound() && order != []
      modifies `order, `keyToElement, `valueToElement
      ensures Sound() && |order| == |old(order)| - 1
      ensures Recency() == old(Recency())[..|order|]
      ensures old(Inverse()) ==> Inverse()
      ensures old(Twice(Ids(order), elements)) ==> !Inverse()
      ensures TouchedAfter(Ids(order), touched, old(order)[|order|])
    {
      var last := order[|order| - 1];
      PopView(order, elements, touched);
      PopKeepsIndex(Ids(order), elements, keyToElement, last);
      PopInverse(Ids(order), elements, valueToElement, last);
      order := order[..|order| - 1];
      keyToElement := keyToElement - {elements[last].key};
      valueToElement := valueToElement - {elements[last].value};
    }

    method Insert(key: K, value: V)
      requires Valid() && key !in keyToElement
      modifies this
      ensures Valid()
      ensures Recency() == Stored(old(Recency()), capacity, key, value)
      ensures old(Inverse()) ==> (Inverse() <==> !HasValue(old(Recency()), value))
    {
      FindIsIndex(order, elements, keyToElement, key);
      PushFront(key, value);
      TwiceIsNotInverse(Ids(order), elements, valueToElement);
      if |order| > capacity {
        RemoveBack();
      }
    }

    /** Put. The value map stays the exact inverse of the key map if and only if the pair was already stored
        or neither its key nor its value was. */
    method Put(key: K, value: V)
      requires Valid()
      modifies this
      ensures Valid()
      ensures Recency() == Stored(old(Recency()), capacity, key, value)
      ensures PutInFront(old(Recency()), Recency(), capacity, Entry(key, value))
      ensures old(Inverse()) ==> (Inverse() <==> KeepsInverse(old(Recency()), key, value))
    {
      KeysDiffer(order, elements, keyToElement, touched);
      StoredPuts(Recency(), capacity, key, value);
      FindIsIndex(order, elements, keyToElement, key);
      if key in keyToElement {
        Replace(key, value);
      } else {
        Insert(key, value);
      }
    }
  }

  /** While the value map is exact, no value is listed twice. */
  lemma ValuesDiffer<K, V>(c: Lru<K, V>)
    requires c.Valid() && c.Inverse()
    ensures OneValueEach(c.Recency())
  {
    var list := c.Recency();
    forall i, j | 0 <= i < j < |list|
      ensures list[i].value != list[j].value
    {
      ViewAt(c.order, c.elements, i);
      ViewAt(c.order, c.elements, j);
      assert c.touched[c.order[i]] > c.touched[c.order[j]];
    }
  }

  lemma FirstPut(capacity: int, key: nat, value: nat)
    requires capacity > 0
    ensures Stored<nat, nat>([], capacity, key, value) == [Entry(key, value)] && KeepsInverse<nat, nat>([], key, value)
  {
    NothingMore([Entry(key, value)]);
  }

  lemma SecondKey(e: Entry<nat, nat>, key: nat)
    requires e.key != key
    ensures Stored([e], 2, key, e.value) == [Entry(key, e.value), e] && !KeepsInverse([e], key, e.value)
  {
    assert [Entry(key, e.value)] + [e] == [Entry(key, e.value), e];
    assert Find<nat, nat>([], key) == None && [e][..0] == [];
    assert [e][0].value == e.value;
  }

  lemma SecondValue(e: Entry<nat, nat>, value: nat)
    requires e.value != value
    ensures Stored([e], 2, e.key, value) == [Entry(e.key, value)] && !KeepsInverse([e], e.key, value)
  {
    assert Find([e], e.key) == Some(e.value) && Dropped([e], e.key) == [] && [e][..0] == [];
    NothingMore([Entry(e.key, value)]);
  }

  /** A value put under a second key: the value map then no longer tells the entry under the first. */
  method SpoilByKey() returns (c: Lru<nat, nat>)
    ensures c.Valid() && !c.Inverse() && c.Recency() == [Entry(2, 7), Entry(1, 7)]
  {
    c := new Lru(2);
    FirstPut(2, 1, 7);
    c.Put(1, 7);
    SecondKey(Entry(1, 7), 2);
    c.Put(2, 7);
  }

  /** A stored key put with another value: the value map keeps its former value. */
  method SpoilByValue() returns (c: Lru<nat, nat>)
    ensures c.Valid() && !c.Inverse() && c.Recency() == [Entry(1, 8)]
  {
    c := new Lru(2);
    FirstPut(2, 1, 7);
    c.Put(1, 7);
    SecondValue(Entry(1, 7), 8);
    c.Put(1, 8);
  }
}
