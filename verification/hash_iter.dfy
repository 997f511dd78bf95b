/** The hash map's forward iterator. An iterator is a slot index; the end
    iterator is the capacity. Incrementing moves past the current slot and
    on to the next occupied one, so a full pass visits exactly the occupied
    slots, in slot order. */
module HashIter {
  import opened HashNode
  import opened HashTable

  /** `move_to_next_occupied_node`: the first occupied slot at or after k, or
      the capacity when there is none. */
  function NextOccupied<K, V>(slots: seq<Slot<K, V>>, k: nat): (r: nat)
    requires k <= |slots|
    ensures k <= r <= |slots|
    ensures r < |slots| ==> slots[r].Occupied?
    ensures forall m :: k <= m < r ==> !slots[m].Occupied?
    decreases |slots| - k
  {
    if k == |slots| || slots[k].Occupied? then k else NextOccupied(slots, k + 1)
  }

  /** `end()`: one past the last slot. */
  function End<K, V>(t: Table<K, V>): nat
  {
    |t.slots|
  }

  /** `begin()`: the first occupied slot, or the end of an empty map. */
  function Begin<K, V>(t: Table<K, V>): (r: nat)
    requires Counters(t)
    ensures r <= End(t)
    ensures r < End(t) ==> t.slots[r].Occupied?
    ensures forall m :: 0 <= m < r ==> !t.slots[m].Occupied?
    ensures r == End(t) <==> t.size == 0
  {
    var r := NextOccupied(t.slots, 0);
    FirstOccupied(t.slots, r);
    r
  }

  lemma FirstOccupied<K, V>(slots: seq<Slot<K, V>>, r: nat)
    requires r <= |slots| && (r < |slots| ==> slots[r].Occupied?)
    requires forall m :: 0 <= m < r ==> !slots[m].Occupied?
    ensures r == |slots| <==> OccupiedSet(slots) == {}
  {
    if r < |slots| {
      assert r in OccupiedSet(slots);
    }
  }

  /** `operator++` on an iterator that is not the end. */
  function Next<K, V>(t: Table<K, V>, it: nat): (r: nat)
    requires it < End(t)
    ensures it < r <= End(t)
    ensures r < End(t) ==> t.slots[r].Occupied?
    ensures forall m :: it < m < r ==> !t.slots[m].Occupied?
  {
    NextOccupied(t.slots, it + 1)
  }

  /** Occupied slots at or after k. */
  ghost function OccupiedFrom<K, V>(slots: seq<Slot<K, V>>, k: nat): set<nat>
  {
    set i: nat | k <= i < |slots| && slots[i].Occupied?
  }

  /** The slots a pass of `++` visits, starting from the first occupied slot at
      or after k and stopping at the end. */
  function Traversal<K, V>(slots: seq<Slot<K, V>>, k: nat): seq<nat>
    requires k <= |slots|
    decreases |slots| - k
  {
    var p := NextOccupied(slots, k);
    if p == |slots| then [] else [p] + Traversal(slots, p + 1)
  }

  /** A pass visits slots in strictly increasing order, so each at most once. */
  lemma {:induction false} TraversalSorted<K, V>(slots: seq<Slot<K, V>>, k: nat)
    requires k <= |slots|
    ensures forall x :: x in Traversal(slots, k) ==> k <= x
    ensures forall a, b :: 0 <= a < b < |Traversal(slots, k)| ==> Traversal(slots, k)[a] < Traversal(slots, k)[b]
    decreases |slots| - k
  {
    var p := NextOccupied(slots, k);
    if p < |slots| {
      TraversalSorted(slots, p + 1);
      var r := Traversal(slots, k);
      var rest := Traversal(slots, p + 1);
      assert r == [p] + rest;
      forall a, b | 0 <= a < b < |r|
        ensures r[a] < r[b]
      {
        assert r[b] == rest[b - 1];
        if a > 0 {
          assert r[a] == rest[a - 1];
        } else {
          assert rest[b - 1] in rest;
        }
      }
    }
  }

  /** A pass visits exactly the occupied slots at or after k. */
  lemma {:induction false} TraversalMembers<K, V>(slots: seq<Slot<K, V>>, k: nat)
    requires k <= |slots|
    ensures forall x :: x in Traversal(slots, k) <==> x in OccupiedFrom(slots, k)
    decreases |slots| - k
  {
    var p := NextOccupied(slots, k);
    if p < |slots| {
      TraversalMembers(slots, p + 1);
      assert Traversal(slots, k) == [p] + Traversal(slots, p + 1);
    }
  }

  /** A pass has as many steps as there are occupied slots at or after k. */
  lemma {:induction false} TraversalLength<K, V>(slots: seq<Slot<K, V>>, k: nat)
    requires k <= |slots|
    ensures |Traversal(slots, k)| == |OccupiedFrom(slots, k)|
    decreases |slots| - k
  {
    var p := NextOccupied(slots, k);
    if p == |slots| {
      assert OccupiedFrom(slots, k) == {};
    } else {
      TraversalLength(slots, p + 1);
      assert OccupiedFrom(slots, k) == {p} + OccupiedFrom(slots, p + 1);
      assert p !in OccupiedFrom(slots, p + 1);
    }
  }

  /** Iterating from `begin()` to `end()` visits exactly the occupied slots,
      `size()` of them, in slot order. */
  lemma FullTraversal<K, V>(t: Table<K, V>)
    requires Counters(t)
    ensures Traversal(t.slots, 0) == Traversal(t.slots, Begin(t))
    ensures forall a, b :: 0 <= a < b < |Traversal(t.slots, 0)| ==> Traversal(t.slots, 0)[a] < Traversal(t.slots, 0)[b]
    ensures forall x :: x in Traversal(t.slots, 0) <==> x in OccupiedSet(t.slots)
    ensures |Traversal(t.slots, 0)| == t.size
  {
    TraversalSorted(t.slots, 0);
    TraversalMembers(t.slots, 0);
    TraversalLength(t.slots, 0);
    assert OccupiedFrom(t.slots, 0) == OccupiedSet(t.slots);
  }
}
