/** The operations of `rde::hash_map`: insertion through `emplace`, `insert`
    and `operator[]`, lookup, the three forms of `erase`, `clear`, `reserve`,
    growth and rehashing, assignment and swap. Each operation is a method
    that returns the new table; the key's hash and equality functors are the
    parameters `hf` and `eq`. */
module HashMap {
  import opened Bits
  import opened Probing
  import opened HashNode
  import opened HashTable
  import opened HashIter

  /** A default-constructed map: the shared empty node, capacity 0. */
  function Empty<K, V>(): (t: Table<K, V>)
    ensures |t.slots| == 0 && t.size == 0 && t.numUsed == 0 && Entries(t.slots) == multiset{}
  {
    Table([], 0, 0)
  }

  lemma EmptyInv<K, V>(hf: K -> u32, eq: (K, K) -> bool)
    ensures Inv(Empty<K, V>(), hf, eq)
  {
  }

  /** `m_numUsed * 8 >= m_capacity * 7`: the load test run before an insertion. */
  predicate NeedsGrow<K, V>(t: Table<K, V>)
  {
    t.numUsed * 8 >= |t.slots| * 7
  }

  /** The capacity an insertion leaves: the load test grows the table to the
      initial capacity or to twice its size, and otherwise it keeps its slots. */
  function CapacityAfterLoadTest<K, V>(t: Table<K, V>): nat
  {
    if !NeedsGrow(t) then |t.slots| else if |t.slots| == 0 then INITIAL_CAPACITY else 2 * |t.slots|
  }

  // ----- Lemmas shared by the operations -----

  /** Of two powers of two, the smaller one fits twice into the larger. */
  lemma {:induction false} Pow2Below(a: nat, b: nat)
    requires IsPow2(a) && IsPow2(b) && a < b
    ensures 2 * a <= b
    decreases a
  {
    if a > 1 {
      Pow2Below(a / 2, b / 2);
    }
  }

  lemma MaxCapacityIsPow2()
    ensures IsPow2(MAX_CAPACITY)
  {
    Pow2Thirty();
    assert MAX_CAPACITY == 0x4000_0000 / 4;
  }

  /** Two slot arrays with the same entries hold the same keys. */
  lemma SameEntriesSameKeys<K, V>(s1: seq<Slot<K, V>>, s2: seq<Slot<K, V>>, key: K, eq: (K, K) -> bool)
    requires Entries(s1) == Entries(s2)
    ensures HasKey(s1, key, eq) <==> HasKey(s2, key, eq)
  {
    if HasKey(s1, key, eq) {
      var i :| 0 <= i < |s1| && s1[i].Occupied? && eq(key, s1[i].key);
      SlotInEntries(s1, i);
      InEntries(s2, (s1[i].hash, s1[i].key, s1[i].value));
    }
    if HasKey(s2, key, eq) {
      var i :| 0 <= i < |s2| && s2[i].Occupied? && eq(key, s2[i].key);
      SlotInEntries(s2, i);
      InEntries(s1, (s2[i].hash, s2[i].key, s2[i].value));
    }
  }

  /** Stored hashes are a property of the entries alone. */
  lemma SameEntriesHashes<K, V>(s1: seq<Slot<K, V>>, s2: seq<Slot<K, V>>, hf: K -> u32)
    requires Entries(s1) == Entries(s2) && HashesMasked(s1, hf)
    ensures HashesMasked(s2, hf)
  {
    forall i | 0 <= i < |s2| && s2[i].Occupied?
      ensures s2[i].hash == MaskedHash(hf(s2[i].key))
    {
      SlotInEntries(s2, i);
      InEntries(s1, (s2[i].hash, s2[i].key, s2[i].value));
    }
  }

  /** Slots that are all in use by entries (no tombstones) number as many as
      the entries. */
  lemma NoDeletedCount<K, V>(slots: seq<Slot<K, V>>)
    requires NoDeleted(slots)
    ensures |NonUnusedSet(slots)| == |Entries(slots)| == |OccupiedSet(slots)|
  {
    NoDeletedSets(slots);
    EntriesSize(slots);
  }

  /** An occupied slot is not counted among the occupied slots before it. */
  lemma PrefixOccupied<K, V>(src: seq<Slot<K, V>>, it: nat)
    requires it < |src| && src[it].Occupied?
    ensures |OccupiedSet(src[..it])| < |OccupiedSet(src)|
  {
    var a := OccupiedSet(src[..it]);
    assert a + {it} <= OccupiedSet(src);
    assert it !in a;
    SubsetCard(a + {it}, OccupiedSet(src));
  }

  // ----- rehash, allocate_nodes, grow -----

  /** The inner loop of `rehash`: follow the chain of `h` to its first Unused
      slot. The probe count is bumped before it is added, so the visited slots
      are the probes 0, 1, 2, ... of `h`. */
  method ProbeUnused<K, V>(slots: seq<Slot<K, V>>, h: u32) returns (i: nat, ghost j: nat)
    requires |slots| > 0 && ProbeRoom(slots)
    ensures ChainStop(slots, h, j) && i == Probe(h, j, |slots|)
  {
    var cap := |slots|;
    var mask: nat := cap - 1;
    ProbeFirst(h, cap);
    i := And(h, mask);
    var numProbes: nat := 0;
    while !slots[i].Unused?
      invariant numProbes < cap && i == Probe(h, numProbes, cap)
      invariant forall m :: 0 <= m < numProbes ==> !slots[Probe(h, m, cap)].Unused?
      decreases cap - numProbes
    {
      ChainBound(slots, h, numProbes);
      ProbeAdvance(h, numProbes, cap, i);
      numProbes := numProbes + 1;
      i := And(i + numProbes, mask);
    }
    j := numProbes;
  }

  /** Placing entry number `it` of `src` keeps the keys of `r` distinct when
      the keys of `src` are and `r` holds exactly the earlier entries. */
  lemma RehashUnique<K, V>(r: seq<Slot<K, V>>, src: seq<Slot<K, V>>, it: nat, i: nat, eq: (K, K) -> bool)
    requires it < |src| && src[it].Occupied? && i < |r| && r[i].Unused?
    requires Entries(r) == Entries(src[..it])
    requires UniqueKeys(src, eq) && UniqueKeys(r, eq)
    ensures UniqueKeys(r[i := src[it]], eq)
  {
    var r' := r[i := src[it]];
    forall q | 0 <= q < |r| && q != i && r[q].Occupied?
      ensures !eq(src[it].key, r[q].key) && !eq(r[q].key, src[it].key)
    {
      var e := (r[q].hash, r[q].key, r[q].value);
      SlotInEntries(r, q);
      InEntries(src[..it], e);
      var s :| 0 <= s < it && src[..it][s] == Occupied(e.0, e.1, e.2);
      assert src[s] == r[q];
    }
  }

  /** Before entry number `it` of `src` is placed, `r` still has an Unused slot. */
  lemma RehashRoom<K, V>(r: seq<Slot<K, V>>, src: seq<Slot<K, V>>, it: nat)
    requires it < |src| && src[it].Occupied?
    requires NoDeleted(r) && Entries(r) == Entries(src[..it])
    requires |r| == 0 ==> |OccupiedSet(src)| == 0
    requires |r| > 0 ==> IsPow2(|r|) && |OccupiedSet(src)| < |r|
    ensures |r| > 0 && ProbeRoom(r)
  {
    PrefixOccupied(src, it);
    NoDeletedCount(r);
    EntriesSize(src[..it]);
  }

  /** Placing entry number `it` of `src` at the end of its chain in `r` keeps
      the loop invariant of `rehash`. */
  lemma RehashPlace<K, V>(r: seq<Slot<K, V>>, src: seq<Slot<K, V>>, it: nat, i: nat, j: nat, eq: (K, K) -> bool)
    requires it < |src| && src[it].Occupied?
    requires NoDeleted(r) && Entries(r) == Entries(src[..it]) && ChainOK(r)
    requires UniqueKeys(src, eq) ==> UniqueKeys(r, eq)
    requires ChainStop(r, src[it].hash, j) && i == Probe(src[it].hash, j, |r|)
    ensures NoDeleted(r[i := src[it]]) && Entries(r[i := src[it]]) == Entries(src[..it + 1])
    ensures ChainOK(r[i := src[it]])
    ensures UniqueKeys(src, eq) ==> UniqueKeys(r[i := src[it]], eq)
  {
    EntriesPrefix(src, it);
    ChainAfterWrite(r, i, src[it], j);
    if UniqueKeys(src, eq) {
      RehashUnique(r, src, it, i, eq);
    }
    EntriesUpdate(r, i, src[it]);
  }

  /** What `rehash` leaves in the new array: exactly the entries of the old
      one, no tombstones, every entry on its probe chain, and keys as unique
      as they were. */
  ghost predicate Rehashed<K, V>(r: seq<Slot<K, V>>, src: seq<Slot<K, V>>, eq: (K, K) -> bool)
  {
    NoDeleted(r) && Entries(r) == Entries(src) && ChainOK(r) && (UniqueKeys(src, eq) ==> UniqueKeys(r, eq))
  }

  /** `rehash`: move every occupied slot of `src`, in slot order, to the first
      Unused slot of its chain in `dst`, keeping its stored hash. `dst` is a
      freshly allocated or cleared array. Moving out of the old array and
      destroying it (the `destruct_original` flag) is object lifetime, which
      this value model does not track. */
  method Rehash<K, V>(dst: seq<Slot<K, V>>, src: seq<Slot<K, V>>, ghost eq: (K, K) -> bool)
    returns (r: seq<Slot<K, V>>)
    requires forall k :: 0 <= k < |dst| ==> dst[k].Unused?
    requires |dst| == 0 ==> |OccupiedSet(src)| == 0
    requires |dst| > 0 ==> IsPow2(|dst|) && |OccupiedSet(src)| < |dst|
    ensures |r| == |dst|
    ensures Rehashed(r, src, eq)
  {
    r := dst;
    EntriesNoOccupied(dst);
    var it := 0;
    while it < |src|
      invariant 0 <= it <= |src| && |r| == |dst|
      invariant NoDeleted(r)
      invariant Entries(r) == Entries(src[..it])
      invariant ChainOK(r)
      invariant UniqueKeys(src, eq) ==> UniqueKeys(r, eq)
    {
      if src[it].Occupied? {
        RehashRoom(r, src, it);
        var i, j := ProbeUnused(r, src[it].hash);
        RehashPlace(r, src, it, i, j, eq);
        r := r[i := src[it]];
      } else {
        EntriesPrefix(src, it);
      }
      it := it + 1;
    }
    EntriesFull(src);
  }

  /** `grow(int)`: rehash into a fresh array of `newCap` slots. Tombstones are
      dropped, so `m_numUsed` becomes `m_size`. */
  method GrowTo<K, V>(t: Table<K, V>, newCap: nat, ghost hf: K -> u32, ghost eq: (K, K) -> bool)
    returns (t': Table<K, V>)
    requires Counters(t) && ValidCapacity(newCap) && newCap > 0 && t.size < newCap
    ensures |t'.slots| == newCap && NoDeleted(t'.slots)
    ensures Entries(t'.slots) == Entries(t.slots)
    ensures t'.size == t.size && t'.numUsed == t.size
    ensures Counters(t')
    ensures Inv(t, hf, eq) ==> Inv(t', hf, eq)
  {
    var nodes := AllocateNodes<K, V>(newCap);
    var slots := Rehash(nodes, t.slots, eq);
    t' := Table(slots, t.size, t.size);
    NoDeletedCount(slots);
    EntriesSize(t.slots);
    if Inv(t, hf, eq) {
      SameEntriesHashes(t.slots, slots, hf);
    }
  }

  /** `grow()`: the initial 64 slots, or twice the current capacity. */
  method Grow<K, V>(t: Table<K, V>, ghost hf: K -> u32, ghost eq: (K, K) -> bool)
    returns (t': Table<K, V>)
    requires Counters(t) && |t.slots| < MAX_CAPACITY
    ensures |t'.slots| == (if |t.slots| == 0 then INITIAL_CAPACITY else 2 * |t.slots|)
    ensures NoDeleted(t'.slots) && Entries(t'.slots) == Entries(t.slots)
    ensures t'.size == t.size && t'.numUsed == t.size
    ensures Counters(t')
    ensures Inv(t, hf, eq) ==> Inv(t', hf, eq)
  {
    var newCap := if |t.slots| == 0 then INITIAL_CAPACITY else 2 * |t.slots|;
    if |t.slots| > 0 {
      MaxCapacityIsPow2();
      Pow2Below(|t.slots|, MAX_CAPACITY);
      DoublePow2(|t.slots|);
      OccupiedWithin(t.slots);
    } else {
      assert IsPow2(INITIAL_CAPACITY) by {
        Pow2IsPow2(6);
      }
    }
    t' := GrowTo(t, newCap, hf, eq);
  }

  lemma InitialCapacityValid()
    ensures ValidCapacity(INITIAL_CAPACITY) && IsPow2(INITIAL_CAPACITY)
  {
    Pow2IsPow2(6);
    assert Pow2(6) == INITIAL_CAPACITY;
  }

  /** Below the load limit a table has room for one more slot in use. */
  lemma LoadRoom<K, V>(t: Table<K, V>)
    requires Counters(t) && !NeedsGrow(t)
    ensures |t.slots| > 0 && t.numUsed + 1 < |t.slots|
  {
  }

  /** After `grow()` the same holds: only the entries are in use, and the
      capacity at least doubled. */
  lemma GrowRoom<K, V>(t: Table<K, V>, t1: Table<K, V>)
    requires Counters(t) && Counters(t1) && t1.numUsed == t.size
    requires |t1.slots| == (if |t.slots| == 0 then INITIAL_CAPACITY else 2 * |t.slots|)
    ensures |t1.slots| > 0 && t1.numUsed + 1 < |t1.slots|
  {
    OccupiedWithin(t.slots);
  }

  // ----- emplace_at, emplace, insert, insert_at, operator[] -----

  /** Filling a free slot at the end of (or on a tombstone of) the new key's
      chain keeps the invariant, when the key is absent and there is room. */
  lemma FillKeepsInv<K(!new), V>(t: Table<K, V>, t': Table<K, V>, p: nat, j: nat, key: K, value: V,
                                 hf: K -> u32, eq: (K, K) -> bool)
    requires Inv(t, hf, eq) && KeyEquality(hf, eq)
    requires p < |t.slots| && !t.slots[p].Occupied? && t.numUsed + 1 < |t.slots|
    requires ReachableAt(t.slots, MaskedHash(hf(key)), p, j) && !HasKey(t.slots, key, eq)
    requires t'.slots == t.slots[p := Occupied(MaskedHash(hf(key)), key, value)]
    requires t'.size == t.size + 1 && t'.numUsed == t.numUsed + (if t.slots[p].Unused? then 1 else 0)
    ensures Inv(t', hf, eq)
  {
    var x := Occupied(MaskedHash(hf(key)), key, value);
    FillSets(t.slots, p, x);
    ChainAfterWrite(t.slots, p, x, j);
    forall q | 0 <= q < |t.slots| && q != p && t.slots[q].Occupied?
      ensures !eq(key, t.slots[q].key) && !eq(t.slots[q].key, key)
    {
    }
  }

  /** `emplace_at`: an occupied slot is returned untouched; otherwise the entry
      is constructed there, `m_numUsed` grows if the slot was Unused (not when
      it reuses a tombstone) and `m_size` grows. */
  method EmplaceAt<K, V>(t: Table<K, V>, n: nat, hash: u32, key: K, value: V)
    returns (t': Table<K, V>, pos: nat, inserted: bool)
    requires Counters(t) && n < |t.slots| && hash < DELETED_HASH
    ensures pos == n && (inserted <==> !t.slots[n].Occupied?)
    ensures !inserted ==> t' == t
    ensures inserted ==> t'.slots == t.slots[n := Occupied(hash, key, value)] && t'.size == t.size + 1
    ensures inserted ==> t'.numUsed == t.numUsed + (if t.slots[n].Unused? then 1 else 0)
    ensures inserted ==> Entries(t'.slots) == Entries(t.slots) + multiset{(hash, key, value)}
    ensures t'.size == |OccupiedSet(t'.slots)| && |NonUnusedSet(t'.slots)| <= t'.numUsed
  {
    pos := n;
    if t.slots[n].Occupied? {
      return t, pos, false;
    }
    var x := Occupied(hash, key, value);
    FillSets(t.slots, n, x);
    EntriesUpdate(t.slots, n, x);
    var used := if t.slots[n].Unused? then t.numUsed + 1 else t.numUsed;
    t' := Table(t.slots[n := x], t.size + 1, used);
    inserted := true;
  }

  /** `emplace` (and `insert`, which forwards to it): grow first when the load
      limit is reached, then find the key's slot; insert the entry when the key
      is new, otherwise leave the map as it is and return the existing entry. */
  method Emplace<K(!new), V>(t: Table<K, V>, key: K, value: V, hf: K -> u32, eq: (K, K) -> bool)
    returns (t': Table<K, V>, pos: nat, inserted: bool)
    requires Inv(t, hf, eq) && KeyEquality(hf, eq)
    requires NeedsGrow(t) ==> |t.slots| < MAX_CAPACITY
    ensures Inv(t', hf, eq)
    ensures pos < |t'.slots| && t'.slots[pos].Occupied? && eq(key, t'.slots[pos].key)
    ensures inserted <==> !HasKey(t.slots, key, eq)
    ensures inserted ==> t'.slots[pos] == Occupied(MaskedHash(hf(key)), key, value) && t'.size == t.size + 1
    ensures inserted ==> Entries(t'.slots) == Entries(t.slots) + multiset{(MaskedHash(hf(key)), key, value)}
    ensures !inserted ==> Entries(t'.slots) == Entries(t.slots) && t'.size == t.size
    ensures |t'.slots| == CapacityAfterLoadTest(t)
    ensures !inserted && !NeedsGrow(t) ==> t' == t
    ensures NeedsGrow(t) ==> t'.numUsed == t'.size
  {
    var t1 := t;
    if NeedsGrow(t) {
      t1 := Grow(t, hf, eq);
      SameEntriesSameKeys(t.slots, t1.slots, key, eq);
      GrowRoom(t, t1);
    } else {
      LoadRoom(t);
    }
    CountersRoom(t1);
    var n, hash, j, stop := FindForInsert(t1, key, hf, eq);
    MaskedHashReadsOccupied(hf(key));
    t', pos, inserted := EmplaceAt(t1, n.value, hash, key, value);
    if inserted {
      assert NeedsGrow(t) ==> t1.slots[n.value].Unused?;
      ChainSearchComplete(t1, hf, eq, key, stop);
      FillKeepsInv(t1, t', pos, j, key, value, hf, eq);
    }
  }

  method Insert<K(!new), V>(t: Table<K, V>, key: K, value: V, hf: K -> u32, eq: (K, K) -> bool)
    returns (t': Table<K, V>, pos: nat, inserted: bool)
    requires Inv(t, hf, eq) && KeyEquality(hf, eq)
    requires NeedsGrow(t) ==> |t.slots| < MAX_CAPACITY
    ensures Inv(t', hf, eq)
    ensures pos < |t'.slots| && t'.slots[pos].Occupied? && eq(key, t'.slots[pos].key)
    ensures inserted <==> !HasKey(t.slots, key, eq)
    ensures inserted ==> Entries(t'.slots) == Entries(t.slots) + multiset{(MaskedHash(hf(key)), key, value)}
    ensures !inserted ==> Entries(t'.slots) == Entries(t.slots)
    ensures |t'.slots| == CapacityAfterLoadTest(t)
    ensures !inserted && !NeedsGrow(t) ==> t' == t
    ensures NeedsGrow(t) ==> t'.numUsed == t'.size
  {
    t', pos, inserted := Emplace(t, key, value, hf, eq);
  }

  /** `insert_at`: insert at the slot `find_for_insert` gave, unless there was
      none (capacity 0) or the load limit is reached, in which case the whole
      `insert` runs again, growing first. */
  method InsertAt<K(!new), V>(t: Table<K, V>, key: K, value: V, n: Option<nat>, hash: u32, ghost j: nat,
                              hf: K -> u32, eq: (K, K) -> bool)
    returns (t': Table<K, V>, pos: nat, inserted: bool)
    requires Inv(t, hf, eq) && KeyEquality(hf, eq)
    requires NeedsGrow(t) ==> |t.slots| < MAX_CAPACITY
    requires n.Some? ==>
      (n.value < |t.slots| && hash == MaskedHash(hf(key)) && !t.slots[n.value].Occupied?
       && ReachableAt(t.slots, hash, n.value, j) && !HasKey(t.slots, key, eq))
    ensures Inv(t', hf, eq)
    ensures pos < |t'.slots| && t'.slots[pos].Occupied? && eq(key, t'.slots[pos].key)
    ensures inserted <==> !HasKey(t.slots, key, eq)
    ensures inserted ==> t'.slots[pos] == Occupied(MaskedHash(hf(key)), key, value) && t'.size == t.size + 1
    ensures inserted ==> Entries(t'.slots) == Entries(t.slots) + multiset{(MaskedHash(hf(key)), key, value)}
    ensures !inserted ==> Entries(t'.slots) == Entries(t.slots) && t'.size == t.size
    ensures |t'.slots| == CapacityAfterLoadTest(t)
    ensures !inserted && !NeedsGrow(t) ==> t' == t
    ensures NeedsGrow(t) ==> t'.numUsed == t'.size
  {
    if n.None? || NeedsGrow(t) {
      t', pos, inserted := Emplace(t, key, value, hf, eq);
      return;
    }
    LoadRoom(t);
    MaskedHashReadsOccupied(hf(key));
    t', pos, inserted := EmplaceAt(t, n.value, hash, key, value);
    FillKeepsInv(t, t', pos, j, key, value, hf, eq);
  }

  /** `operator[]`: the entry for `key`, inserted with the default value
      `dflt` (the source's `TValue()`) when the key is absent. */
  method Subscript<K(!new), V>(t: Table<K, V>, key: K, dflt: V, hf: K -> u32, eq: (K, K) -> bool)
    returns (t': Table<K, V>, pos: nat)
    requires Inv(t, hf, eq) && KeyEquality(hf, eq)
    requires NeedsGrow(t) ==> |t.slots| < MAX_CAPACITY
    ensures Inv(t', hf, eq)
    ensures pos < |t'.slots| && t'.slots[pos].Occupied? && eq(key, t'.slots[pos].key)
    ensures HasKey(t.slots, key, eq) ==> t' == t
    ensures !HasKey(t.slots, key, eq) ==>
      t'.slots[pos] == Occupied(MaskedHash(hf(key)), key, dflt) && t'.size == t.size + 1
      && Entries(t'.slots) == Entries(t.slots) + multiset{(MaskedHash(hf(key)), key, dflt)}
    ensures !HasKey(t.slots, key, eq) ==> |t'.slots| == CapacityAfterLoadTest(t)
    ensures !HasKey(t.slots, key, eq) && NeedsGrow(t) ==> t'.numUsed == t'.size
  {
    CountersRoom(t);
    var n, hash, j, stop := FindForInsert(t, key, hf, eq);
    if n.None? || !t.slots[n.value].Occupied? {
      if n.Some? {
        ChainSearchComplete(t, hf, eq, key, stop);
      }
      var inserted;
      t', pos, inserted := InsertAt(t, key, dflt, n, hash, j, hf, eq);
    } else {
      t', pos := t, n.value;
    }
  }

  // ----- find, erase -----

  /** `find`: the iterator of the entry with an equal key, or `end()`. */
  method Find<K(!new), V>(t: Table<K, V>, key: K, hf: K -> u32, eq: (K, K) -> bool) returns (it: nat)
    requires Inv(t, hf, eq) && KeyEquality(hf, eq)
    ensures it <= End(t)
    ensures it < End(t) <==> HasKey(t.slots, key, eq)
    ensures it < End(t) ==> t.slots[it].Occupied? && eq(key, t.slots[it].key)
  {
    CountersRoom(t);
    ghost var j;
    it, j := Lookup(t, key, hf, eq);
    if it == |t.slots| && |t.slots| > 0 {
      ChainSearchComplete(t, hf, eq, key, j);
    }
  }

  /** Turning an occupied slot into a tombstone keeps the invariant. */
  lemma TombstoneKeepsInv<K, V>(t: Table<K, V>, t': Table<K, V>, p: nat, hf: K -> u32, eq: (K, K) -> bool)
    requires Inv(t, hf, eq) && p < |t.slots| && t.slots[p].Occupied?
    requires t'.slots == t.slots[p := Deleted] && t'.size + 1 == t.size && t'.numUsed == t.numUsed
    ensures Inv(t', hf, eq)
  {
    TombstoneSets(t.slots, p);
    ChainAfterWrite(t.slots, p, Deleted, 0);
  }

  /** `erase_node`: destroy the entry and leave a tombstone. `m_numUsed` is
      unchanged: the slot stays in use for the probe chains through it. */
  method EraseNode<K, V>(t: Table<K, V>, p: nat) returns (t': Table<K, V>)
    requires Counters(t) && p < |t.slots| && t.slots[p].Occupied?
    ensures t'.slots == t.slots[p := Deleted] && t'.size + 1 == t.size && t'.numUsed == t.numUsed
    ensures Counters(t')
    ensures Entries(t'.slots) + multiset{(t.slots[p].hash, t.slots[p].key, t.slots[p].value)} == Entries(t.slots)
  {
    TombstoneSets(t.slots, p);
    EntriesUpdate(t.slots, p, Deleted);
    t' := Table(t.slots[p := Deleted], t.size - 1, t.numUsed);
  }

  /** Two keys equal to a third are equal to each other. */
  lemma EqualToSame<K(!new)>(a: K, b: K, c: K, hf: K -> u32, eq: (K, K) -> bool)
    requires KeyEquality(hf, eq)
    ensures eq(a, b) && eq(a, c) ==> eq(b, c)
  {
  }

  /** After removing the slot of `key`, no equal key is left. */
  lemma EraseRemovesKey<K(!new), V>(slots: seq<Slot<K, V>>, p: nat, key: K, hf: K -> u32, eq: (K, K) -> bool)
    requires UniqueKeys(slots, eq) && KeyEquality(hf, eq)
    requires p < |slots| && slots[p].Occupied? && eq(key, slots[p].key)
    ensures !HasKey(slots[p := Deleted], key, eq)
  {
    forall q | 0 <= q < |slots| && q != p && slots[q].Occupied?
      ensures !eq(key, slots[q].key)
    {
      EqualToSame(key, slots[p].key, slots[q].key, hf, eq);
    }
  }

  /** `erase(key)`: remove the entry with an equal key, if any, and report
      how many entries were removed. */
  method Erase<K(!new), V>(t: Table<K, V>, key: K, hf: K -> u32, eq: (K, K) -> bool)
    returns (t': Table<K, V>, count: int, ghost p: nat)
    requires Inv(t, hf, eq) && KeyEquality(hf, eq)
    ensures count == (if HasKey(t.slots, key, eq) then 1 else 0)
    ensures count == 0 ==> t' == t
    ensures count == 1 ==>
      (p < |t.slots| && t.slots[p].Occupied? && eq(key, t.slots[p].key)
       && t'.slots == t.slots[p := Deleted] && t'.size + 1 == t.size && t'.numUsed == t.numUsed
       && Entries(t'.slots) + multiset{(t.slots[p].hash, t.slots[p].key, t.slots[p].value)} == Entries(t.slots))
    ensures !HasKey(t'.slots, key, eq)
    ensures Inv(t', hf, eq)
  {
    CountersRoom(t);
    var n, j := Lookup(t, key, hf, eq);
    if n != |t.slots| && t.slots[n].Occupied? {
      t' := EraseNode(t, n);
      TombstoneKeepsInv(t, t', n, hf, eq);
      EraseRemovesKey(t.slots, n, key, hf, eq);
      count, p := 1, n;
    } else {
      if |t.slots| > 0 {
        ChainSearchComplete(t, hf, eq, key, j);
      }
      t', count, p := t, 0, 0;
    }
  }

  /** `erase(iterator)`: erase the entry the iterator points at; the end
      iterator erases nothing. */
  method EraseAt<K, V>(t: Table<K, V>, it: nat) returns (t': Table<K, V>)
    requires Counters(t) && it <= End(t) && (it < End(t) ==> t.slots[it].Occupied?)
    ensures it == End(t) ==> t' == t
    ensures it < End(t) ==>
      (t'.slots == t.slots[it := Deleted] && t'.size + 1 == t.size && t'.numUsed == t.numUsed
       && Entries(t'.slots) + multiset{(t.slots[it].hash, t.slots[it].key, t.slots[it].value)} == Entries(t.slots))
    ensures Counters(t')
  {
    t' := t;
    if it != End(t) {
      t' := EraseNode(t, it);
    }
  }

  /** After erasing the occupied slots of [from, it): those slots are
      tombstones and every other slot is as before. */
  ghost predicate ErasedBetween<K, V>(t: Table<K, V>, t': Table<K, V>, from: nat, it: nat)
    requires from <= it <= |t.slots|
  {
    && |t'.slots| == |t.slots| && t'.numUsed == t.numUsed
    && (forall k {:trigger ErasedSlot(t.slots, t'.slots, from, it, k)} :: 0 <= k < |t.slots| ==> ErasedSlot(t.slots, t'.slots, from, it, k))
  }

  /** Slot k after erasing [from, it): a tombstone if it was occupied inside
      the range, unchanged otherwise. */
  ghost predicate ErasedSlot<K, V>(s: seq<Slot<K, V>>, s': seq<Slot<K, V>>, from: nat, it: nat, k: nat)
    requires k < |s| && |s'| == |s|
  {
    s'[k] == (if from <= k < it && s[k].Occupied? then Deleted else s[k])
  }

  /** Erasing the occupied slots of [lo, hi) removes exactly the range's
      entries. */
  lemma {:induction false} ErasedEntries<K, V>(s: seq<Slot<K, V>>, s': seq<Slot<K, V>>, lo: nat, hi: nat)
    requires lo <= hi <= |s| == |s'|
    requires forall k {:trigger ErasedSlot(s, s', lo, hi, k)} :: 0 <= k < |s| ==> ErasedSlot(s, s', lo, hi, k)
    ensures Entries(s') + Entries(s[lo..hi]) == Entries(s)
    decreases hi - lo
  {
    if lo == hi {
      ErasedNothing(s, s', lo);
    } else {
      ErasedShrink(s, s', lo, hi);
      ErasedEntries(s, s'[hi - 1 := s[hi - 1]], lo, hi - 1);
      ErasedEntriesLast(s, s', lo, hi);
    }
  }

  /** Erasing an empty range changes nothing. */
  lemma ErasedNothing<K, V>(s: seq<Slot<K, V>>, s': seq<Slot<K, V>>, lo: nat)
    requires lo <= |s| == |s'|
    requires forall k {:trigger ErasedSlot(s, s', lo, lo, k)} :: 0 <= k < |s| ==> ErasedSlot(s, s', lo, lo, k)
    ensures s' == s && Entries(s') + Entries(s[lo..lo]) == Entries(s)
  {
    EntriesNoOccupied(s[lo..lo]);
    forall k | 0 <= k < |s|
      ensures s'[k] == s[k]
    {
      assert ErasedSlot(s, s', lo, lo, k);
    }
  }

  /** Restoring the range's last slot gives the erasure of the shorter range. */
  lemma ErasedShrink<K, V>(s: seq<Slot<K, V>>, s': seq<Slot<K, V>>, lo: nat, hi: nat)
    requires lo < hi <= |s| == |s'|
    requires forall k {:trigger ErasedSlot(s, s', lo, hi, k)} :: 0 <= k < |s| ==> ErasedSlot(s, s', lo, hi, k)
    ensures ErasedSlot(s, s', lo, hi, hi - 1)
    ensures forall k {:trigger ErasedSlot(s, s'[hi - 1 := s[hi - 1]], lo, hi - 1, k)} :: 0 <= k < |s| ==> ErasedSlot(s, s'[hi - 1 := s[hi - 1]], lo, hi - 1, k)
  {
    var mid, last := s'[hi - 1 := s[hi - 1]], hi - 1;
    forall k | 0 <= k < |s|
      ensures ErasedSlot(s, mid, lo, last, k)
    {
      assert ErasedSlot(s, s', lo, hi, k);
    }
    assert ErasedSlot(s, s', lo, hi, hi - 1);
  }

  /** The inductive step of `ErasedEntries`: put the range's last slot back
      into the tombstoned sequence and account for its entry. */
  lemma ErasedEntriesLast<K, V>(s: seq<Slot<K, V>>, s': seq<Slot<K, V>>, lo: nat, hi: nat)
    requires lo < hi <= |s| == |s'|
    requires ErasedSlot(s, s', lo, hi, hi - 1)
    requires Entries(s'[hi - 1 := s[hi - 1]]) + Entries(s[lo..hi - 1]) == Entries(s)
    ensures Entries(s') + Entries(s[lo..hi]) == Entries(s)
  {
    var last := hi - 1;
    var mid := s'[last := s[last]];
    assert Entries(s[lo..hi]) == Entries(s[lo..last]) + EntryOf(s[last]) by {
      EntriesRangeStep(s, lo, last, hi);
    }
    assert Entries(s') + EntryOf(s[last]) == Entries(mid) by {
      EntriesUpdate(mid, last, s'[last]);
      assert mid[last := s'[last]] == s';
      assert EntryOf(s'[last]) == multiset{};
    }
    MultisetMoveLast(Entries(s'), Entries(mid), Entries(s[lo..last]), EntryOf(s[last]), Entries(s), Entries(s[lo..hi]));
  }

  /** Moving one entry from the map to the erased range keeps their sum. */
  lemma MultisetMoveLast<T>(kept: multiset<T>, mid: multiset<T>, before: multiset<T>, e: multiset<T>, all: multiset<T>, range: multiset<T>)
    requires kept + e == mid && mid + before == all && range == before + e
    ensures kept + range == all
  {
    calc {
      kept + range;
      kept + (before + e);
      (kept + e) + before;
      mid + before;
    }
  }

  /** One iteration of `erase(from, to)`: erase the occupied slot `it`, then
      step to the next occupied slot. */
  lemma EraseRangeStep<K, V>(t: Table<K, V>, prev: Table<K, V>, cur: Table<K, V>, from: nat, it: nat, next: nat)
    requires from <= it < next <= |t.slots| && t.slots[it].Occupied?
    requires ErasedBetween(t, prev, from, it)
    requires cur.slots == prev.slots[it := Deleted] && cur.numUsed == prev.numUsed
    requires forall m :: it < m < next ==> !cur.slots[m].Occupied?
    ensures ErasedBetween(t, cur, from, next)
  {
    forall k | 0 <= k < |t.slots|
      ensures ErasedSlot(t.slots, cur.slots, from, next, k)
    {
      assert ErasedSlot(t.slots, prev.slots, from, it, k);
    }
  }

  /** One pass of the `erase(from, to)` loop body: erase the slot the
      iterator is at (it is occupied in the original table) and advance. */
  method EraseRangeIteration<K, V>(t: Table<K, V>, cur: Table<K, V>, from: nat, it: nat, to: nat)
    returns (cur': Table<K, V>, next: nat)
    requires from <= it < to <= End(t) && t.slots[it].Occupied?
    requires to < End(t) ==> t.slots[to].Occupied?
    requires ErasedBetween(t, cur, from, it) && Counters(cur)
    ensures it < next <= to
    ensures next < End(t) ==> t.slots[next].Occupied?
    ensures ErasedBetween(t, cur', from, next) && Counters(cur')
    ensures cur'.slots == cur.slots[it := Deleted] && cur'.size + 1 == cur.size && cur'.numUsed == cur.numUsed
  {
    assert ErasedSlot(t.slots, cur.slots, from, it, it);
    cur' := EraseNode(cur, it);
    next := Next(cur', it);
    assert next <= to by {
      if to < End(t) {
        assert ErasedSlot(t.slots, cur.slots, from, it, to);
        assert cur'.slots[to].Occupied?;
      }
    }
    assert next < End(t) ==> t.slots[next].Occupied? by {
      if next < End(t) {
        assert ErasedSlot(t.slots, cur.slots, from, it, next);
      }
    }
    EraseRangeStep(t, cur, cur', from, it, next);
  }

  /** The counters after erasing a range: the size drops by the number of
      occupied slots in it. */
  lemma ErasedSize<K, V>(t: Table<K, V>, t': Table<K, V>, from: nat, to: nat)
    requires Counters(t) && from <= to <= |t.slots|
    requires ErasedBetween(t, t', from, to)
    requires t'.size == |OccupiedSet(t'.slots)|
    ensures t'.size + |OccupiedSet(t.slots[from..to])| == t.size
  {
    ErasedEntries(t.slots, t'.slots, from, to);
    EntriesSize(t.slots);
    EntriesSize(t'.slots);
    EntriesSize(t.slots[from..to]);
  }

  /** `erase(from, to)`: walk the iterator from `from` to `to`, erasing every
      occupied slot it stops at. Both ends are valid iterators: an occupied
      slot or the end. */
  method EraseRange<K, V>(t: Table<K, V>, from: nat, to: nat, ghost hf: K -> u32, ghost eq: (K, K) -> bool)
    returns (t': Table<K, V>)
    requires Counters(t) && from <= to <= End(t)
    requires from < End(t) ==> t.slots[from].Occupied?
    requires to < End(t) ==> t.slots[to].Occupied?
    ensures ErasedBetween(t, t', from, to)
    ensures t'.size + |OccupiedSet(t.slots[from..to])| == t.size
    ensures Counters(t')
    ensures Inv(t, hf, eq) ==> Inv(t', hf, eq)
    ensures Entries(t'.slots) + Entries(t.slots[from..to]) == Entries(t.slots)
  {
    t' := t;
    var it := from;
    while it != to
      invariant from <= it <= to
      invariant it < End(t) ==> t.slots[it].Occupied?
      invariant ErasedBetween(t, t', from, it)
      invariant Counters(t')
      invariant Inv(t, hf, eq) ==> Inv(t', hf, eq)
    {
      var prev, p := t', it;
      assert ErasedSlot(t.slots, prev.slots, from, p, p);
      t', it := EraseRangeIteration(t, prev, from, it, to);
      if Inv(t, hf, eq) {
        TombstoneKeepsInv(prev, t', p, hf, eq);
      }
    }
    ErasedEntries(t.slots, t'.slots, from, to);
    ErasedSize(t, t', from, to);
  }

  // ----- clear, reserve, assignment, swap, constructors -----

  /** `clear`: every slot back to Unused, both counters to 0; the capacity
      is kept. */
  function Clear<K, V>(t: Table<K, V>): (r: Table<K, V>)
    ensures |r.slots| == |t.slots| && r.size == 0 && r.numUsed == 0
    ensures Entries(r.slots) == multiset{}
  {
    var s := AllocateNodes<K, V>(|t.slots|);
    EntriesNoOccupied(s);
    Table(s, 0, 0)
  }

  lemma ClearInv<K, V>(t: Table<K, V>, hf: K -> u32, eq: (K, K) -> bool)
    requires ValidCapacity(|t.slots|)
    ensures Inv(Clear(t), hf, eq)
    ensures forall key :: !HasKey(Clear(t).slots, key, eq)
  {
    AllUnusedSets(Clear(t).slots);
  }

  lemma ClearIdempotent<K, V>(t: Table<K, V>)
    ensures Clear(Clear(t)) == Clear(t)
  {
  }

  /** `reserve`: double a capacity (64 for an empty map) until it reaches
      `minSize`, and grow to it if that is more than the current capacity. */
  method Reserve<K, V>(t: Table<K, V>, minSize: int, ghost hf: K -> u32, ghost eq: (K, K) -> bool)
    returns (t': Table<K, V>)
    requires Counters(t) && minSize <= MAX_CAPACITY
    ensures Counters(t') && |t'.slots| > 0
    ensures |t'.slots| >= minSize && |t'.slots| >= |t.slots|
    ensures |t'.slots| == (if |t.slots| == 0 then INITIAL_CAPACITY else |t.slots|) || |t'.slots| / 2 < minSize
    ensures |t'.slots| == |t.slots| ==> t' == t
    ensures Entries(t'.slots) == Entries(t.slots) && t'.size == t.size
    ensures Inv(t, hf, eq) ==> Inv(t', hf, eq)
  {
    InitialCapacityValid();
    MaxCapacityIsPow2();
    var newCapacity := if |t.slots| == 0 then INITIAL_CAPACITY else |t.slots|;
    while newCapacity < minSize
      invariant IsPow2(newCapacity) && INITIAL_CAPACITY <= newCapacity <= MAX_CAPACITY
      invariant newCapacity >= |t.slots|
      invariant newCapacity == (if |t.slots| == 0 then INITIAL_CAPACITY else |t.slots|) || newCapacity / 2 < minSize
      decreases MAX_CAPACITY - newCapacity
    {
      Pow2Below(newCapacity, MAX_CAPACITY);
      DoublePow2(newCapacity);
      newCapacity := newCapacity * 2;
    }
    if newCapacity > |t.slots| {
      OccupiedWithin(t.slots);
      t' := GrowTo(t, newCapacity, hf, eq);
    } else {
      t' := t;
    }
  }

  /** `operator=`: clear this map, reallocate when its capacity is below the
      other's, rehash the other's entries in and copy both counters. The
      capacity becomes the larger of the two. */
  method Assign<K, V>(t: Table<K, V>, rhs: Table<K, V>, ghost hf: K -> u32, ghost eq: (K, K) -> bool)
    returns (t': Table<K, V>)
    requires Counters(t) && Counters(rhs)
    ensures |t'.slots| == (if |t.slots| < |rhs.slots| then |rhs.slots| else |t.slots|)
    ensures Entries(t'.slots) == Entries(rhs.slots)
    ensures t'.size == rhs.size && t'.numUsed == rhs.numUsed
    ensures Counters(t')
    ensures Inv(rhs, hf, eq) ==> Inv(t', hf, eq)
  {
    var cleared := Clear(t);
    var nodes := cleared.slots;
    if |cleared.slots| < |rhs.slots| {
      nodes := AllocateNodes(|rhs.slots|);
    }
    OccupiedWithin(rhs.slots);
    var slots := Rehash(nodes, rhs.slots, eq);
    t' := Table(slots, rhs.size, rhs.numUsed);
    NoDeletedCount(slots);
    EntriesSize(rhs.slots);
    if Inv(rhs, hf, eq) {
      SameEntriesHashes(rhs.slots, slots, hf);
    }
  }

  /** `swap`: exchange the whole state of two maps. */
  method Swap<K, V>(a: Table<K, V>, b: Table<K, V>, ghost hf: K -> u32, ghost eq: (K, K) -> bool)
    returns (a': Table<K, V>, b': Table<K, V>)
    ensures Entries(a'.slots) == Entries(b.slots) && Entries(b'.slots) == Entries(a.slots)
    ensures a'.size == b.size && b'.size == a.size
    ensures |a'.slots| == |b.slots| && a'.numUsed == b.numUsed
    ensures |b'.slots| == |a.slots| && b'.numUsed == a.numUsed
    ensures (Inv(a, hf, eq) ==> Inv(b', hf, eq)) && (Inv(b, hf, eq) ==> Inv(a', hf, eq))
  {
    a', b' := b, a;
  }

  /** `hash_map(initial_bucket_count)`: an empty map that has reserved room. */
  method WithBuckets<K, V>(initialBucketCount: int, ghost hf: K -> u32, ghost eq: (K, K) -> bool)
    returns (t: Table<K, V>)
    requires initialBucketCount <= MAX_CAPACITY
    ensures Inv(t, hf, eq) && t.size == 0 && Entries(t.slots) == multiset{}
    ensures |t.slots| >= initialBucketCount && |t.slots| >= INITIAL_CAPACITY
    ensures |t.slots| == INITIAL_CAPACITY || |t.slots| / 2 < initialBucketCount
  {
    EmptyInv<K, V>(hf, eq);
    t := Reserve(Empty(), initialBucketCount, hf, eq);
  }

  /** The copy constructor: assignment into a default-constructed map. */
  method CopyOf<K, V>(rhs: Table<K, V>, ghost hf: K -> u32, ghost eq: (K, K) -> bool)
    returns (t: Table<K, V>)
    requires Inv(rhs, hf, eq)
    ensures Inv(t, hf, eq) && |t.slots| == |rhs.slots|
    ensures Entries(t.slots) == Entries(rhs.slots) && t.size == rhs.size
  {
    EmptyInv<K, V>(hf, eq);
    t := Assign(Empty(), rhs, hf, eq);
  }

  /** `invariant()`: the capacity passes the power-of-two test
      `c & (c - 1) == 0` and at least `size` slots have been used. */
  lemma CountersMeetSourceInvariant<K, V>(t: Table<K, V>)
    requires Counters(t)
    ensures |t.slots| > 0 ==> And(|t.slots|, |t.slots| - 1) == 0
    ensures t.numUsed >= t.size
  {
    if |t.slots| > 0 {
      AndLowMask(|t.slots|, |t.slots|);
    }
    OccupiedWithin(t.slots);
  }
}
