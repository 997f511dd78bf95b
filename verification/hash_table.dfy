/** The state of `rde::hash_map` (its node array and two counters), the
    invariant that every public operation preserves, and the two probing
    searches `find_for_insert` and `lookup` on which the operations build. */
module HashTable {
  import opened Bits
  import opened Probing
  import opened HashNode

  /** `kInitialCapacity`. */
  const INITIAL_CAPACITY: nat := 64

  /** Largest capacity the model admits; `m_capacity * 7` and `m_numUsed * 8`
      are evaluated in `int` and stay in range below 2^29. */
  const MAX_CAPACITY: nat := 0x1000_0000

  datatype Option<T> = None | Some(value: T)

  /** `m_nodes[0 .. m_capacity)`, `m_size` and `m_numUsed`. Capacity 0 is the
      shared empty node the default constructor points at. */
  datatype Table<K, V> = Table(slots: seq<Slot<K, V>>, size: nat, numUsed: nat)

  predicate ValidCapacity(cap: nat)
  {
    cap == 0 || (IsPow2(cap) && INITIAL_CAPACITY <= cap <= MAX_CAPACITY)
  }

  /** The bookkeeping part of the invariant: a power-of-two capacity, `m_size`
      counts the occupied slots, `m_numUsed` bounds the slots that are not Unused
      and stays below the capacity, which is what keeps one Unused slot around
      for every probe loop to stop at. */
  ghost predicate Counters<K, V>(t: Table<K, V>)
  {
    ValidCapacity(|t.slots|)
    && t.size == |OccupiedSet(t.slots)|
    && |NonUnusedSet(t.slots)| <= t.numUsed
    && (|t.slots| == 0 ==> t.numUsed == 0)
    && (|t.slots| > 0 ==> t.numUsed < |t.slots|)
  }

  /** What the map demands of its functors: the equality is an equivalence
      and equal keys hash alike. */
  ghost predicate KeyEquality<K(!new)>(hf: K -> u32, eq: (K, K) -> bool)
  {
    (forall a :: eq(a, a))
    && (forall a, b :: eq(a, b) ==> eq(b, a))
    && (forall a, b, c :: eq(a, b) && eq(b, c) ==> eq(a, c))
    && (forall a, b :: eq(a, b) ==> hf(a) == hf(b))
  }

  /** Every stored hash is the masked hash of its key. */
  ghost predicate HashesMasked<K, V>(slots: seq<Slot<K, V>>, hf: K -> u32)
  {
    forall i :: 0 <= i < |slots| && slots[i].Occupied? ==> slots[i].hash == MaskedHash(hf(slots[i].key))
  }

  /** Slot i is the j-th probe for hash h and every earlier probe is in use. */
  ghost predicate ReachableAt<K, V>(slots: seq<Slot<K, V>>, h: u32, i: nat, j: nat)
  {
    0 < |slots| && j < |slots| && Probe(h, j, |slots|) == i
    && forall m :: 0 <= m < j ==> !slots[Probe(h, m, |slots|)].Unused?
  }

  /** Every occupied slot sits on the probe chain of its own hash, with no
      Unused slot before it: a search for its key cannot stop early. */
  ghost predicate ChainOK<K, V>(slots: seq<Slot<K, V>>)
  {
    forall i {:trigger OnChain(slots, i)} :: 0 <= i < |slots| ==> OnChain(slots, i)
  }

  /** Slot i, if occupied, is reachable on the probe chain of its stored hash. */
  ghost predicate OnChain<K, V>(slots: seq<Slot<K, V>>, i: nat)
    requires i < |slots|
  {
    slots[i].Occupied? ==> exists j :: ReachableAt(slots, slots[i].hash, i, j)
  }

  /** No two occupied slots hold equal keys. */
  ghost predicate UniqueKeys<K, V>(slots: seq<Slot<K, V>>, eq: (K, K) -> bool)
  {
    forall i, i' :: 0 <= i < |slots| && 0 <= i' < |slots| && i != i' && slots[i].Occupied? && slots[i'].Occupied?
      ==> !eq(slots[i].key, slots[i'].key)
  }

  ghost predicate Inv<K, V>(t: Table<K, V>, hf: K -> u32, eq: (K, K) -> bool)
  {
    Counters(t) && HashesMasked(t.slots, hf) && ChainOK(t.slots) && UniqueKeys(t.slots, eq)
  }

  /** Some occupied slot holds a key equal to `key`. */
  ghost predicate HasKey<K, V>(slots: seq<Slot<K, V>>, key: K, eq: (K, K) -> bool)
  {
    exists i :: 0 <= i < |slots| && slots[i].Occupied? && eq(key, slots[i].key)
  }

  /** The first `k` probes for `hash` are all in use and none holds `key`. */
  ghost predicate Passed<K, V>(slots: seq<Slot<K, V>>, hash: u32, key: K, eq: (K, K) -> bool, k: nat)
    requires |slots| > 0
  {
    forall m :: 0 <= m < k ==>
      !slots[Probe(hash, m, |slots|)].Unused? && !CompareKey(slots[Probe(hash, m, |slots|)], key, hash, eq)
  }

  /** The probe chain of `hash` ends at probe `stop`: its first Unused slot. */
  ghost predicate ChainStop<K, V>(slots: seq<Slot<K, V>>, hash: u32, stop: nat)
  {
    0 < |slots| && stop < |slots| && slots[Probe(hash, stop, |slots|)].Unused?
    && forall m :: 0 <= m < stop ==> !slots[Probe(hash, m, |slots|)].Unused?
  }

  /** None of the first `k` probes for `hash` is a tombstone. */
  ghost predicate NoTombstoneBefore<K, V>(slots: seq<Slot<K, V>>, hash: u32, k: nat)
    requires |slots| > 0
  {
    forall m :: 0 <= m < k ==> !slots[Probe(hash, m, |slots|)].Deleted?
  }

  lemma PassedStep<K, V>(slots: seq<Slot<K, V>>, hash: u32, key: K, eq: (K, K) -> bool, k: nat)
    requires |slots| > 0 && Passed(slots, hash, key, eq, k)
    requires !slots[Probe(hash, k, |slots|)].Unused? && !CompareKey(slots[Probe(hash, k, |slots|)], key, hash, eq)
    ensures Passed(slots, hash, key, eq, k + 1)
  {
  }

  lemma NoTombstoneStep<K, V>(slots: seq<Slot<K, V>>, hash: u32, k: nat)
    requires |slots| > 0 && NoTombstoneBefore(slots, hash, k) && !slots[Probe(hash, k, |slots|)].Deleted?
    ensures NoTombstoneBefore(slots, hash, k + 1)
  {
  }

  /** What the probe loops need to end: a power-of-two capacity and at least
      one Unused slot. */
  ghost predicate ProbeRoom<K, V>(slots: seq<Slot<K, V>>)
  {
    |slots| == 0 || (IsPow2(|slots|) && |NonUnusedSet(slots)| < |slots|)
  }

  lemma CountersRoom<K, V>(t: Table<K, V>)
    requires Counters(t)
    ensures ProbeRoom(t.slots)
  {
  }

  /** If the first k + 1 probes are all in use, at least k + 1 slots are; as
      some slot is Unused, another probe remains, so every probe loop ends. */
  lemma ChainBound<K, V>(slots: seq<Slot<K, V>>, h: u32, k: nat)
    requires |slots| > 0 && ProbeRoom(slots) && k < |slots|
    requires forall m :: 0 <= m <= k ==> !slots[Probe(h, m, |slots|)].Unused?
    ensures k + 1 < |slots|
  {
    var cap := |slots|;
    ProbeSetSize(h, k + 1, cap);
    forall p | p in ProbeSet(h, k + 1, cap)
      ensures p in NonUnusedSet(slots)
    {
      var m: nat :| m < k + 1 && Probe(h, m, cap) == p;
    }
    SubsetCard(ProbeSet(h, k + 1, cap), NonUnusedSet(slots));
  }

  /** Reachability survives any change that keeps in-use slots in use. */
  lemma ReachMono<K, V>(s: seq<Slot<K, V>>, s': seq<Slot<K, V>>, h: u32, i: nat, j: nat)
    requires |s| == |s'|
    requires forall k :: 0 <= k < |s| && !s[k].Unused? ==> !s'[k].Unused?
    requires ReachableAt(s, h, i, j)
    ensures ReachableAt(s', h, i, j)
  {
  }

  /** Writing one slot keeps every chain intact, as long as an in-use slot
      stays in use and a newly occupied slot is reachable from its hash. */
  lemma ChainAfterWrite<K, V>(slots: seq<Slot<K, V>>, p: nat, x: Slot<K, V>, j: nat)
    requires p < |slots| && ChainOK(slots)
    requires !slots[p].Unused? ==> !x.Unused?
    requires x.Occupied? ==> ReachableAt(slots, x.hash, p, j)
    ensures ChainOK(slots[p := x])
  {
    var s' := slots[p := x];
    forall i | 0 <= i < |s'|
      ensures OnChain(s', i)
    {
      if !s'[i].Occupied? {
      } else if i == p {
        ReachMono(slots, s', x.hash, p, j);
      } else {
        assert OnChain(slots, i);
        var ji :| ReachableAt(slots, slots[i].hash, i, ji);
        ReachMono(slots, s', slots[i].hash, i, ji);
      }
    }
  }

  /** The slot of an equal key lies on the searched chain before its stop. */
  lemma KeyOnChain<K, V>(slots: seq<Slot<K, V>>, hash: u32, i: nat, ji: nat, stop: nat)
    requires ChainStop(slots, hash, stop) && ReachableAt(slots, hash, i, ji)
    requires slots[i].Occupied?
    ensures ji < stop
  {
  }

  /** A search that walked its whole chain without a match proves the key is
      absent: this is what lets `find_for_insert` and `lookup` stop at the
      first Unused slot. */
  lemma ChainSearchComplete<K(!new), V>(t: Table<K, V>, hf: K -> u32, eq: (K, K) -> bool, key: K, stop: nat)
    requires Inv(t, hf, eq) && KeyEquality(hf, eq)
    requires ChainStop(t.slots, MaskedHash(hf(key)), stop)
    requires Passed(t.slots, MaskedHash(hf(key)), key, eq, stop)
    ensures !HasKey(t.slots, key, eq)
  {
    var slots := t.slots;
    var hash := MaskedHash(hf(key));
    forall i | 0 <= i < |slots| && slots[i].Occupied?
      ensures !eq(key, slots[i].key)
    {
      assert OnChain(slots, i);
      var ji :| ReachableAt(slots, slots[i].hash, i, ji);
      if eq(key, slots[i].key) {
        assert slots[i].hash == hash;
        KeyOnChain(slots, hash, i, ji, stop);
      }
    }
  }

  /** The state of the `find_for_insert` probe loop after `numProbes` probes:
      slot i is the last one visited, no visited slot held the key, and
      `free` is the first tombstone met, if any. */
  ghost predicate InsertProbeState<K, V>(slots: seq<Slot<K, V>>, hash: u32, key: K, eq: (K, K) -> bool,
                                         i: nat, numProbes: nat, free: Option<nat>, freeJ: nat)
    requires ProbeRoom(slots) && |slots| > 0
  {
    && 1 <= numProbes <= |slots|
    && i == Probe(hash, numProbes - 1, |slots|)
    && Passed(slots, hash, key, eq, numProbes - 1)
    && !CompareKey(slots[i], key, hash, eq)
    && (free.None? ==> NoTombstoneBefore(slots, hash, numProbes))
    && (free.Some? ==>
          freeJ < numProbes && free.value == Probe(hash, freeJ, |slots|)
          && slots[free.value].Deleted? && NoTombstoneBefore(slots, hash, freeJ))
  }

  /** One iteration of the `find_for_insert` probe loop from a slot that is
      not Unused: advance to the next probe, stop if it holds the key, and
      remember it if it is the first tombstone. */
  method InsertProbeStep<K, V>(slots: seq<Slot<K, V>>, hash: u32, key: K, eq: (K, K) -> bool,
                               i: nat, numProbes: nat, free: Option<nat>, ghost freeJ: nat)
    returns (i': nat, free': Option<nat>, ghost freeJ': nat, found: bool)
    requires ProbeRoom(slots) && |slots| > 0
    requires InsertProbeState(slots, hash, key, eq, i, numProbes, free, freeJ)
    requires !slots[i].Unused?
    ensures i' == Probe(hash, numProbes, |slots|) && numProbes < |slots|
    ensures found ==> CompareKey(slots[i'], key, hash, eq) && Passed(slots, hash, key, eq, numProbes)
    ensures !found ==> InsertProbeState(slots, hash, key, eq, i', numProbes + 1, free', freeJ')
  {
    var cap := |slots|;
    ChainBound(slots, hash, numProbes - 1);
    PassedStep(slots, hash, key, eq, numProbes - 1);
    ProbeAdvance(hash, numProbes - 1, cap, i);
    i' := And(i + numProbes, cap - 1);
    free', freeJ' := free, freeJ;
    found := CompareKey(slots[i'], key, hash, eq);
    if found {
      return;
    }
    if free.None? && !slots[i'].Deleted? {
      NoTombstoneStep(slots, hash, numProbes);
    }
    if slots[i'].Deleted? && free.None? {
      free' := Some(i');
      freeJ' := numProbes;
    }
  }

  /** `find_for_insert`: the slot holding `key`, or else the slot a new entry
      for `key` goes to: the first tombstone on the chain, or the Unused slot
      that ends it. Capacity 0 gives the null pointer, here None. The hash is
      handed back through `out_hash` in the source and is left unwritten at
      capacity 0; here it is 0 then. `j` names the probe returned, `stop` the
      probe at which the chain ends. */
  method FindForInsert<K, V>(t: Table<K, V>, key: K, hf: K -> u32, eq: (K, K) -> bool)
    returns (n: Option<nat>, hash: u32, ghost j: nat, ghost stop: nat)
    requires ProbeRoom(t.slots)
    ensures |t.slots| == 0 <==> n.None?
    ensures |t.slots| > 0 ==> hash == MaskedHash(hf(key)) && j < |t.slots| && n == Some(Probe(hash, j, |t.slots|))
    ensures |t.slots| > 0 ==> Passed(t.slots, hash, key, eq, j)
    ensures |t.slots| > 0 && t.slots[n.value].Occupied? ==> CompareKey(t.slots[n.value], key, hash, eq)
    ensures |t.slots| > 0 && !t.slots[n.value].Occupied? ==>
      j <= stop && ChainStop(t.slots, hash, stop) && Passed(t.slots, hash, key, eq, stop)
      && NoTombstoneBefore(t.slots, hash, j) && (j < stop ==> t.slots[n.value].Deleted?)
  {
    var cap := |t.slots|;
    if cap == 0 {
      return None, 0, 0, 0;
    }
    hash := MaskedHash(hf(key));
    var mask: nat := cap - 1;
    ProbeFirst(hash, cap);
    var i := And(hash, mask);
    if CompareKey(t.slots[i], key, hash, eq) {
      return Some(i), hash, 0, 0;
    }
    var free: Option<nat> := if t.slots[i].Deleted? then Some(i) else None;
    ghost var freeJ: nat := 0;
    var numProbes: nat := 1;
    while !t.slots[i].Unused?
      invariant InsertProbeState(t.slots, hash, key, eq, i, numProbes, free, freeJ)
      decreases cap - numProbes
    {
      var found;
      i, free, freeJ, found := InsertProbeStep(t.slots, hash, key, eq, i, numProbes, free, freeJ);
      if found {
        return Some(i), hash, numProbes, numProbes;
      }
      numProbes := numProbes + 1;
    }
    stop := numProbes - 1;
    if free.Some? {
      n, j := free, freeJ;
    } else {
      n, j := Some(i), stop;
    }
  }

  /** `lookup`: the slot holding `key`, or `capacity` (the end iterator) when
      the chain ends without one. At capacity 0 the source probes the shared
      empty node, which is Unused, and also returns the end. */
  method Lookup<K, V>(t: Table<K, V>, key: K, hf: K -> u32, eq: (K, K) -> bool)
    returns (n: nat, ghost j: nat)
    requires ProbeRoom(t.slots)
    ensures n <= |t.slots|
    ensures n < |t.slots| ==>
      n == Probe(MaskedHash(hf(key)), j, |t.slots|) && CompareKey(t.slots[n], key, MaskedHash(hf(key)), eq)
      && Passed(t.slots, MaskedHash(hf(key)), key, eq, j)
    ensures n == |t.slots| && |t.slots| > 0 ==>
      ChainStop(t.slots, MaskedHash(hf(key)), j) && Passed(t.slots, MaskedHash(hf(key)), key, eq, j)
  {
    var cap := |t.slots|;
    var hash := MaskedHash(hf(key));
    if cap == 0 {
      return 0, 0;
    }
    var mask: nat := cap - 1;
    ProbeFirst(hash, cap);
    var i := And(hash, mask);
    if CompareKey(t.slots[i], key, hash, eq) {
      return i, 0;
    }
    var numProbes: nat := 1;
    while !t.slots[i].Unused?
      invariant 1 <= numProbes <= cap
      invariant i == Probe(hash, numProbes - 1, cap)
      invariant Passed(t.slots, hash, key, eq, numProbes - 1)
      invariant !CompareKey(t.slots[i], key, hash, eq)
      decreases cap - numProbes
    {
      ChainBound(t.slots, hash, numProbes - 1);
      PassedStep(t.slots, hash, key, eq, numProbes - 1);
      ProbeAdvance(hash, numProbes - 1, cap, i);
      i := And(i + numProbes, mask);
      if CompareKey(t.slots[i], key, hash, eq) {
        return i, numProbes;
      }
      numProbes := numProbes + 1;
    }
    n, j := cap, numProbes - 1;
  }
}
