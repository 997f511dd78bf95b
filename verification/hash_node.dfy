/** The slot ("node") of the open-addressing hash map and the three states it
    can be in. The source packs the state into the 32-bit `hash` word, with
    two values reserved as sentinels; here the state is a tagged union and
    `HashWord` gives back the packed word, so that the lemmas below can show
    the two encodings agree. */
module HashNode {
  import opened Bits

  /** node::kUnusedHash and node::kDeletedHash. */
  const UNUSED_HASH: u32 := 0xFFFF_FFFF
  const DELETED_HASH: u32 := 0xFFFF_FFFE

  /** The mask `hash_func` applies to every user hash. */
  const HASH_MASK: nat := 0xFFFF_FFFD

  datatype Slot<K, V> = Unused | Deleted | Occupied(hash: u32, key: K, value: V)

  /** The word the source stores in `node::hash` for a slot in this state. */
  function HashWord<K, V>(s: Slot<K, V>): u32
  {
    match s
    case Unused => UNUSED_HASH
    case Deleted => DELETED_HASH
    case Occupied(h, _, _) => h
  }

  /** `node::is_unused`, `is_deleted`, `is_occupied` read off the packed word. */
  predicate WordIsUnused(w: u32) { w == UNUSED_HASH }
  predicate WordIsDeleted(w: u32) { w == DELETED_HASH }
  predicate WordIsOccupied(w: u32) { w < DELETED_HASH }

  /** `hash_func`: the user hash with bit 1 cleared. */
  function MaskedHash(h: u32): u32
  {
    MaskedHashBelowSentinels(h);
    And(h, HASH_MASK)
  }

  /** Clearing bit 1 of a 32-bit word keeps bit 0 and bits 2 to 31. */
  lemma MaskedHashValue(h: u32)
    ensures And(h, HASH_MASK) == 4 * (h / 2 / 2) + h % 2
  {
    AndUnfold(h, HASH_MASK);
    AndUnfold(h / 2, HASH_MASK / 2);
    assert HASH_MASK / 2 / 2 == 0x3FFF_FFFF;
    Pow2Thirty();
    AndLowMaskSmall(h / 2 / 2, 0x4000_0000);
  }

  /** Every masked hash is strictly below both sentinels. */
  lemma MaskedHashBelowSentinels(h: u32)
    ensures And(h, HASH_MASK) < DELETED_HASH
  {
    MaskedHashValue(h);
    assert h / 2 / 2 <= 0x3FFF_FFFF;
  }

  /** A stamped (masked) hash always reads back as an occupied slot and never
      as a sentinel. */
  lemma MaskedHashReadsOccupied(h: u32)
    ensures WordIsOccupied(MaskedHash(h))
    ensures !WordIsUnused(MaskedHash(h)) && !WordIsDeleted(MaskedHash(h))
  {
    MaskedHashBelowSentinels(h);
  }

  /** The packed encoding and the tagged union agree on the state of a slot,
      as long as occupied slots hold hashes below the sentinels. */
  lemma WordDecodes<K, V>(s: Slot<K, V>)
    requires s.Occupied? ==> s.hash < DELETED_HASH
    ensures WordIsUnused(HashWord(s)) <==> s.Unused?
    ensures WordIsDeleted(HashWord(s)) <==> s.Deleted?
    ensures WordIsOccupied(HashWord(s)) <==> s.Occupied?
  {
  }

  /** `compare_key`: the stored word equals the hash and the functor says the
      keys are equal. A hash below the sentinels can only equal an occupied
      slot's word, which is why the source may read `data.first` afterwards. */
  predicate CompareKey<K, V>(s: Slot<K, V>, key: K, hash: u32, eq: (K, K) -> bool)
  {
    s.Occupied? && s.hash == hash && eq(key, s.key)
  }

  lemma CompareKeyIsWordTest<K, V>(s: Slot<K, V>, key: K, hash: u32, eq: (K, K) -> bool)
    requires hash < DELETED_HASH
    ensures CompareKey(s, key, hash, eq) <==> (HashWord(s) == hash && s.Occupied? && eq(key, s.key))
  {
  }

  /** `allocate_nodes`: a fresh array of n slots, all Unused. */
  function AllocateNodes<K, V>(n: nat): (r: seq<Slot<K, V>>)
    ensures |r| == n && forall i :: 0 <= i < n ==> r[i].Unused?
  {
    seq(n, _ => Unused)
  }

  /** Indices of occupied slots. */
  ghost function OccupiedSet<K, V>(slots: seq<Slot<K, V>>): set<nat>
  {
    set i: nat | i < |slots| && slots[i].Occupied?
  }

  /** Indices of slots that are not Unused (occupied or tombstones). */
  ghost function NonUnusedSet<K, V>(slots: seq<Slot<K, V>>): set<nat>
  {
    set i: nat | i < |slots| && !slots[i].Unused?
  }

  predicate NoDeleted<K, V>(slots: seq<Slot<K, V>>)
  {
    forall i :: 0 <= i < |slots| ==> !slots[i].Deleted?
  }

  /** The (hash, key, value) entry a slot holds, if any. */
  function EntryOf<K(==), V(==)>(s: Slot<K, V>): multiset<(u32, K, V)>
  {
    if s.Occupied? then multiset{(s.hash, s.key, s.value)} else multiset{}
  }

  /** All entries held by the slots, as a multiset. */
  function Entries<K(==), V(==)>(slots: seq<Slot<K, V>>): multiset<(u32, K, V)>
  {
    if |slots| == 0 then multiset{}
    else Entries(slots[..|slots| - 1]) + EntryOf(slots[|slots| - 1])
  }

  lemma EntriesPrefix<K, V>(slots: seq<Slot<K, V>>, i: nat)
    requires i < |slots|
    ensures Entries(slots[..i + 1]) == Entries(slots[..i]) + EntryOf(slots[i])
  {
    assert slots[..i + 1][..i] == slots[..i];
  }

  lemma EntriesFull<K, V>(slots: seq<Slot<K, V>>)
    ensures Entries(slots[..|slots|]) == Entries(slots)
  {
    assert slots[..|slots|] == slots;
  }

  lemma MultisetShift<T>(a: multiset<T>, b: multiset<T>, l: multiset<T>, p: multiset<T>, q: multiset<T>)
    requires a + p == b + q
    ensures (a + l) + p == (b + l) + q
  {
    assert (a + l) + p == (a + p) + l;
    assert (b + l) + q == (b + q) + l;
  }

  lemma EntriesLast<K, V>(slots: seq<Slot<K, V>>)
    requires |slots| > 0
    ensures Entries(slots) == Entries(slots[..|slots| - 1]) + EntryOf(slots[|slots| - 1])
  {
  }

  /** Overwriting one slot swaps that slot's entry for the new one. */
  lemma {:induction false} EntriesUpdate<K, V>(slots: seq<Slot<K, V>>, i: nat, x: Slot<K, V>)
    requires i < |slots|
    ensures Entries(slots[i := x]) + EntryOf(slots[i]) == Entries(slots) + EntryOf(x)
    decreases |slots|, 1
  {
    if i == |slots| - 1 {
      EntriesUpdateLast(slots, x);
    } else {
      EntriesUpdateInner(slots, i, x);
    }
  }

  lemma EntriesUpdateLast<K, V>(slots: seq<Slot<K, V>>, x: Slot<K, V>)
    requires |slots| > 0
    ensures Entries(slots[|slots| - 1 := x]) + EntryOf(slots[|slots| - 1]) == Entries(slots) + EntryOf(x)
  {
    var n := |slots|;
    var s' := slots[n - 1 := x];
    EntriesLast(s');
    EntriesLast(slots);
    assert s'[..n - 1] == slots[..n - 1];
  }

  lemma {:induction false} EntriesUpdateInner<K, V>(slots: seq<Slot<K, V>>, i: nat, x: Slot<K, V>)
    requires i < |slots| - 1
    ensures Entries(slots[i := x]) + EntryOf(slots[i]) == Entries(slots) + EntryOf(x)
    decreases |slots|, 0
  {
    var n := |slots|;
    var s' := slots[i := x];
    var init := slots[..n - 1];
    EntriesLast(s');
    EntriesLast(slots);
    assert s'[..n - 1] == init[i := x];
    assert init[i] == slots[i];
    EntriesUpdate(init, i, x);
    MultisetShift(Entries(init[i := x]), Entries(init), EntryOf(slots[n - 1]), EntryOf(slots[i]), EntryOf(x));
  }

  /** An entry is present exactly when some slot holds it. */
  lemma {:induction false} InEntries<K, V>(slots: seq<Slot<K, V>>, e: (u32, K, V))
    ensures e in Entries(slots) <==> exists i :: 0 <= i < |slots| && slots[i] == Occupied(e.0, e.1, e.2)
    decreases |slots|
  {
    if |slots| > 0 {
      var n := |slots|;
      InEntries(slots[..n - 1], e);
      if e in Entries(slots[..n - 1]) {
        var i :| 0 <= i < n - 1 && slots[..n - 1][i] == Occupied(e.0, e.1, e.2);
        assert slots[i] == Occupied(e.0, e.1, e.2);
      }
      if exists i :: 0 <= i < n && slots[i] == Occupied(e.0, e.1, e.2) {
        var i :| 0 <= i < n && slots[i] == Occupied(e.0, e.1, e.2);
        if i < n - 1 {
          assert slots[..n - 1][i] == Occupied(e.0, e.1, e.2);
        }
      }
    }
  }

  lemma SlotInEntries<K, V>(slots: seq<Slot<K, V>>, i: nat)
    requires i < |slots| && slots[i].Occupied?
    ensures (slots[i].hash, slots[i].key, slots[i].value) in Entries(slots)
  {
    InEntries(slots, (slots[i].hash, slots[i].key, slots[i].value));
  }

  /** There are as many entries as occupied slots. */
  lemma {:induction false} EntriesSize<K, V>(slots: seq<Slot<K, V>>)
    ensures |Entries(slots)| == |OccupiedSet(slots)|
    decreases |slots|
  {
    if |slots| > 0 {
      var n := |slots|;
      EntriesSize(slots[..n - 1]);
      var prev := OccupiedSet(slots[..n - 1]);
      if slots[n - 1].Occupied? {
        assert OccupiedSet(slots) == prev + {n - 1};
      } else {
        assert OccupiedSet(slots) == prev;
      }
    }
  }

  /** Entries of a slot array with no occupied slot. */
  lemma {:induction false} EntriesNoOccupied<K, V>(slots: seq<Slot<K, V>>)
    requires forall i :: 0 <= i < |slots| ==> !slots[i].Occupied?
    ensures Entries(slots) == multiset{}
    decreases |slots|
  {
    if |slots| > 0 {
      EntriesNoOccupied(slots[..|slots| - 1]);
    }
  }

  /** The entries of two consecutive runs of slots add up. */
  lemma {:induction false} EntriesConcat<K, V>(x: seq<Slot<K, V>>, y: seq<Slot<K, V>>)
    ensures Entries(x + y) == Entries(x) + Entries(y)
    decreases |y|
  {
    if |y| == 0 {
      assert x + y == x;
    } else {
      var xy := x + y;
      var y' := y[..|y| - 1];
      EntriesLast(xy);
      EntriesLast(y);
      assert xy[..|xy| - 1] == x + y';
      EntriesConcat(x, y');
    }
  }

  /** Extending a range past slot b up to the next occupied slot c adds the
      entry of slot b only. */
  lemma EntriesRangeStep<K, V>(s: seq<Slot<K, V>>, a: nat, b: nat, c: nat)
    requires a <= b < c <= |s|
    requires forall m :: b < m < c ==> !s[m].Occupied?
    ensures Entries(s[a..c]) == Entries(s[a..b]) + EntryOf(s[b])
  {
    assert s[a..c] == s[a..b] + [s[b]] + s[b + 1..c];
    EntriesConcat(s[a..b] + [s[b]], s[b + 1..c]);
    EntriesConcat(s[a..b], [s[b]]);
    EntriesNoOccupied(s[b + 1..c]);
    assert [s[b]][..0] == [];
  }

  lemma {:induction false} SubsetCard<T>(a: set<T>, b: set<T>)
    requires a <= b
    ensures |a| <= |b|
    decreases |a|
  {
    if a != {} {
      var x :| x in a;
      SubsetCard(a - {x}, b - {x});
    }
  }

  lemma OccupiedWithin<K, V>(slots: seq<Slot<K, V>>)
    ensures OccupiedSet(slots) <= NonUnusedSet(slots)
    ensures |OccupiedSet(slots)| <= |NonUnusedSet(slots)|
  {
    SubsetCard(OccupiedSet(slots), NonUnusedSet(slots));
  }

  lemma NoDeletedSets<K, V>(slots: seq<Slot<K, V>>)
    requires NoDeleted(slots)
    ensures OccupiedSet(slots) == NonUnusedSet(slots)
  {
  }

  lemma AllUnusedSets<K, V>(slots: seq<Slot<K, V>>)
    requires forall i :: 0 <= i < |slots| ==> slots[i].Unused?
    ensures OccupiedSet(slots) == {} && NonUnusedSet(slots) == {}
  {
  }

  /** Turning a non-occupied slot into an occupied one. */
  lemma FillSets<K, V>(slots: seq<Slot<K, V>>, i: nat, x: Slot<K, V>)
    requires i < |slots| && !slots[i].Occupied? && x.Occupied?
    ensures OccupiedSet(slots[i := x]) == OccupiedSet(slots) + {i}
    ensures i !in OccupiedSet(slots)
    ensures slots[i].Unused? ==> NonUnusedSet(slots[i := x]) == NonUnusedSet(slots) + {i} && i !in NonUnusedSet(slots)
    ensures slots[i].Deleted? ==> NonUnusedSet(slots[i := x]) == NonUnusedSet(slots)
  {
  }

  /** Turning an occupied slot into a tombstone. */
  lemma TombstoneSets<K, V>(slots: seq<Slot<K, V>>, i: nat)
    requires i < |slots| && slots[i].Occupied?
    ensures OccupiedSet(slots[i := Deleted]) == OccupiedSet(slots) - {i}
    ensures i in OccupiedSet(slots)
    ensures NonUnusedSet(slots[i := Deleted]) == NonUnusedSet(slots)
  {
  }
}
