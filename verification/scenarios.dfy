/** Concrete runs of the library's own test scenarios, replayed against the
    contracts of the model: each result below follows from the operations'
    postconditions alone. */
module Scenarios {
  import opened Bits
  import opened HashNode
  import opened HashTable
  import opened HashMap
  import opened Search

  function Less(x: int, y: int): bool { x < y }

  /** `lower_bound` of 11 in the squares 1 .. 36 stops at 16. */
  method LowerBoundSquares() returns (r: nat, found: int)
    ensures r == 3 && found == 16
  {
    var a := [1, 4, 9, 16, 25, 36];
    r := LowerBound(a, 0, 6, 11, Less);
    assert Less(a[2], 11) && !Less(a[3], 11);
    found := a[r];
  }

  /** `upper_bound` on a range with a run of equal elements: 5 and 6 both
      stop at 8, and 2 stops after the single 2. */
  method UpperBoundRuns() returns (r5: nat, r6: nat, r2: nat)
    ensures r5 == 6 && r6 == 6 && r2 == 2
  {
    var a := [1, 2, 3, 3, 3, 5, 8];
    assert Sorted(a);
    r5 := UpperBoundInSorted(a, 5);
    assert !Less(5, a[5]) && Less(5, a[6]);
    r6 := UpperBoundInSorted(a, 6);
    assert !Less(6, a[5]) && Less(6, a[6]);
    r2 := UpperBoundInSorted(a, 2);
    assert !Less(2, a[1]) && Less(2, a[2]);
  }

  predicate Sorted(a: seq<int>)
  {
    forall i, j :: 0 <= i <= j < |a| ==> a[i] <= a[j]
  }

  /** `upper_bound` with `less<int>` over a whole sorted array. */
  method UpperBoundInSorted(a: seq<int>, val: int) returns (r: nat)
    requires Sorted(a)
    ensures r <= |a|
    ensures forall k :: 0 <= k < r ==> !Less(val, a[k])
    ensures forall k :: r <= k < |a| ==> Less(val, a[k])
  {
    StrictOrderPassesDebugChecks(a, 0, |a|, val, Less);
    r := UpperBound(a, 0, |a|, val, Less);
  }

  function IntHash(k: int): u32 { k % U32_MOD }

  function IntEq(a: int, b: int): bool { a == b }

  lemma IntKeyEquality()
    ensures KeyEquality(IntHash, IntEq)
  {
  }

  /** A key equal to no stored entry's key is absent from the map. */
  lemma AbsentByEntries<V>(slots: seq<Slot<int, V>>, key: int)
    requires forall e :: e in Entries(slots) ==> e.1 != key
    ensures !HasKey(slots, key, IntEq)
  {
    forall i | 0 <= i < |slots| && slots[i].Occupied?
      ensures slots[i].key != key
    {
      SlotInEntries(slots, i);
    }
  }

  /** Part of the int-key scenario: one insert, an erase of a key never
      inserted, then an erase of the inserted key. */
  method IntKeyInsertErase() returns (sizes: seq<nat>, erased: seq<int>)
    ensures sizes == [1, 1, 0] && erased == [0, 1]
  {
    IntKeyEquality();
    var t0: Table<int, int> := Empty();
    EmptyInv<int, int>(IntHash, IntEq);
    var t1, pos, inserted := Emplace(t0, 1, 0, IntHash, IntEq);
    assert inserted;
    assert Entries(t1.slots) == multiset{(MaskedHash(IntHash(1)), 1, 0)};
    AbsentByEntries(t1.slots, -11111);
    var t2, c1, _ := Erase(t1, -11111, IntHash, IntEq);
    var t3, c2, _ := Erase(t2, 1, IntHash, IntEq);
    sizes := [t1.size, t2.size, t3.size];
    erased := [c1, c2];
  }
}
