# rdestl core containers in Dafny

This project models the core of rdestl, a header-only C++ container library:

- the open-addressing `rde::hash_map` (`hash_map.h`);
- the element copy, move, construct and destroy primitives (`utility.h`) and their
  dispatch wrappers (`algorithm.h`);
- the search and small utility algorithms of `algorithm.h`;
- the dynamic array `rde::vector` (`vector.h`).

Everything is a value model. A hash map is a `Table` value. It holds:

- its slot array, where each slot is `Unused`, `Deleted` or `Occupied(hash, key, value)`;
- `m_size`;
- `m_numUsed`.

Capacity 0 stands for the shared empty node of a map that has never allocated. The hash
and key-equality functors are function parameters. The map's invariant (`HashTable.Inv`)
has two parts:

- the counters of the source's `invariant()`;
- what makes probing sound. Every occupied entry is reachable from its home slot without
  crossing an Unused slot. Keys are unique up to the equality functor. Stored hashes are
  the masked user hashes.

Raw memory is a sequence of cells (`Raw | Live(value)`), and a pointer is an index into
it. Copy loops are stated against reference definitions:

- `Placed`, where the destination receives the source's original values;
- `ForwardFrom` and `BackwardFrom`, the element-by-element effect of an ascending or a
  descending loop.

The model also says when the loops agree with `Placed`. A vector is a buffer of
cells whose length is its capacity; the first `size` cells are live. Every vector operation
is stated as a splice on the sequence of live values (`Vector.Contents`).

Modules:

| module | file | models |
|---|---|---|
| `Bits` | bits.dfy | `&`, `^` and powers of two on naturals |
| `Probing` | probing.dfy | the triangular probe sequence |
| `HashNode` | hash_node.dfy | slots, sentinels, `hash_func`, entry multisets |
| `HashTable` | hash_table.dfy | map state, invariant, `find_for_insert`, `lookup` |
| `HashIter` | hash_iter.dfy | `node_iterator`, `begin`, `end` |
| `HashMap` | hash_map.dfy | the public map operations and `rehash`/`grow` |
| `Utility` | utility.dfy | `utility.h` element-wise primitives |
| `Algorithm` | algorithm.dfy | `move_n`/`move` dispatch, `fill_n`, `abs`, `min`, `max`, `swap` |
| `Search` | search.dfy | `lower_bound`, `upper_bound`, `find`, `find_if` |
| `Vector` | vector.dfy | `rde::vector` and its storage |
| `Scenarios` | scenarios.dfy | concrete runs of the library's unit tests, derived from the contracts |

## Model

| member | source | states |
|---|---|---|
| HashNode.WordDecodes | hash_map.h:28-35 | a slot's hash word reads as unused, deleted or occupied exactly when the slot is in that state, provided stored hashes are below the deleted sentinel |
| HashNode.MaskedHashBelowSentinels | hash_map.h:1226-1231 | clearing bit 1 of any 32-bit hash gives a value below `kDeletedHash` |
| HashNode.MaskedHashReadsOccupied | hash_map.h:1226-1231 | a stamped masked hash always reads as occupied, never as either sentinel |
| HashNode.CompareKeyIsWordTest | hash_map.h:1239-1242 | `compare_key` holds exactly when the slot's hash word equals the key's hash, the slot is occupied and the functor finds the keys equal |
| HashNode.AllocateNodes | hash_map.h:1190-1199 | a freshly allocated node array has the requested length and every slot is Unused |
| HashNode.EntriesSize | hash_map.h:1232-1237 | the number of stored entries equals the number of occupied slots, which is what `m_size` counts |
| HashNode.FillSets | hash_map.h:636-655 | filling a free slot adds it to the occupied set; only an Unused slot adds to the used set |
| HashNode.TombstoneSets | hash_map.h:1217-1224 | a tombstone leaves the occupied set one smaller and the set of non-Unused slots unchanged |
| Probing.ProbeAdvance | hash_map.h:1113 | `(i + numProbes) & mask` moves from probe j to probe j+1 of the triangular sequence |
| Probing.ProbeFirst | hash_map.h:1099 | `hash & mask` is the first probe |
| Probing.ProbeInjective | hash_map.h:1108-1120 | over a power-of-two capacity the first `capacity` probes visit pairwise distinct slots |
| Probing.ProbeSetSize | hash_map.h:1109-1111 | the first k probes, k at most the capacity, cover exactly k slots, so a probe loop reaches any Unused slot |
| Probing.TriDistinct | hash_map.h:1108-1120 | two distinct triangular numbers below a power of two differ by a non-multiple of it |
| HashTable.CountersRoom | hash_map.h:1232-1237 | the counter invariant leaves at least one Unused slot in an allocated table |
| HashTable.ChainBound | hash_map.h:1109-1111 | a probe chain of non-Unused slots is shorter than the capacity, which bounds every probe loop |
| HashTable.ChainSearchComplete | hash_map.h:1134-1144 | a key not met on its chain before the first Unused slot is absent from the whole table |
| HashTable.InsertProbeStep | hash_map.h:1111-1120 | one probe step either finds the key on the chain or keeps the first tombstone seen and the chain's progress |
| HashTable.FindForInsert | hash_map.h:1092-1122 | null on capacity 0; otherwise the slot of an equal key on the chain, else the first tombstone before the chain's Unused slot, else that Unused slot |
| HashTable.Lookup | hash_map.h:1123-1145 | the slot of an equal key on the chain, or the end position when the chain reaches an Unused slot first, including at capacity 0 |
| HashIter.Begin | hash_map.h:188-201 | `begin()` is the first occupied slot, and it equals `end()` exactly when the map is empty |
| HashIter.Next | hash_map.h:77-111 | `++` advances at least one slot and stops at the next occupied slot or at the end, skipping only non-occupied slots |
| HashIter.FullTraversal | hash_map.h:77-111 | iterating from `begin()` visits exactly the occupied slots, once each, in increasing index order, `size` of them |
| HashIter.TraversalSorted | hash_map.h:102-111 | the slots a traversal visits are strictly increasing |
| HashIter.TraversalMembers | hash_map.h:102-111 | a traversal visits a slot exactly when it is occupied |
| HashMap.Empty | hash_map.h:126-144 | the default-constructed map has capacity 0, size 0, `numUsed` 0 and no entries |
| HashMap.EmptyInv | hash_map.h:126-144 | the default-constructed map satisfies the table invariant for any hash and equality functors |
| HashMap.Rehash | hash_map.h:1147-1188 | the new array holds exactly the old occupied entries, no tombstones, every entry reachable on its chain, keys still unique |
| HashMap.GrowTo | hash_map.h:620-632 | growth to a new capacity keeps the entries, drops tombstones and resets `numUsed` to `size` |
| HashMap.Grow | hash_map.h:615-619 | the new capacity is 64 from an empty table and double otherwise; entries are kept and the invariant preserved |
| HashMap.GrowRoom | hash_map.h:261-271 | after growth the table has room for the insertion with `numUsed + 1 < capacity` |
| HashMap.LoadRoom | hash_map.h:264 | when the 7/8 load check does not fire the table is allocated and has room for one more used slot |
| HashMap.EmplaceAt | hash_map.h:636-655 | an occupied slot is returned unchanged with `false`; otherwise the pair is stored, `size` grows by one and `numUsed` only if the slot was Unused |
| HashMap.FillKeepsInv | hash_map.h:636-655 | storing an absent key in a free slot reachable on its chain keeps the invariant |
| HashMap.Emplace | hash_map.h:261-271 | inserts the key exactly when it is absent, adding one entry; otherwise returns the existing slot and changes no entry. At the load limit the table first grows to 64 slots (from 0) or to twice its capacity and then holds no tombstones, so `numUsed` equals `size` afterwards; below the limit the capacity is kept and a present key leaves the map untouched |
| HashMap.Insert | hash_map.h:254-257 | `insert(pair)` behaves as `emplace` of its key and value, with the same entries, capacity and `numUsed` outcome |
| HashMap.InsertAt | hash_map.h:1083-1091 | inserting at a slot found for the key stores the entry when the key is absent and keeps the invariant; with a slot and below the load limit the capacity is kept, otherwise the `emplace` path grows it as `emplace` does |
| HashMap.Subscript | hash_map.h:206-215 | `operator[]` returns the key's slot and leaves the map untouched when the key is present; when absent it first inserts the key with a default value, growing the table as `emplace` does at the load limit |
| HashMap.Find | hash_map.h:562-566 | the result is before the end exactly when the key is in the map, and then it points at an equal key |
| HashMap.EraseNode | hash_map.h:1217-1224 | the slot becomes a tombstone, `size` drops by one, `numUsed` is unchanged and exactly that entry leaves |
| HashMap.EraseRemovesKey | hash_map.h:533-542 | with unique keys, turning the key's slot into a tombstone removes the key from the map |
| HashMap.Erase | hash_map.h:533-542 | returns 1 and tombstones the key's slot when present, returns 0 and changes nothing when absent; afterwards the key is absent |
| HashMap.EraseAt | hash_map.h:543-551 | erasing through `end()` changes nothing; otherwise that slot becomes a tombstone and only its entry leaves |
| HashMap.EraseRangeIteration | hash_map.h:552-560 | one round of the range loop tombstones the current slot and moves to the next occupied one, no further than `to` |
| HashMap.EraseRange | hash_map.h:552-560 | every occupied slot in `[from, to)` becomes a tombstone, nothing outside changes, `size` drops by their number, exactly the range's entries leave, and the invariant is kept |
| HashMap.ClearInv | hash_map.h:573-591 | a cleared table keeps its capacity, satisfies the invariant and holds no key |
| HashMap.Clear | hash_map.h:573-591 | clearing leaves no entry and zero counters at the same capacity |
| HashMap.Reserve | hash_map.h:593-600 | afterwards the capacity is at least the request and allocated, entries are kept, and an unchanged capacity means an unchanged map |
| HashMap.Assign | hash_map.h:217-236 | assignment gives the right-hand side's entries and counters at the larger of the two capacities |
| HashMap.Swap | hash_map.h:237-252 | the two maps exchange contents, sizes, capacities and `numUsed` counts, each invariant following its contents |
| HashMap.WithBuckets | hash_map.h:145-168 | the constructor with a bucket count gives an empty valid map of at least that many and at least 64 buckets, and no more than needed: 64, or a power of two whose half is below the requested count |
| HashMap.CopyOf | hash_map.h:169-178 | the copy constructor gives a valid map of the same capacity, entries and size |
| HashMap.CountersMeetSourceInvariant | hash_map.h:1232-1237 | the model's invariant implies the source's `invariant()`: a power-of-two capacity and `numUsed >= size` |
| HashMap.MaxCapacityIsPow2 | hash_map.h:620-632 | the largest modelled capacity is a power of two, so doubling below it stays valid |
| Utility.CopyN | utility.h:13-30 | the Duff's-device loop has the effect of an ascending copy for every n, and places the source's values when the ranges do not overlap harmfully |
| Utility.AssignStep | utility.h:13-30 | one unrolled assignment advances the ascending copy by one element |
| Utility.Copy | utility.h:38-45 | `copy(first, last, result)` is an ascending copy of `last - first` elements |
| Utility.MoveNBackward | utility.h:53-58 | the descending loop places the original `from[0..n)` at `result` whenever the destination is at or after the source |
| Utility.MoveBackward | utility.h:65-71 | the descending range loop places the original `[first, last)` at `result` whenever the destination is at or after the source |
| Utility.ForwardPlaces | utility.h:13-30 | an ascending copy places the original values unless the destination starts inside the source after its start |
| Utility.BackwardPlaces | utility.h:53-58 | a descending copy places the original values unless the destination starts before the source and overlaps it |
| Utility.CopyConstructN | utility.h:82-87 | constructs `result[0..n)` from `first[0..n)` in ascending order, leaving them live |
| Utility.MoveConstructN | utility.h:95-100 | move-constructs `result[0..n)` from `first[0..n)` in ascending order, leaving them live |
| Utility.ConstructN | utility.h:158-164 | exactly the `count` cells from `to` become live with the given value |
| Utility.DestructN | utility.h:109-117 | exactly the `n` cells from `first` become raw |
| Utility.ConstructDestructCancel | utility.h:109-164 | constructing raw cells and destroying them again restores the original memory |
| Search.StrictOrderPassesDebugChecks | utility.h:190-206 | for a strict ordering, no pair `lower_bound` or `upper_bound` hands to `debug_pred` is ordered both ways, so its debug assertion never fires |
| Algorithm.MoveNAsWrittenUpward | algorithm.h:218-231 | the dispatch as written is correct for a destination at or after the source |
| Algorithm.MoveNAsWrittenDownwardOverlap | algorithm.h:218-231 | the dispatch as written corrupts a downward overlapping move (see Findings) |
| Algorithm.MoveN | algorithm.h:218-231 | the corrected dispatch places the original `from[0..n)` at `result` for every overlap |
| Algorithm.MoveAsWrittenUpward | algorithm.h:234-248 | the range dispatch as written is correct for a destination at or after the source |
| Algorithm.MoveAsWrittenDownwardOverlap | algorithm.h:234-248 | the range dispatch as written corrupts a downward overlapping move (see Findings) |
| Algorithm.Move | algorithm.h:234-248 | the corrected range dispatch places the original `[first, last)` at `result` for every overlap |
| Algorithm.FillN | algorithm.h:265-287 | the `n` cells from `first` hold `val` and every other cell is untouched |
| Algorithm.FillStep | algorithm.h:265-287 | one unrolled assignment extends the filled prefix by one cell |
| Algorithm.Abs | algorithm.h:387-391 | the branch-free `abs(int)` is `x` for `x >= 0` and `-x` for `INT_MIN < x < 0`; for `INT_MIN` it gives `INT_MIN` under two's-complement wrap-around (see Left out) |
| Algorithm.XorWithSign | algorithm.h:387-391 | xor with the sign mask is the identity for non-negative `x` and the one's complement for negative `x` |
| Algorithm.AbsIsMagnitude | algorithm.h:387-391 | `abs` is non-negative and symmetric on every value but `INT_MIN` |
| Algorithm.Max | algorithm.h:399-403 | for any type with `operator>` given as a parameter: the result is one of the arguments; it is the second whenever the first is not strictly greater, so a tie returns the second; and when the comparison is strict on the pair, neither argument is greater than the result |
| Algorithm.Min | algorithm.h:406-410 | for any type with `operator<` given as a parameter: the result is one of the arguments; it is the second whenever the first is not strictly smaller, so a tie returns the second; and when the comparison is strict on the pair, neither argument is smaller than the result |
| Algorithm.MinMaxPartition | algorithm.h:399-410 | with `operator>` mirroring `operator<`, `min` and `max` together return the two arguments when the order tells them apart or they are equal; for two distinct values the order does not tell apart, both return the second |
| Algorithm.Swap | algorithm.h:428-434 | the two values are exchanged |
| Search.LowerBound | algorithm.h:304-321 | on a range partitioned by `pred(e, val)` whose pairs pass `debug_pred`'s check, the first position with `!pred(*p, val)`, all earlier elements satisfying `pred`, within `[first, last]` |
| Search.UpperBound | algorithm.h:324-341 | on a range partitioned by `pred(val, e)` whose pairs pass `debug_pred`'s check, the first position with `pred(val, *p)`, all earlier elements failing it, within `[first, last]` |
| Search.EqualRange | algorithm.h:304-341 | under a strict ordering, the two bounds delimit exactly the elements equivalent to `val` |
| Search.Find | algorithm.h:344-354 | the first position holding `val`, or `last` if none does |
| Search.FindIf | algorithm.h:357-367 | the first position satisfying `pred(*it, val)`, or `last` if none does |
| Vector.Empty | vector.h:133-137 | the default-constructed vector is valid, with no storage, empty contents and capacity 0 |
| Vector.Reallocate | vector.h:51-65 | the new buffer has the requested capacity and keeps the prefix of length `min(size, capacity)` |
| Vector.ReallocateDiscardOld | vector.h:68-79 | the new buffer has the requested capacity and holds no live element |
| Vector.ComputeNewCapacity | vector.h:752-756 | the new capacity is at least the request and at least double; it is the request, double, or 16 from empty, and exactly double when that suffices |
| Vector.Grow | vector.h:757-762 | a full vector keeps its contents and gets capacity 16 from empty or double, with room for one more |
| Vector.PushBack | vector.h:262-274 | the contents gain `x` at the end; capacity changes only when the vector was full |
| Vector.PushBackDefault | vector.h:276-283 | the contents gain a default value at the end; capacity changes only when the vector was full, and then becomes 16 or double |
| Vector.PopBack | vector.h:284-289 | the last element goes and the capacity stays |
| Vector.PushPopCancel | vector.h:262-289 | popping what was pushed, at an unchanged capacity, restores the vector |
| Vector.Shrink | vector.h:763-769 | the contents are cut to the new size at the same capacity |
| Vector.Clear | vector.h:699-703 | the contents become empty at the same capacity |
| Vector.Reserve | vector.h:691-695 | contents are kept; capacity becomes `n` only when `n` exceeds it, and otherwise nothing changes |
| Vector.InsertedValid | vector.h:550-584 | the cell layout both insert paths produce is a valid vector holding the splice `old[..index] + [val]*n + old[index..]` |
| Vector.AssignFill | vector.h:571-580 | exactly the `count` live cells from `at` are assigned `val` |
| Vector.InsertPastEnd | vector.h:562-573 | the branch where the insertion reaches past the old end produces the spliced layout |
| Vector.InsertInPlace | vector.h:574-581 | the in-place branch, with `move_n` as written (its upward move agrees with the corrected one), produces the spliced layout |
| Vector.InsertN | vector.h:550-592 | the contents become `old[..index] + [val]*n + old[index..]`, growing by the capacity policy only when needed; the iterator form is the same insert at the iterator's index |
| Vector.InsertNoneTripsMoveAssert | vector.h:574-581 | the in-place branch's `move_n` precondition fails exactly when `n == 0` and `index < size` (see Findings) |
| Vector.Insert | vector.h:593-632 | `val` lands at `index`, the tail shifts right by one, the iterator stays at `index`, and capacity grows only when full |
| Vector.InsertAsWrittenAssignsRaw | vector.h:599-627 | as written, the single insert assigns into a raw cell exactly when it had to grow (see Findings) |
| Vector.Erase | vector.h:636-650 | exactly the element at `index` is removed, the rest keep their order, and the iterator stays at `index` |
| Vector.EraseRange | vector.h:651-667 | `[first, last)` is removed in order; when `last <= first` nothing changes and the result is `end()` |
| Vector.EraseUnordered | vector.h:670-679 | the multiset loses one occurrence of the erased element, which the last element replaces |
| Vector.Resize | vector.h:681-690 | the size becomes `n`, by appending default values or cutting the tail; cutting keeps the capacity, and appending keeps it when `n` fits, otherwise grows it by the `compute_new_capacity` rule that `insert` applies |
| Vector.IndexOf | vector.h:719-726 | the first index at or after `index` holding `item`, or `npos` exactly when there is none |
| Vector.Find | vector.h:727-734 | the first position holding `item`, or `end()` if none does |
| Vector.Assign | vector.h:532-548 | the contents become the source range, reallocating by the capacity policy only when it does not fit |
| Vector.AssignAsWrittenAssignsRaw | vector.h:532-548 | as written, `assign` assigns into destroyed storage on every non-empty range (see Findings) |
| Vector.Copy | vector.h:193-204 | the contents become those of `rhs`, reallocating to its capacity only when they do not fit |
| Vector.CopyAsWritten | vector.h:193-204 | as written, `copy` yields the right contents but leaves the old tail live beyond the new size (see Findings) |
| Vector.CopyConstruct | vector.h:150-160 | the copy constructor gives equal contents, at `rhs`'s capacity unless `rhs` is empty |
| Vector.WithSize | vector.h:138-142 | the sized constructor gives `initialSize` default values at a capacity of exactly `initialSize` |
| Vector.FromRange | vector.h:133-147 | the range constructor gives the range's values at a capacity equal to its length |
| Vector.ValidExtensional | vector.h:102-105 | two valid vectors with equal contents and capacity are equal, so a vector is determined by its contents |
| Scenarios.LowerBoundSquares | Test/AlgoTest.cpp:8-20 | `lower_bound` of 11 in `{1, 4, 9, 16, 25, 36}` stops at index 3, which holds 16 |
| Scenarios.UpperBoundRuns | Test/AlgoTest.cpp:35-51 | `upper_bound` in `{1, 2, 3, 3, 3, 5, 8}` stops at index 6 (the 8) for both 5 and 6, and at index 2 for 2 |
| Scenarios.AbsentByEntries | hash_map.h:533-542 | a key that no stored entry carries is absent from the map, which is when `erase` returns 0 |
| Scenarios.IntKeyInsertErase | Test/HashMapTest.cpp:319-343 | from an empty int map: inserting 1 gives size 1, erasing the absent -11111 returns 0 and keeps size 1, erasing 1 returns 1 and leaves size 0 |

## Left out

- Capacities above 2^28: `m_capacity * 7` and `m_numUsed * 8` are `int` products and would overflow past 2^28 slots. `HashMap.Emplace`, `HashMap.Grow` and `HashMap.Reserve` require the table to stay below that bound.
- Allocators, `deallocate`, `delete_nodes` and the destructor (hash_map.h:1200-1216) free memory only. The shared static `ms_emptyNode` is modelled as the empty slot array.
- The `Sys::MemCpy`/`MemMove` paths for trivially copyable types, and the `int_to_type`/`has_trivial_*` dispatch. Only the element-wise semantics is modelled.
- The VS2010 duplicated overloads of `emplace`, `insert` and the algorithm wrappers. Each collapses into one generic member.
- `emplace_back` (vector.h:291-300) and its VS2010 overloads: building the element in place from forwarded constructor arguments has no counterpart in the model. For an element that is already built it is the `push_back` path, which `Vector.PushBack` models.
- Placement new and destructor calls become the `Raw`/`Live` cell tags. Moved-from objects keep their values, so a move is modelled as a copy.
- Move constructors and move assignment of both containers only exchange pointers. The functor swap inside `hash_map::swap` is also left out, because the functors are parameters of every operation.
- Self-assignment guards (`if (&rhs != this)`) have no observable effect in a value model.
- `abs<T>` over floating point and `abs(short)` are out of the model. So are the commented-out assembly `min` and `accumulate`, which uses an arbitrary `+=`.
- `distance` and `advance` come from iterator.h, which is not part of this model. Cursors are indices, and the 32-bit `int` distance of `lower_bound`/`upper_bound` is modelled as unbounded.
- `test_ordering` (utility.h:172-188) checks only the first two elements in debug builds. `Search.LowerBound` and `Search.UpperBound` instead require the range to be partitioned with respect to `val` (`PartitionedBelow`, `PartitionedAbove`), which is weaker than sortedness and is all the halving loops need.
- `Utility.DebugPred` requires the asserted asymmetry `pred(a,b) ==> !pred(b,a)` instead of modelling a failed debug assertion. So `Search.LowerBound` and `Search.UpperBound` require `DebugPairsOk`, which `Search.StrictOrderPassesDebugChecks` derives from any strict ordering.
- `exchange` (utility.h:250-256) is a one-line function that stores the new value and returns the old one. It is not modelled.
- Vector.Insert, Vector.InsertN, Vector.PushBack, HashMap.Emplace, HashMap.Insert: the value or key argument is taken by value, so it is assumed not to alias an element of the container. In the source it is a `const T&` that is read after the elements have been moved or freed. For example, `v.insert(v.begin(), v[2])` on `[1,2,3]` with spare capacity reads `val` after the MemMove at vector.h:624 and gives `[2,1,2,3]`, where the model gives `[3,1,2,3]`. `push_back(v[0])` on a full vector reads storage that `grow()` has destroyed, and `emplace` with a stored key at the load limit reads the key after `grow()` has moved it.
- Vector.IndexOf, Vector.Find, Search.Find: the element type's `operator==` is modelled as Dafny's equality, so a user-defined `==` that is not an equivalence is not modelled.
- Algorithm.Abs: for `INT_MIN` the contract relies on `x >> 31` being an arithmetic shift and on `(x ^ y) - y` wrapping around, as two's-complement hardware does. C++ leaves that subtraction's overflow undefined and, before C++20, the shift of a negative value implementation-defined.
- `set_capacity`, `reset`, `record_high_watermark`, the allocator getters and setters, and `validate_iterator` are left out.
- The simple accessors (`size`, `capacity`, `empty`, `bucket_count`, `data`, `front`, `back`, `at`, `operator[]` of the vector) are left out. So are the iterator dereference operators, which read one cell.
- `Vector.IndexOf` requires `size < npos`, so that the `npos` result cannot also be a valid index. It does not require the debug assertion `index < size`; past the end it returns `npos`.
- `Vector.Assign` and `Vector.FromRange` require a non-empty range, as the source asserts (`count > 0`).
- Test harnesses (Catch, UnitTest++, `rand()`) are left out. A few deterministic test cases are restated as `Scenarios` members. The rest of the GoogleIntHash case (ten inserts with growth, `erase` by iterator) is not replayed, because following it concretely would need the probe positions of every key.

## Findings

| source | as written | input that shows it | evidently intended | confidence | as-written member | corrected member |
|---|---|---|---|---|---|---|
| algorithm.h:218-231 | for overlapping ranges `move_n` always takes the backward element-wise loop | memory `[1,2,3]`, `move_n(from=1, n=2, result=0)` gives `[3,3,3]` | the backward loop only when the destination is at or after the source, otherwise an ascending copy, giving `[2,3,3]` | not executed | Algorithm.MoveNAsWrittenDownwardOverlap | Algorithm.MoveN |
| algorithm.h:234-248 | for overlapping ranges `move` always takes the backward element-wise loop | memory `[1,2,3]`, `move(first=1, last=3, result=0)` gives `[3,3,3]` | the same direction choice as above, giving `[2,3,3]` | not executed | Algorithm.MoveAsWrittenDownwardOverlap | Algorithm.Move |
| vector.h:532-548 | `assign` calls `clear()` and then copies with assignment (`copy_n`) into the destroyed cells | any vector, `assign` of a one-element range | construct the elements (`copy_construct_n`) into the cleared storage | not executed | Vector.AssignAsWrittenAssignsRaw | Vector.Assign |
| vector.h:193-204 | `copy` copy-constructs over its live elements without destroying them first, and elements past the new size stay live | `v = [a,b,c]`, `v.copy([x])` leaves `b` and `c` live after a size of 1 | destroy the old elements, then construct the copies | not executed | Vector.CopyAsWritten | Vector.Copy |
| vector.h:574-581 | `insert(index, 0, val)` with `index < size` calls `move_n` with `from == result` and a count above zero, which trips its assertion | `[a].insert(0, 0, x)` | inserting zero elements is a no-op | not executed | Vector.InsertNoneTripsMoveAssert | Vector.InsertN |
| vector.h:599-627 | after `grow()` in the single insert, the new end slot is assigned to without being constructed | `insert(begin(), x)` on a full vector | construct the end slot in both branches before shifting | not executed | Vector.InsertAsWrittenAssignsRaw | Vector.Insert |
