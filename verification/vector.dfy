/** The dynamic array. Storage is one buffer of cells whose length is the
    capacity; the first `size` cells hold live objects and the rest are raw.
    A buffer of length 0 stands for the null `m_begin` of a vector that has
    never allocated. Every operation is stated as a splice on the sequence of
    live values. */
module Vector {
  import opened Utility
  import opened Algorithm

  /** `kInitialCapacity`. */
  const INITIAL_CAPACITY: nat := 16

  /** `npos`, `size_type(-1)` for a 64-bit `size_t`. */
  const NPOS: nat := 0xFFFF_FFFF_FFFF_FFFF

  datatype Vec<T> = Vec(mem: seq<Cell<T>>, size: nat)

  function Capacity<T>(v: Vec<T>): nat
  {
    |v.mem|
  }

  /** Live objects exactly in `[begin, end)`, raw storage up to the capacity. */
  ghost predicate Valid<T>(v: Vec<T>)
  {
    v.size <= |v.mem| && AllLive(v.mem, 0, v.size) && AllRaw(v.mem, v.size, |v.mem|)
  }

  /** The elements, in order. */
  function Contents<T>(v: Vec<T>): (r: seq<T>)
    requires v.size <= |v.mem| && AllLive(v.mem, 0, v.size)
    ensures |r| == v.size
  {
    Values(v.mem, 0, v.size)
  }

  /** A fresh allocation of n cells: raw storage. */
  function RawCells<T>(n: nat): (m: seq<Cell<T>>)
    ensures |m| == n && AllRaw(m, 0, n)
  {
    seq(n, _ => Raw)
  }

  /** The default-constructed vector: no storage at all. */
  function Empty<T>(): (v: Vec<T>)
    ensures Valid(v) && Contents(v) == [] && Capacity(v) == 0
  {
    Vec([], 0)
  }

  /** Two valid vectors with the same live cells, size and capacity are equal. */
  lemma ValidExtensional<T>(a: Vec<T>, b: Vec<T>)
    requires Valid(a) && Valid(b) && a.size == b.size && |a.mem| == |b.mem|
    requires Contents(a) == Contents(b)
    ensures a == b
  {
    assert forall k :: 0 <= k < a.size ==> a.mem[k] == Live(Contents(a)[k]);
    assert a.mem == b.mem;
  }

  // ----- storage -----

  /** `move_construct_n` from the start of another buffer into the start of
      this one; the two buffers are modelled as one memory, the destination
      first. */
  method MoveConstructFrom<T>(dst: seq<Cell<T>>, src: seq<Cell<T>>, n: nat) returns (m: seq<Cell<T>>)
    requires n <= |dst| && n <= |src| && AllLive(src, 0, n)
    ensures |m| == |dst|
    ensures forall k :: 0 <= k < |m| ==> m[k] == (if k < n then src[k] else dst[k])
  {
    var joint := dst + src;
    assert AllLive(joint, |dst|, |dst| + n) by {
      assert forall k :: |dst| <= k < |dst| + n ==> joint[k] == src[k - |dst|];
    }
    joint := MoveConstructN(joint, |dst|, n, 0);
    m := joint[..|dst|];
  }

  /** `copy_construct_n` from the start of another buffer into the start of
      this one. */
  method CopyConstructFrom<T>(dst: seq<Cell<T>>, src: seq<Cell<T>>, n: nat) returns (m: seq<Cell<T>>)
    requires n <= |dst| && n <= |src| && AllLive(src, 0, n)
    ensures |m| == |dst|
    ensures forall k :: 0 <= k < |m| ==> m[k] == (if k < n then src[k] else dst[k])
  {
    var joint := dst + src;
    assert AllLive(joint, |dst|, |dst| + n) by {
      assert forall k :: |dst| <= k < |dst| + n ==> joint[k] == src[k - |dst|];
    }
    joint := CopyConstructN(joint, |dst|, n, 0);
    m := joint[..|dst|];
  }

  /** `standard_vector_storage::reallocate(newCapacity, size())`: allocate,
      move-construct the elements that fit, destroy the old ones. Every
      caller passes the current size as the old size. */
  method Reallocate<T>(v: Vec<T>, newCapacity: nat) returns (v': Vec<T>)
    requires Valid(v)
    ensures Valid(v') && Capacity(v') == newCapacity
    ensures v'.size == (if v.size < newCapacity then v.size else newCapacity)
    ensures Contents(v') == Contents(v)[..v'.size]
  {
    var newSize := if v.size < newCapacity then v.size else newCapacity;
    var newBegin := RawCells<T>(newCapacity);
    if |v.mem| > 0 {
      newBegin := MoveConstructFrom(newBegin, v.mem, newSize);
      var destroyed := DestructN(v.mem, 0, v.size);
    }
    v' := Vec(newBegin, newSize);
    assert forall k :: 0 <= k < newSize ==> Contents(v')[k] == Contents(v)[k];
  }

  /** `reallocate_discard_old(newCapacity)`: a fresh, larger buffer, the old
      objects destroyed and nothing copied. The size is left as it was, over
      raw storage: both callers overwrite it straight after. */
  method ReallocateDiscardOld<T>(v: Vec<T>, newCapacity: nat) returns (mem: seq<Cell<T>>)
    requires Valid(v) && newCapacity > Capacity(v)
    ensures |mem| == newCapacity && AllRaw(mem, 0, newCapacity)
  {
    mem := RawCells<T>(newCapacity);
    if |v.mem| > 0 {
      var destroyed := DestructN(v.mem, 0, v.size);
    }
  }

  /** `compute_new_capacity`: the requested capacity if it is more than
      double the current one, otherwise double the current one (16 for an
      unallocated vector). */
  function ComputeNewCapacity(capacity: nat, newMinCapacity: nat): (r: nat)
    ensures r >= newMinCapacity && r >= 2 * capacity
    ensures r == newMinCapacity || r == 2 * capacity || (capacity == 0 && r == INITIAL_CAPACITY)
    ensures capacity > 0 && newMinCapacity <= 2 * capacity ==> r == 2 * capacity
  {
    if newMinCapacity > capacity * 2 then newMinCapacity
    else if capacity == 0 then INITIAL_CAPACITY
    else capacity * 2
  }

  /** `grow`: called only on a full vector; double the capacity (16 for an
      unallocated vector), keeping every element. */
  method Grow<T>(v: Vec<T>) returns (v': Vec<T>)
    requires Valid(v) && v.size == Capacity(v)
    ensures Valid(v') && Contents(v') == Contents(v)
    ensures Capacity(v') == (if Capacity(v) == 0 then INITIAL_CAPACITY else 2 * Capacity(v))
    ensures v'.size < Capacity(v')
  {
    var c := Capacity(v);
    v' := Reallocate(v, if |v.mem| == 0 then INITIAL_CAPACITY else c * 2);
  }

  // ----- push / pop / shrink / reserve -----

  /** `push_back(v)`: copy-construct at the end, growing first when full. */
  method PushBack<T>(v: Vec<T>, x: T) returns (v': Vec<T>)
    requires Valid(v)
    ensures Valid(v') && Contents(v') == Contents(v) + [x]
    ensures v.size < Capacity(v) ==> Capacity(v') == Capacity(v)
    ensures v.size == Capacity(v) ==> Capacity(v') == (if Capacity(v) == 0 then INITIAL_CAPACITY else 2 * Capacity(v))
  {
    var w := v;
    if v.size >= |v.mem| {
      w := Grow(v);
    }
    v' := Vec(w.mem[w.size := Live(x)], w.size + 1);
    assert forall k :: 0 <= k < w.size ==> Contents(v')[k] == Contents(w)[k];
  }

  /** `push_back()`: the extension that default-constructs the new last
      element; `dflt` is the value `T()` produces. */
  method PushBackDefault<T>(v: Vec<T>, dflt: T) returns (v': Vec<T>)
    requires Valid(v)
    ensures Valid(v') && Contents(v') == Contents(v) + [dflt]
    ensures v.size < Capacity(v) ==> Capacity(v') == Capacity(v)
    ensures v.size == Capacity(v) ==> Capacity(v') == (if Capacity(v) == 0 then INITIAL_CAPACITY else 2 * Capacity(v))
  {
    var w := v;
    if v.size == |v.mem| {
      w := Grow(v);
    }
    var mem := ConstructN(w.mem, w.size, 1, dflt);
    v' := Vec(mem, w.size + 1);
    assert forall k :: 0 <= k < w.size ==> Contents(v')[k] == Contents(w)[k];
  }

  /** `pop_back`: destroy the last element. */
  method PopBack<T>(v: Vec<T>) returns (v': Vec<T>)
    requires Valid(v) && v.size > 0
    ensures Valid(v') && Capacity(v') == Capacity(v)
    ensures Contents(v') == Contents(v)[..v.size - 1]
  {
    var mem := DestructN(v.mem, v.size - 1, 1);
    v' := Vec(mem, v.size - 1);
    assert forall k :: 0 <= k < v'.size ==> Contents(v')[k] == Contents(v)[k];
  }

  /** Pushing then popping gives back the same vector when there was room. */
  lemma PushPopCancel<T>(v: Vec<T>, pushed: Vec<T>, popped: Vec<T>, x: T)
    requires Valid(v) && Valid(pushed) && Valid(popped)
    requires Contents(pushed) == Contents(v) + [x] && Capacity(pushed) == Capacity(v)
    requires Contents(popped) == Contents(pushed)[..pushed.size - 1] && Capacity(popped) == Capacity(pushed)
    ensures popped == v
  {
    assert Contents(popped) == Contents(v);
    ValidExtensional(popped, v);
  }

  /** `shrink(newSize)`: destroy the elements from `newSize` on. */
  method Shrink<T>(v: Vec<T>, newSize: nat) returns (v': Vec<T>)
    requires Valid(v) && newSize <= v.size
    ensures Valid(v') && Capacity(v') == Capacity(v)
    ensures Contents(v') == Contents(v)[..newSize]
  {
    var mem := DestructN(v.mem, newSize, v.size - newSize);
    v' := Vec(mem, newSize);
    assert forall k :: 0 <= k < newSize ==> Contents(v')[k] == Contents(v)[k];
  }

  /** `clear`: destroy every element and keep the storage. */
  method Clear<T>(v: Vec<T>) returns (v': Vec<T>)
    requires Valid(v)
    ensures Valid(v') && Contents(v') == [] && Capacity(v') == Capacity(v)
  {
    v' := Shrink(v, 0);
  }

  /** `reserve(n)`: reallocate only to raise the capacity; the elements never
      change. */
  method Reserve<T>(v: Vec<T>, n: nat) returns (v': Vec<T>)
    requires Valid(v)
    ensures Valid(v') && Contents(v') == Contents(v)
    ensures Capacity(v') == (if n > Capacity(v) then n else Capacity(v))
    ensures n <= Capacity(v) ==> v' == v
  {
    if n > |v.mem| {
      v' := Reallocate(v, n);
    } else {
      v' := v;
    }
  }

  // ----- insert -----

  /** The cells after inserting n copies of `val` at `index` into the first
      `prevSize` cells: the prefix stays, n copies follow, then the old tail. */
  ghost function InsertedCells<T>(mem: seq<Cell<T>>, index: nat, n: nat, prevSize: nat, val: T): (m: seq<Cell<T>>)
    requires index <= prevSize && prevSize + n <= |mem|
    ensures |m| == |mem|
  {
    seq(|mem|, k requires 0 <= k < |mem| =>
      if k < index then mem[k]
      else if k < index + n then Live(val)
      else if k < prevSize + n then mem[k - n]
      else mem[k])
  }

  /** Those cells make a valid vector holding the spliced sequence. */
  lemma InsertedValid<T>(v: Vec<T>, mem: seq<Cell<T>>, index: nat, n: nat, val: T)
    requires Valid(v) && index <= v.size && v.size + n <= |v.mem|
    requires mem == InsertedCells(v.mem, index, n, v.size, val)
    ensures Valid(Vec(mem, v.size + n))
    ensures Contents(Vec(mem, v.size + n)) == Contents(v)[..index] + seq(n, _ => val) + Contents(v)[index..]
  {
    var c := Contents(v);
    var r := Contents(Vec(mem, v.size + n));
    var want := c[..index] + seq(n, _ => val) + c[index..];
    assert |r| == |want|;
    forall k | 0 <= k < |r|
      ensures r[k] == want[k]
    {
      if k < index {
      } else if k < index + n {
      } else {
        assert mem[k] == v.mem[k - n];
      }
    }
  }

  /** The assignment loop `for (i < count) m_begin[at + i] = val`. */
  method AssignFill<T>(mem: seq<Cell<T>>, at: nat, count: nat, val: T) returns (m: seq<Cell<T>>)
    requires at + count <= |mem| && AllLive(mem, at, at + count)
    ensures |m| == |mem|
    ensures forall k :: 0 <= k < |mem| ==> m[k] == (if at <= k < at + count then Live(val) else mem[k])
  {
    m := mem;
    var i := 0;
    while i < count
      invariant i <= count && |m| == |mem|
      invariant forall k :: 0 <= k < |mem| ==> m[k] == (if at <= k < at + i then Live(val) else mem[k])
    {
      m := m[at + i := Live(val)];
      i := i + 1;
    }
  }

  /** The path of `insert(index, n, val)` for an insertion reaching past the
      old end: copy-construct the copies of `val` that land in raw storage,
      copy-construct the old tail after them, then assign `val` over the old
      tail's first places. */
  method InsertPastEnd<T>(mem: seq<Cell<T>>, index: nat, n: nat, prevSize: nat, val: T) returns (m: seq<Cell<T>>)
    requires index <= prevSize < index + n && prevSize + n <= |mem|
    requires AllLive(mem, 0, prevSize)
    ensures m == InsertedCells(mem, index, n, prevSize, val)
  {
    var numCopy := prevSize - index;
    var numAppend := index + n - prevSize;
    var itOut := prevSize;
    var m1 := ConstructN(mem, itOut, numAppend, val);
    itOut := itOut + numAppend;
    var m2 := CopyConstructN(m1, index, numCopy, itOut);
    assert ForwardSafe(index, numCopy, itOut);
    m := AssignFill(m2, index, numCopy, val);
  }

  /** The path for an insertion that ends inside the old elements:
      copy-construct the last n elements into raw storage, move the rest of
      the tail up by n, then assign `val` over the gap. */
  method InsertInPlace<T>(mem: seq<Cell<T>>, index: nat, n: nat, prevSize: nat, val: T) returns (m: seq<Cell<T>>)
    requires 0 < n && index + n <= prevSize && prevSize + n <= |mem|
    requires AllLive(mem, 0, prevSize)
    ensures m == InsertedCells(mem, index, n, prevSize, val)
  {
    var m1 := CopyConstructN(mem, prevSize - n, n, prevSize);
    assert ForwardSafe(prevSize - n, n, prevSize);
    var m2 := MoveNAsWritten(m1, index, prevSize - (index + n), index + n);
    MoveNAsWrittenUpward(m1, index, prevSize - (index + n), index + n);
    m := AssignFill(m2, index, n, val);
  }

  /** `insert(index, n, val)`, also reached through `insert(it, n, val)`:
      make room (reallocating by the capacity policy when the new size does
      not fit), then take one of the two paths. Inserting no copies changes
      nothing. */
  method InsertN<T>(v: Vec<T>, index: nat, n: nat, val: T) returns (v': Vec<T>)
    requires Valid(v) && index <= v.size
    ensures Valid(v')
    ensures Contents(v') == Contents(v)[..index] + seq(n, _ => val) + Contents(v)[index..]
    ensures Capacity(v') == (if v.size + n > Capacity(v) then ComputeNewCapacity(Capacity(v), v.size + n) else Capacity(v))
  {
    if n == 0 {
      assert Contents(v)[..index] + seq(n, _ => val) + Contents(v)[index..] == Contents(v);
      return v;
    }
    var prevSize := v.size;
    var w := v;
    if prevSize + n > |v.mem| {
      w := Reallocate(v, ComputeNewCapacity(|v.mem|, prevSize + n));
    }
    var mem;
    if index + n > prevSize {
      mem := InsertPastEnd(w.mem, index, n, prevSize, val);
    } else {
      mem := InsertInPlace(w.mem, index, n, prevSize, val);
    }
    InsertedValid(w, mem, index, n, val);
    v' := Vec(mem, prevSize + n);
  }

  /** The `move_n` call of the in-place path, `move_n(insertPos,
      prevSize - indexEnd, insertPos + n)`, as (from, count, result). */
  function InPlaceMoveArgs(index: nat, n: nat, prevSize: nat): (r: (nat, nat, nat))
    requires index + n <= prevSize
    ensures r.0 == index && r.2 == r.0 + n && r.2 + r.1 == prevSize
  {
    (index, prevSize - (index + n), index + n)
  }

  /** `move_n`'s debug assertion `from != result || n == 0`. */
  predicate MoveNAssertHolds(from: nat, count: nat, result: nat)
  {
    from != result || count == 0
  }

  /** Without the early return for n == 0, the in-place path calls `move_n`
      with the source equal to the destination and a non-empty count whenever
      `index < size()`, so `insert(index, 0, val)` trips the assertion; for
      n > 0 the call is always allowed. */
  lemma InsertNoneTripsMoveAssert(index: nat, n: nat, prevSize: nat)
    requires index + n <= prevSize
    ensures var (f, c, r) := InPlaceMoveArgs(index, n, prevSize);
      MoveNAssertHolds(f, c, r) <==> n > 0 || index == prevSize
  {
  }

  /** `insert(it, val)`: make room for one element at the end (growing when
      full, otherwise default-constructing the new last slot), shift the
      tail up by one with the backward element loop, and assign `val` at the
      insertion point. `dflt` is the value `T()` produces. The new last slot
      is constructed on both paths. */
  method Insert<T>(v: Vec<T>, index: nat, val: T, dflt: T) returns (v': Vec<T>, it: nat)
    requires Valid(v) && index <= v.size
    ensures Valid(v') && it == index
    ensures Contents(v') == Contents(v)[..index] + [val] + Contents(v)[index..]
    ensures Capacity(v') == (if v.size == Capacity(v) then (if Capacity(v) == 0 then INITIAL_CAPACITY else 2 * Capacity(v)) else Capacity(v))
  {
    var w := v;
    if v.size == |v.mem| {
      w := Grow(v);
    }
    var mem := ConstructN(w.mem, w.size, 1, dflt);
    if w.size > index {
      mem := MoveNBackward(mem, index, w.size - index, index + 1);
    }
    mem := mem[index := Live(val)];
    assert mem == InsertedCells(w.mem, index, 1, w.size, val);
    InsertedValid(w, mem, index, 1, val);
    assert seq(1, _ => val) == [val];
    v' := Vec(mem, w.size + 1);
    it := index;
  }

  /** `insert(it, val)` as written constructs the new last slot only when it
      does not grow. After growing, the first assignment into that slot (by
      the backward loop, or by `*it = val` at the end) targets raw storage:
      exactly when the vector was full. */
  method InsertAsWrittenAssignsRaw<T>(v: Vec<T>, index: nat, dflt: T) returns (assignsRaw: bool)
    requires Valid(v) && index <= v.size
    ensures assignsRaw <==> v.size == Capacity(v)
  {
    var w := v;
    var mem;
    if v.size == |v.mem| {
      w := Grow(v);
      mem := w.mem;
    } else {
      mem := ConstructN(w.mem, w.size, 1, dflt);
    }
    assignsRaw := mem[w.size].Raw?;
  }

  // ----- erase -----

  /** `erase(it)` for `it != end()`: copy the tail down by one over the
      erased element, then destroy the last slot. Returns the same index. */
  method Erase<T>(v: Vec<T>, index: nat) returns (v': Vec<T>, it: nat)
    requires Valid(v) && index < v.size
    ensures Valid(v') && Capacity(v') == Capacity(v) && it == index
    ensures Contents(v') == Contents(v)[..index] + Contents(v)[index + 1..]
  {
    var mem := v.mem;
    if index + 1 < v.size {
      mem := Utility.Copy(mem, index + 1, v.size, index);
      assert ForwardSafe(index + 1, v.size - (index + 1), index);
    }
    mem := DestructN(mem, v.size - 1, 1);
    v' := Vec(mem, v.size - 1);
    var c := Contents(v);
    assert Contents(v') == c[..index] + c[index + 1..] by {
      forall k | 0 <= k < v'.size
        ensures Contents(v')[k] == (c[..index] + c[index + 1..])[k]
      {
        if k >= index {
          assert mem[k] == v.mem[k + 1];
        }
      }
    }
    it := index;
  }

  /** `erase(first, last)`: nothing happens and `end()` is returned when
      `last <= first`; otherwise the tail from `last` is copied down to
      `first`, the vector shrinks by the number removed, and the index of
      `first` is returned. */
  method EraseRange<T>(v: Vec<T>, first: nat, last: nat) returns (v': Vec<T>, it: nat)
    requires Valid(v) && first <= v.size && last <= v.size
    ensures Valid(v') && Capacity(v') == Capacity(v)
    ensures last <= first ==> v' == v && it == v.size
    ensures first < last ==> it == first && Contents(v') == Contents(v)[..first] + Contents(v)[last..]
  {
    if last <= first {
      return v, v.size;
    }
    var toRemove := last - first;
    var mem := Utility.Copy(v.mem, last, v.size, first);
    assert ForwardSafe(last, v.size - last, first);
    var moved := Vec(mem, v.size);
    var c := Contents(v);
    assert Valid(moved);
    assert Contents(moved)[..v.size - toRemove] == c[..first] + c[last..] by {
      forall k | 0 <= k < v.size - toRemove
        ensures Contents(moved)[k] == (c[..first] + c[last..])[k]
      {
        if k >= first {
          assert mem[k] == v.mem[k + toRemove];
        }
      }
    }
    v' := Shrink(moved, v.size - toRemove);
    it := first;
  }

  /** `erase_unordered(it)` for `it != end()`: overwrite the element with the
      last one (unless it is the last one) and pop the back. */
  method EraseUnordered<T>(v: Vec<T>, index: nat) returns (v': Vec<T>)
    requires Valid(v) && index < v.size
    ensures Valid(v') && Capacity(v') == Capacity(v) && v'.size + 1 == v.size
    ensures multiset(Contents(v')) + multiset{Contents(v)[index]} == multiset(Contents(v))
    ensures index < v.size - 1 ==> Contents(v') == Contents(v)[..index] + [Contents(v)[v.size - 1]] + Contents(v)[index + 1..v.size - 1]
    ensures index == v.size - 1 ==> Contents(v') == Contents(v)[..index]
  {
    var c := Contents(v);
    var last := v.size - 1;
    var w := v;
    if index != last {
      w := Vec(v.mem[index := v.mem[last]], v.size);
      assert Contents(w) == c[..index] + [c[last]] + c[index + 1..];
    }
    v' := PopBack(w);
    if index != last {
      assert Contents(v') == c[..index] + [c[last]] + c[index + 1..last];
      assert c == c[..index] + [c[index]] + c[index + 1..last] + [c[last]];
    } else {
      assert c == c[..index] + [c[index]];
    }
  }

  // ----- size and capacity -----

  /** `resize(n)`: append copies of `T()` (passed as `dflt`) up to n, or
      destroy the elements from n on. */
  method Resize<T>(v: Vec<T>, n: nat, dflt: T) returns (v': Vec<T>)
    requires Valid(v)
    ensures Valid(v') && v'.size == n
    ensures n > v.size ==> Contents(v') == Contents(v) + seq(n - v.size, _ => dflt)
    ensures n <= v.size ==> Contents(v') == Contents(v)[..n] && Capacity(v') == Capacity(v)
    ensures n > v.size ==> Capacity(v') == (if n > Capacity(v) then ComputeNewCapacity(Capacity(v), n) else Capacity(v))
  {
    if n > v.size {
      v' := InsertN(v, v.size, n - v.size, dflt);
      assert Contents(v)[..v.size] == Contents(v) && Contents(v)[v.size..] == [];
    } else {
      v' := Shrink(v, n);
    }
  }

  // ----- search -----

  /** `index_of(item, index)`: the first position at or after `index` holding
      `item`, or `npos`. The size is below `npos` because it is a `size_t`. */
  method IndexOf<T(==)>(v: Vec<T>, item: T, index: nat) returns (r: nat)
    requires Valid(v) && v.size < NPOS
    ensures r == NPOS || (index <= r < v.size && Contents(v)[r] == item)
    ensures r == NPOS <==> forall k :: index <= k < v.size ==> Contents(v)[k] != item
    ensures r != NPOS ==> forall k :: index <= k < r ==> Contents(v)[k] != item
  {
    var i := index;
    while i < v.size
      invariant index <= i || v.size <= index
      invariant forall k :: index <= k < i && k < v.size ==> Contents(v)[k] != item
    {
      if v.mem[i].val == item {
        return i;
      }
      i := i + 1;
    }
    return NPOS;
  }

  /** `find(item)`: the first position holding `item`, or `size()` (the end
      iterator) when there is none. */
  method Find<T(==)>(v: Vec<T>, item: T) returns (r: nat)
    requires Valid(v)
    ensures r <= v.size
    ensures r < v.size ==> Contents(v)[r] == item
    ensures forall k :: 0 <= k < r ==> Contents(v)[k] != item
  {
    r := 0;
    while r < v.size
      invariant r <= v.size
      invariant forall k :: 0 <= k < r ==> Contents(v)[k] != item
    {
      if v.mem[r].val == item {
        return;
      }
      r := r + 1;
    }
  }

  // ----- assignment and copies -----

  /** The elements of a source range as live cells. */
  function LiveCells<T>(src: seq<T>): (m: seq<Cell<T>>)
    ensures |m| == |src| && AllLive(m, 0, |m|)
    ensures forall k :: 0 <= k < |src| ==> m[k] == Live(src[k])
  {
    seq(|src|, k requires 0 <= k < |src| => Live(src[k]))
  }

  /** A buffer whose first n cells are constructed and whose rest is raw
      holds a valid vector of size n. */
  lemma ConstructedPrefix<T>(mem: seq<Cell<T>>, src: seq<Cell<T>>, n: nat)
    requires n <= |mem| && n <= |src| && AllLive(src, 0, n)
    requires forall k :: 0 <= k < |mem| ==> mem[k] == (if k < n then src[k] else Raw)
    ensures Valid(Vec(mem, n))
    ensures Contents(Vec(mem, n)) == Values(src, 0, n)
  {
  }

  /** `assign(first, last)` with a non-empty range, with the copy into the
      cleared buffer done by copy construction. */
  method Assign<T>(v: Vec<T>, src: seq<T>) returns (v': Vec<T>)
    requires Valid(v) && |src| > 0
    ensures Valid(v') && Contents(v') == src
    ensures Capacity(v') == (if |src| > Capacity(v) then ComputeNewCapacity(Capacity(v), |src|) else Capacity(v))
  {
    var count := |src|;
    var w := Clear(v);
    var mem := w.mem;
    if count > |w.mem| {
      mem := ReallocateDiscardOld(w, ComputeNewCapacity(|w.mem|, count));
    }
    var cells := LiveCells(src);
    mem := CopyConstructFrom(mem, cells, count);
    ConstructedPrefix(mem, cells, count);
    v' := Vec(mem, count);
  }

  /** `assign` as written clears the vector and then `copy_n`s the range, an
      element-wise assignment, into the cleared buffer: every one of the
      `count` destination cells is raw storage. */
  method AssignAsWrittenAssignsRaw<T>(v: Vec<T>, src: seq<T>) returns (assignsRaw: bool)
    requires Valid(v) && |src| > 0
    ensures assignsRaw
  {
    var count := |src|;
    var w := Clear(v);
    var mem := w.mem;
    if count > |w.mem| {
      mem := ReallocateDiscardOld(w, ComputeNewCapacity(|w.mem|, count));
    }
    assignsRaw := forall k :: 0 <= k < count ==> mem[k].Raw?;
  }

  /** `copy(rhs)`, also `operator=`, with the old elements destroyed first:
      the result holds rhs's elements and keeps the capacity when they fit,
      otherwise takes rhs's capacity. */
  method Copy<T>(v: Vec<T>, rhs: Vec<T>) returns (v': Vec<T>)
    requires Valid(v) && Valid(rhs)
    ensures Valid(v') && Contents(v') == Contents(rhs)
    ensures Capacity(v') == (if rhs.size > Capacity(v) then Capacity(rhs) else Capacity(v))
  {
    var newSize := rhs.size;
    var w := Clear(v);
    var mem := w.mem;
    if newSize > |w.mem| {
      mem := ReallocateDiscardOld(w, |rhs.mem|);
    }
    mem := CopyConstructFrom(mem, rhs.mem, newSize);
    ConstructedPrefix(mem, rhs.mem, newSize);
    v' := Vec(mem, newSize);
  }

  /** `copy(rhs)` as written copy-constructs over the old elements without
      destroying them. The copied values are right, but when rhs is shorter
      and fits, the old elements past the new end are still alive beyond
      `end()`: the result breaks the storage invariant and those elements are
      never destroyed. */
  method CopyAsWritten<T>(v: Vec<T>, rhs: Vec<T>) returns (v': Vec<T>)
    requires Valid(v) && Valid(rhs)
    ensures v'.size == rhs.size <= |v'.mem| && AllLive(v'.mem, 0, v'.size)
    ensures Contents(v') == Contents(rhs)
    ensures rhs.size < v.size ==> !Valid(v')
  {
    var newSize := rhs.size;
    var mem := v.mem;
    if newSize > |v.mem| {
      mem := ReallocateDiscardOld(v, |rhs.mem|);
    }
    mem := CopyConstructFrom(mem, rhs.mem, newSize);
    v' := Vec(mem, newSize);
    if rhs.size < v.size {
      assert mem[newSize] == v.mem[newSize];
    }
  }

  /** The copy constructor: an empty vector for an empty rhs, otherwise a
      buffer of rhs's capacity holding copies of its elements. */
  method CopyConstruct<T>(rhs: Vec<T>) returns (v: Vec<T>)
    requires Valid(rhs)
    ensures Valid(v) && Contents(v) == Contents(rhs)
    ensures Capacity(v) == (if rhs.size == 0 then 0 else Capacity(rhs))
  {
    if rhs.size == 0 {
      return Empty();
    }
    var mem := ReallocateDiscardOld(Empty<T>(), |rhs.mem|);
    mem := CopyConstructFrom(mem, rhs.mem, rhs.size);
    ConstructedPrefix(mem, rhs.mem, rhs.size);
    v := Vec(mem, rhs.size);
  }

  /** `vector(initialSize)`: `resize` on an empty vector. */
  method WithSize<T>(initialSize: nat, dflt: T) returns (v: Vec<T>)
    ensures Valid(v) && Contents(v) == seq(initialSize, _ => dflt)
    ensures Capacity(v) == initialSize
  {
    v := Resize(Empty(), initialSize, dflt);
    assert [] + seq(initialSize, _ => dflt) == seq(initialSize, _ => dflt);
  }

  /** `vector(first, last)`: `assign` on an empty vector. */
  method FromRange<T>(src: seq<T>) returns (v: Vec<T>)
    requires |src| > 0
    ensures Valid(v) && Contents(v) == src
    ensures Capacity(v) == |src|
  {
    v := Assign(Empty(), src);
  }
}
