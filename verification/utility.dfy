/** Element-wise copy, move, construct and destroy primitives. Memory is a
    sequence of cells, each either raw storage or a live object, and a
    pointer is an index into it, so a source and a destination range may
    overlap. Only the element-wise code paths are modelled; the byte-copy
    paths chosen for trivially copyable types are not. */
module Utility {
  import opened Bits

  /** A storage cell: uninitialised, or holding a constructed object. */
  datatype Cell<T> = Raw | Live(val: T)

  predicate AllLive<T>(mem: seq<Cell<T>>, lo: nat, hi: nat)
    requires lo <= hi <= |mem|
  {
    forall k :: lo <= k < hi ==> mem[k].Live?
  }

  predicate AllRaw<T>(mem: seq<Cell<T>>, lo: nat, hi: nat)
    requires lo <= hi <= |mem|
  {
    forall k :: lo <= k < hi ==> mem[k].Raw?
  }

  /** The values held by a range of live cells. */
  function Values<T>(mem: seq<Cell<T>>, lo: nat, hi: nat): (r: seq<T>)
    requires lo <= hi <= |mem| && AllLive(mem, lo, hi)
    ensures |r| == hi - lo
    ensures forall k :: 0 <= k < |r| ==> mem[lo + k] == Live(r[k])
  {
    seq(hi - lo, k requires 0 <= k < hi - lo => mem[lo + k].val)
  }

  /** Memory after the n cells at `first` have been copied to `result`, all
      of them read before any is written: what a correct copy or move of
      possibly overlapping ranges produces. */
  function Placed<C>(mem: seq<C>, first: nat, result: nat, n: nat): (m: seq<C>)
    requires first + n <= |mem| && result + n <= |mem|
  {
    seq(|mem|, k requires 0 <= k < |mem| => if result <= k < result + n then mem[first + k - result] else mem[k])
  }

  /** Reference semantics of a forward element loop, `*result++ = *first++`,
      from element i up to n: each element is read after every earlier one
      has been written. */
  function ForwardFrom<C>(mem: seq<C>, first: nat, result: nat, i: nat, n: nat): (m: seq<C>)
    requires i <= n && first + n <= |mem| && result + n <= |mem|
    ensures |m| == |mem|
    decreases n - i
  {
    if i == n then mem else ForwardFrom(mem[result + i := mem[first + i]], first, result, i + 1, n)
  }

  /** Reference semantics of a backward element loop, `result[i] = from[i]`
      for i from n - 1 down to 0: the i remaining elements, last first. */
  function BackwardFrom<C>(mem: seq<C>, first: nat, result: nat, i: nat): (m: seq<C>)
    requires first + i <= |mem| && result + i <= |mem|
    ensures |m| == |mem|
    decreases i
  {
    if i == 0 then mem else BackwardFrom(mem[result + i - 1 := mem[first + i - 1]], first, result, i - 1)
  }

  /** A forward copy is a correct copy when the destination does not start
      inside the source range past its first element. */
  predicate ForwardSafe(first: nat, n: nat, result: nat)
  {
    result <= first || first + n <= result
  }

  /** A backward copy is a correct copy when the destination does not start
      before the source inside its range. */
  predicate BackwardSafe(first: nat, n: nat, result: nat)
  {
    first <= result || result + n <= first
  }

  lemma {:induction false} ForwardPlacesFrom<C>(mem: seq<C>, cur: seq<C>, first: nat, result: nat, i: nat, n: nat)
    requires i <= n && first + n <= |mem| && result + n <= |mem| && |cur| == |mem|
    requires ForwardSafe(first, n, result)
    requires forall k {:trigger cur[k]} :: 0 <= k < |cur| ==> cur[k] == (if result <= k < result + i then mem[first + k - result] else mem[k])
    ensures ForwardFrom(cur, first, result, i, n) == Placed(mem, first, result, n)
    decreases n - i
  {
    if i < n {
      var next := cur[result + i := cur[first + i]];
      assert cur[first + i] == mem[first + i];
      ForwardPlacesFrom(mem, next, first, result, i + 1, n);
    }
  }

  /** The forward loop copies correctly whenever it is safe to run forward. */
  lemma ForwardPlaces<C>(mem: seq<C>, first: nat, result: nat, n: nat)
    requires first + n <= |mem| && result + n <= |mem|
    requires ForwardSafe(first, n, result)
    ensures ForwardFrom(mem, first, result, 0, n) == Placed(mem, first, result, n)
  {
    ForwardPlacesFrom(mem, mem, first, result, 0, n);
  }

  lemma {:induction false} BackwardPlacesFrom<C>(mem: seq<C>, cur: seq<C>, first: nat, result: nat, i: nat, n: nat)
    requires i <= n && first + n <= |mem| && result + n <= |mem| && |cur| == |mem|
    requires BackwardSafe(first, n, result)
    requires forall k {:trigger cur[k]} :: 0 <= k < |cur| ==> cur[k] == (if result + i <= k < result + n then mem[first + k - result] else mem[k])
    ensures BackwardFrom(cur, first, result, i) == Placed(mem, first, result, n)
    decreases i
  {
    if i > 0 {
      var next := cur[result + i - 1 := cur[first + i - 1]];
      assert cur[first + i - 1] == mem[first + i - 1];
      BackwardPlacesFrom(mem, next, first, result, i - 1, n);
    }
  }

  /** The backward loop copies correctly whenever it is safe to run backward. */
  lemma BackwardPlaces<C>(mem: seq<C>, first: nat, result: nat, n: nat)
    requires first + n <= |mem| && result + n <= |mem|
    requires BackwardSafe(first, n, result)
    ensures BackwardFrom(mem, first, result, n) == Placed(mem, first, result, n)
  {
    BackwardPlacesFrom(mem, mem, first, result, n, n);
  }

  /** Placing live cells over live cells keeps every cell of the destination
      range live. */
  lemma PlacedLive<T>(mem: seq<Cell<T>>, first: nat, result: nat, n: nat, lo: nat, hi: nat)
    requires first + n <= |mem| && result + n <= |mem| && lo <= hi <= |mem|
    requires AllLive(mem, first, first + n) && AllLive(mem, lo, hi)
    ensures AllLive(Placed(mem, first, result, n), lo, hi)
  {
  }

  /** One step of a forward loop, the assignment `*result++ = *first++`. */
  function StepForward<C>(mem: seq<C>, first: nat, result: nat, i: nat): (m: seq<C>)
    requires first + i < |mem| && result + i < |mem|
    ensures |m| == |mem| && m[result + i] == mem[first + i]
    ensures forall k :: 0 <= k < |mem| && k != result + i ==> m[k] == mem[k]
  {
    mem[result + i := mem[first + i]]
  }

  /** Assignment needs live objects on both sides. One forward step keeps
      both ranges live and advances the reference loop by one element. */
  lemma ForwardStep<T>(mem: seq<Cell<T>>, first: nat, result: nat, i: nat, n: nat)
    requires i < n && first + n <= |mem| && result + n <= |mem|
    requires AllLive(mem, first, first + n) && AllLive(mem, result, result + n)
    ensures AllLive(StepForward(mem, first, result, i), first, first + n)
    ensures AllLive(StepForward(mem, first, result, i), result, result + n)
    ensures ForwardFrom(StepForward(mem, first, result, i), first, result, i + 1, n) == ForwardFrom(mem, first, result, i, n)
  {
  }

  /** The same for one step of the backward loop, which handles element i - 1. */
  lemma BackwardStep<T>(mem: seq<Cell<T>>, first: nat, result: nat, i: nat, n: nat)
    requires 0 < i <= n && first + n <= |mem| && result + n <= |mem|
    requires AllLive(mem, first, first + n) && AllLive(mem, result, result + n)
    ensures AllLive(StepForward(mem, first, result, i - 1), first, first + n)
    ensures AllLive(StepForward(mem, first, result, i - 1), result, result + n)
    ensures BackwardFrom(StepForward(mem, first, result, i - 1), first, result, i - 1) == BackwardFrom(mem, first, result, i)
  {
  }

  /** One element assignment of a forward copy loop. */
  method AssignStep<T>(mem: seq<Cell<T>>, first: nat, result: nat, i: nat, n: nat, ghost target: seq<Cell<T>>)
    returns (m: seq<Cell<T>>, i': nat)
    requires i < n && first + n <= |mem| && result + n <= |mem|
    requires AllLive(mem, first, first + n) && AllLive(mem, result, result + n)
    requires ForwardFrom(mem, first, result, i, n) == target
    ensures i' == i + 1 && |m| == |mem|
    ensures AllLive(m, first, first + n) && AllLive(m, result, result + n)
    ensures ForwardFrom(m, first, result, i', n) == target
  {
    ForwardStep(mem, first, result, i, n);
    m, i' := StepForward(mem, first, result, i), i + 1;
  }

  /** `internal::copy_n` for objects with a non-trivial copy: assignment
      unrolled four times with Duff's device. The switch on `n & 3` enters
      the loop body part-way, so the first `n % 4` elements are copied
      before the first test of the loop condition. */
  method CopyN<T>(mem: seq<Cell<T>>, first: nat, n: nat, result: nat) returns (m: seq<Cell<T>>)
    requires first + n <= |mem| && result + n <= |mem|
    requires AllLive(mem, first, first + n) && AllLive(mem, result, result + n)
    ensures |m| == |mem|
    ensures ForwardSafe(first, n, result) ==> m == Placed(mem, first, result, n)
    ensures m == ForwardFrom(mem, first, result, 0, n)
  {
    ghost var target := ForwardFrom(mem, first, result, 0, n);
    AndLowMask(n, 4);
    var lead := And(n, 3);
    m := mem;
    var i: nat := 0;
    if lead >= 3 {
      m, i := AssignStep(m, first, result, i, n, target);
    }
    if lead >= 2 {
      m, i := AssignStep(m, first, result, i, n, target);
    }
    if lead >= 1 {
      m, i := AssignStep(m, first, result, i, n, target);
    }
    ghost var rounds: nat := n / 4;
    assert i + 4 * rounds == n;
    while i != n
      invariant i + 4 * rounds == n && |m| == |mem|
      invariant AllLive(m, first, first + n) && AllLive(m, result, result + n)
      invariant ForwardFrom(m, first, result, i, n) == target
      decreases rounds
    {
      m, i := AssignStep(m, first, result, i, n, target);
      m, i := AssignStep(m, first, result, i, n, target);
      m, i := AssignStep(m, first, result, i, n, target);
      m, i := AssignStep(m, first, result, i, n, target);
      rounds := rounds - 1;
    }
    if ForwardSafe(first, n, result) {
      ForwardPlaces(mem, first, result, n);
    }
  }

  /** `internal::copy` for objects with a non-trivial copy: assign
      `[first, last)` forward, one element at a time, to `result`. */
  method Copy<T>(mem: seq<Cell<T>>, first: nat, last: nat, result: nat) returns (m: seq<Cell<T>>)
    requires first <= last <= |mem| && result + (last - first) <= |mem|
    requires AllLive(mem, first, last) && AllLive(mem, result, result + (last - first))
    ensures m == ForwardFrom(mem, first, result, 0, last - first)
    ensures ForwardSafe(first, last - first, result) ==> m == Placed(mem, first, result, last - first)
  {
    var n := last - first;
    m := mem;
    var i := 0;
    while i != n
      invariant i <= n && |m| == |mem|
      invariant AllLive(m, first, first + n) && AllLive(m, result, result + n)
      invariant ForwardFrom(m, first, result, i, n) == ForwardFrom(mem, first, result, 0, n)
      decreases n - i
    {
      ForwardStep(m, first, result, i, n);
      m, i := StepForward(m, first, result, i), i + 1;
    }
    if ForwardSafe(first, n, result) {
      ForwardPlaces(mem, first, result, n);
    }
  }

  /** `internal::move_n` for objects with a non-trivial copy: assign
      `result[i] = from[i]` for i from n - 1 down to 0. The unsigned counter
      starts at n - 1 and the loop stops when it wraps to `size_t(-1)`, so
      n == 0 does nothing. */
  method MoveNBackward<T>(mem: seq<Cell<T>>, from: nat, n: nat, result: nat) returns (m: seq<Cell<T>>)
    requires from + n <= |mem| && result + n <= |mem|
    requires AllLive(mem, from, from + n) && AllLive(mem, result, result + n)
    ensures |m| == |mem|
    ensures BackwardSafe(from, n, result) ==> m == Placed(mem, from, result, n)
    ensures m == BackwardFrom(mem, from, result, n)
  {
    m := mem;
    var i: nat := n;
    while i != 0
      invariant i <= n && |m| == |mem|
      invariant AllLive(m, from, from + n) && AllLive(m, result, result + n)
      invariant BackwardFrom(m, from, result, i) == BackwardFrom(mem, from, result, n)
      decreases i
    {
      BackwardStep(m, from, result, i, n);
      m, i := StepForward(m, from, result, i - 1), i - 1;
    }
    if BackwardSafe(from, n, result) {
      BackwardPlaces(mem, from, result, n);
    }
  }

  /** `internal::move` for objects with a non-trivial copy: assign
      `[first, last)` to the range ending at `result + (last - first)`,
      starting from the last element. */
  method MoveBackward<T>(mem: seq<Cell<T>>, first: nat, last: nat, result: nat) returns (m: seq<Cell<T>>)
    requires first <= last <= |mem| && result + (last - first) <= |mem|
    requires AllLive(mem, first, last) && AllLive(mem, result, result + (last - first))
    ensures m == BackwardFrom(mem, first, result, last - first)
    ensures BackwardSafe(first, last - first, result) ==> m == Placed(mem, first, result, last - first)
  {
    var n := last - first;
    m := mem;
    var src := last;
    var dst := result + n;
    while src > first
      invariant first <= src <= last && dst == result + (src - first) && |m| == |mem|
      invariant AllLive(m, first, first + n) && AllLive(m, result, result + n)
      invariant BackwardFrom(m, first, result, src - first) == BackwardFrom(mem, first, result, n)
      decreases src
    {
      BackwardStep(m, first, result, src - first, n);
      m := StepForward(m, first, result, src - first - 1);
      src, dst := src - 1, dst - 1;
    }
    if BackwardSafe(first, n, result) {
      BackwardPlaces(mem, first, result, n);
    }
  }

  /** `internal::copy_construct_n` for objects with a non-trivial copy:
      construct `result[i]` from `first[i]` for ascending i. The destination
      may hold raw storage; the source must hold live objects. */
  method CopyConstructN<T>(mem: seq<Cell<T>>, first: nat, n: nat, result: nat) returns (m: seq<Cell<T>>)
    requires first + n <= |mem| && result + n <= |mem|
    requires AllLive(mem, first, first + n)
    ensures |m| == |mem|
    ensures ForwardSafe(first, n, result) ==> m == Placed(mem, first, result, n)
    ensures m == ForwardFrom(mem, first, result, 0, n)
    ensures ForwardSafe(first, n, result) ==> AllLive(m, result, result + n)
  {
    m := mem;
    var i := 0;
    while i < n
      invariant i <= n && |m| == |mem|
      invariant AllLive(m, first, first + n)
      invariant ForwardFrom(m, first, result, i, n) == ForwardFrom(mem, first, result, 0, n)
    {
      m := m[result + i := Live(m[first + i].val)];
      i := i + 1;
    }
    if ForwardSafe(first, n, result) {
      ForwardPlaces(mem, first, result, n);
    }
  }

  /** `internal::move_construct_n`: the same loop constructing from
      `std::move(first[i])`. A moved-from object stays live with a valid but
      unspecified value; the model keeps its value. */
  method MoveConstructN<T>(mem: seq<Cell<T>>, first: nat, n: nat, result: nat) returns (m: seq<Cell<T>>)
    requires first + n <= |mem| && result + n <= |mem|
    requires AllLive(mem, first, first + n)
    ensures |m| == |mem|
    ensures ForwardSafe(first, n, result) ==> m == Placed(mem, first, result, n)
    ensures m == ForwardFrom(mem, first, result, 0, n)
    ensures ForwardSafe(first, n, result) ==> AllLive(m, result, result + n)
  {
    m := CopyConstructN(mem, first, n, result);
  }

  /** `internal::construct_n`: construct `count` objects equal to `val` at
      `to`; `construct_n` itself passes the value `T()` produces. */
  method ConstructN<T>(mem: seq<Cell<T>>, to: nat, count: nat, val: T) returns (m: seq<Cell<T>>)
    requires to + count <= |mem|
    ensures |m| == |mem|
    ensures forall k :: 0 <= k < |mem| ==> m[k] == (if to <= k < to + count then Live(val) else mem[k])
  {
    m := mem;
    var i := 0;
    while i < count
      invariant i <= count && |m| == |mem|
      invariant forall k :: 0 <= k < |mem| ==> m[k] == (if to <= k < to + i then Live(val) else mem[k])
    {
      m := m[to + i := Live(val)];
      i := i + 1;
    }
  }

  /** `internal::destruct_n`: run the destructor of `n` live objects at
      `first`, leaving raw storage. */
  method DestructN<T>(mem: seq<Cell<T>>, first: nat, n: nat) returns (m: seq<Cell<T>>)
    requires first + n <= |mem| && AllLive(mem, first, first + n)
    ensures |m| == |mem|
    ensures forall k :: 0 <= k < |mem| ==> m[k] == (if first <= k < first + n then Raw else mem[k])
  {
    m := mem;
    var i := 0;
    while i < n
      invariant i <= n && |m| == |mem|
      invariant forall k :: 0 <= k < |mem| ==> m[k] == (if first <= k < first + i then Raw else mem[k])
    {
      m := m[first + i := Raw];
      i := i + 1;
    }
  }

  /** Constructing then destroying a range gives back raw storage, and
      destroying then constructing gives back the constructed values. */
  lemma ConstructDestructCancel<T>(mem: seq<Cell<T>>, built: seq<Cell<T>>, gone: seq<Cell<T>>, to: nat, count: nat, val: T)
    requires to + count <= |mem| && AllRaw(mem, to, to + count)
    requires |built| == |mem| && forall k :: 0 <= k < |mem| ==> built[k] == (if to <= k < to + count then Live(val) else mem[k])
    requires |gone| == |built| && forall k :: 0 <= k < |built| ==> gone[k] == (if to <= k < to + count then Raw else built[k])
    ensures gone == mem
  {
  }

  /** `internal::debug_pred`: the predicate's answer. A debug build also
      checks that the predicate is asymmetric on the pair it was asked about. */
  function DebugPred<T>(pred: (T, T) -> bool, a: T, b: T): (r: bool)
    requires pred(a, b) ==> !pred(b, a)
    ensures r ==> !pred(b, a)
    ensures r <==> pred(a, b)
  {
    if pred(a, b) then true else false
  }
}
