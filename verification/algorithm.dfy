/** The overlap-aware `move_n` / `move` dispatchers, `fill_n`, and the small
    scalar helpers `abs`, `min`, `max` and `swap`. */
module Algorithm {
  import opened Bits
  import opened Utility

  // ----- move_n / move -----

  /** The test both dispatchers use to decide that the ranges overlap: the
      destination ends at or after the source starts and starts before the
      source ends. */
  predicate OverlapTest(from: nat, n: nat, result: nat)
  {
    result + n >= from && result < from + n
  }

  /** `move_n` as written: on overlap it always takes the backward loop,
      otherwise the forward copy. */
  function MoveNAsWritten<C>(mem: seq<C>, from: nat, n: nat, result: nat): (m: seq<C>)
    requires from + n <= |mem| && result + n <= |mem|
    requires from != result || n == 0
    ensures |m| == |mem|
  {
    if OverlapTest(from, n, result) then BackwardFrom(mem, from, result, n) else ForwardFrom(mem, from, result, 0, n)
  }

  /** As written, `move_n` is correct when the destination does not start
      below the source inside it: for an upward or disjoint move. */
  lemma MoveNAsWrittenUpward<C>(mem: seq<C>, from: nat, n: nat, result: nat)
    requires from + n <= |mem| && result + n <= |mem|
    requires from != result || n == 0
    requires BackwardSafe(from, n, result)
    ensures MoveNAsWritten(mem, from, n, result) == Placed(mem, from, result, n)
  {
    if OverlapTest(from, n, result) {
      BackwardPlaces(mem, from, result, n);
    } else {
      ForwardPlaces(mem, from, result, n);
    }
  }

  /** Moving [b, c] one slot down in [a, b, c] with the dispatcher as
      written runs the backward loop, which overwrites b before reading it. */
  lemma MoveNAsWrittenDownwardOverlap()
    ensures MoveNAsWritten([Live(1), Live(2), Live(3)], 1, 2, 0) == [Live(3), Live(3), Live(3)]
    ensures Placed([Live(1), Live(2), Live(3)], 1, 0, 2) == [Live(2), Live(3), Live(3)]
  {
    var mem := [Live(1), Live(2), Live(3)];
    assert OverlapTest(1, 2, 0);
    assert BackwardFrom(mem, 1, 0, 2) == BackwardFrom([Live(1), Live(3), Live(3)], 1, 0, 1);
    assert BackwardFrom([Live(1), Live(3), Live(3)], 1, 0, 1) == BackwardFrom([Live(3), Live(3), Live(3)], 1, 0, 0);
    var p := Placed(mem, 1, 0, 2);
    assert p[0] == Live(2) && p[1] == Live(3) && p[2] == Live(3);
  }

  /** `move_n` with the direction chosen from the order of the ranges: the
      backward loop only when the destination starts inside the source past
      its first element, the forward copy otherwise. Every call moves the
      source range correctly. */
  method MoveN<T>(mem: seq<Cell<T>>, from: nat, n: nat, result: nat) returns (m: seq<Cell<T>>)
    requires from + n <= |mem| && result + n <= |mem|
    requires from != result || n == 0
    requires AllLive(mem, from, from + n) && AllLive(mem, result, result + n)
    ensures m == Placed(mem, from, result, n)
  {
    if from < result && result < from + n {
      m := MoveNBackward(mem, from, n, result);
    } else {
      m := CopyN(mem, from, n, result);
    }
  }

  /** Range `move` as written, with the same overlap test on `[first, last)`. */
  function MoveAsWritten<C>(mem: seq<C>, first: nat, last: nat, result: nat): (m: seq<C>)
    requires first <= last <= |mem| && result + (last - first) <= |mem|
    requires first != result || first == last
    ensures |m| == |mem|
  {
    var n := last - first;
    if result + n >= first && result < last then BackwardFrom(mem, first, result, n) else ForwardFrom(mem, first, result, 0, n)
  }

  lemma MoveAsWrittenUpward<C>(mem: seq<C>, first: nat, last: nat, result: nat)
    requires first <= last <= |mem| && result + (last - first) <= |mem|
    requires first != result || first == last
    requires BackwardSafe(first, last - first, result)
    ensures MoveAsWritten(mem, first, last, result) == Placed(mem, first, result, last - first)
  {
    MoveNAsWrittenUpward(mem, first, last - first, result);
  }

  lemma MoveAsWrittenDownwardOverlap()
    ensures MoveAsWritten([Live(1), Live(2), Live(3)], 1, 3, 0) == [Live(3), Live(3), Live(3)]
    ensures Placed([Live(1), Live(2), Live(3)], 1, 0, 2) == [Live(2), Live(3), Live(3)]
  {
    MoveNAsWrittenDownwardOverlap();
  }

  /** Range `move` with the direction chosen from the order of the ranges. */
  method Move<T>(mem: seq<Cell<T>>, first: nat, last: nat, result: nat) returns (m: seq<Cell<T>>)
    requires first <= last <= |mem| && result + (last - first) <= |mem|
    requires first != result || first == last
    requires AllLive(mem, first, last) && AllLive(mem, result, result + (last - first))
    ensures m == Placed(mem, first, result, last - first)
  {
    if first < result && result < last {
      m := MoveBackward(mem, first, last, result);
    } else {
      m := Copy(mem, first, last, result);
    }
  }

  // ----- fill_n -----

  /** Memory with the i cells from `first` assigned `x`. */
  function FillPrefix<C>(mem: seq<C>, first: nat, i: nat, x: C): (m: seq<C>)
    requires first + i <= |mem|
    ensures |m| == |mem|
  {
    seq(|mem|, k requires 0 <= k < |mem| => if first <= k < first + i then x else mem[k])
  }

  /** One `*first = val; ++first;` of the unrolled loop. */
  method FillStep<T>(ghost mem: seq<Cell<T>>, m: seq<Cell<T>>, first: nat, i: nat, n: nat, val: T)
    returns (m': seq<Cell<T>>, i': nat)
    requires i < n && first + n <= |mem| && m == FillPrefix(mem, first, i, Live(val))
    ensures i' == i + 1 && m' == FillPrefix(mem, first, i', Live(val))
  {
    m', i' := m[first + i := Live(val)], i + 1;
  }

  /** `fill_n`: assign `val` to the n objects at `first`, unrolled eight
      times with Duff's device on `n & 7`. */
  method FillN<T>(mem: seq<Cell<T>>, first: nat, n: nat, val: T) returns (m: seq<Cell<T>>)
    requires first + n <= |mem| && AllLive(mem, first, first + n)
    ensures |m| == |mem|
    ensures forall k :: first <= k < first + n ==> m[k] == Live(val)
    ensures forall k :: 0 <= k < |mem| && !(first <= k < first + n) ==> m[k] == mem[k]
  {
    Pow2Add(1, 2);
    Pow2IsPow2(3);
    AndLowMask(n, 8);
    var lead := And(n, 7);
    m := mem;
    var i: nat := 0;
    if lead >= 7 { m, i := FillStep(mem, m, first, i, n, val); }
    if lead >= 6 { m, i := FillStep(mem, m, first, i, n, val); }
    if lead >= 5 { m, i := FillStep(mem, m, first, i, n, val); }
    if lead >= 4 { m, i := FillStep(mem, m, first, i, n, val); }
    if lead >= 3 { m, i := FillStep(mem, m, first, i, n, val); }
    if lead >= 2 { m, i := FillStep(mem, m, first, i, n, val); }
    if lead >= 1 { m, i := FillStep(mem, m, first, i, n, val); }
    ghost var rounds: nat := n / 8;
    while i != n
      invariant i + 8 * rounds == n
      invariant m == FillPrefix(mem, first, i, Live(val))
      decreases rounds
    {
      m, i := FillStep(mem, m, first, i, n, val);
      m, i := FillStep(mem, m, first, i, n, val);
      m, i := FillStep(mem, m, first, i, n, val);
      m, i := FillStep(mem, m, first, i, n, val);
      m, i := FillStep(mem, m, first, i, n, val);
      m, i := FillStep(mem, m, first, i, n, val);
      m, i := FillStep(mem, m, first, i, n, val);
      m, i := FillStep(mem, m, first, i, n, val);
      rounds := rounds - 1;
    }
  }

  // ----- abs, min, max, swap -----

  /** The value range of a 32-bit C++ `int`. */
  type i32 = x: int | -0x8000_0000 <= x < 0x8000_0000

  const INT_MIN: i32 := -0x8000_0000

  /** Two's complement bit pattern of an `int`, and back. */
  function ToBits(x: i32): (w: u32)
    ensures FromBits(w) == x
  {
    if x < 0 then x + U32_MOD else x
  }

  function FromBits(w: u32): i32
  {
    if w >= 0x8000_0000 then w - U32_MOD else w
  }

  /** 32-bit wrap-around of an integer result. */
  function Wrap(x: int): (r: i32)
    ensures (r - x) % U32_MOD == 0
  {
    FromBits(x % U32_MOD)
  }

  /** `x >> 31` on a signed `int`: an arithmetic shift, which copies the sign
      bit into every position, giving 0 or -1. */
  function SignMask(x: i32): (y: i32)
    ensures y == (if x < 0 then -1 else 0)
  {
    x / 0x8000_0000
  }

  /** Branch-free `abs(int)`: `(x ^ y) - y` with `y = x >> 31`. For a negative
      x, `x ^ -1` is `-x - 1`; INT_MIN has no positive counterpart and wraps
      to itself. */
  function Abs(x: i32): (r: i32)
    ensures x >= 0 ==> r == x
    ensures INT_MIN < x < 0 ==> r == -x
    ensures x == INT_MIN ==> r == INT_MIN
  {
    var y := SignMask(x);
    XorWithSign(x);
    Wrap(FromBits(Xor(ToBits(x), ToBits(y))) - y)
  }

  /** `x ^ (x >> 31)`: x itself when it is not negative, its one's
      complement `-x - 1` when it is. */
  lemma XorWithSign(x: i32)
    ensures Xor(ToBits(x), ToBits(SignMask(x))) == (if x < 0 then -(x as int) - 1 else x as int)
  {
    Pow2ThirtyTwo();
    if x < 0 {
      assert ToBits(SignMask(x)) == Pow2(32) - 1;
      XorAllOnes(ToBits(x), 32);
    } else {
      assert ToBits(SignMask(x)) == 0;
      XorZero(ToBits(x));
    }
  }

  /** `abs` agrees with the mathematical absolute value on every `int` that
      has one, and is never negative there. */
  lemma AbsIsMagnitude(x: i32)
    requires x != INT_MIN
    ensures Abs(x) >= 0 && (Abs(x) == x || Abs(x) == -x)
    ensures Abs(x) == Abs(-x as i32)
  {
  }

  /** The comparison is irreflexive on both values and does not order the
      pair both ways: what a strict order gives on any two values. */
  predicate StrictOnPair<T>(cmp: (T, T) -> bool, x: T, y: T)
  {
    !cmp(x, x) && !cmp(y, y) && !(cmp(x, y) && cmp(y, x))
  }

  /** `max(x, y)` with `gt` as the type's `operator>`: the first argument
      only when it is strictly greater, so ties go to the second. */
  function Max<T>(x: T, y: T, gt: (T, T) -> bool): (r: T)
    ensures r == x || r == y
    ensures StrictOnPair(gt, x, y) ==> !gt(x, r) && !gt(y, r)
    ensures !gt(x, y) ==> r == y
  {
    if gt(x, y) then x else y
  }

  /** `min(x, y)` with `lt` as the type's `operator<`: the first argument
      only when it is strictly smaller, so ties go to the second. */
  function Min<T>(x: T, y: T, lt: (T, T) -> bool): (r: T)
    ensures r == x || r == y
    ensures StrictOnPair(lt, x, y) ==> !lt(x, r) && !lt(y, r)
    ensures !lt(x, y) ==> r == y
  {
    if lt(x, y) then x else y
  }

  /** With `operator>` the mirror of `operator<`, `min` and `max` split a pair
      the order tells apart (or two equal values) into its two members, and
      on two distinct values the order does not tell apart both return the
      second. */
  lemma MinMaxPartition<T>(x: T, y: T, lt: (T, T) -> bool)
    requires !(lt(x, y) && lt(y, x))
    ensures lt(x, y) || lt(y, x) || x == y ==>
      multiset{Min(x, y, lt), Max(x, y, (a: T, b: T) => lt(b, a))} == multiset{x, y}
    ensures !lt(x, y) && !lt(y, x) ==> Min(x, y, lt) == y && Max(x, y, (a: T, b: T) => lt(b, a)) == y
  {
  }

  /** `swap` through a temporary copy. */
  method Swap<T>(a: T, b: T) returns (a': T, b': T)
    ensures a' == b && b' == a
  {
    var tmp := a;
    a' := b;
    b' := tmp;
  }
}
