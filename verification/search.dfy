/** Searches over a range `[first, last)` of a sequence; iterators are
    indices. The two bound searches halve a distance instead of keeping two
    iterators, as the library does. */
module Search {
  import Utility

  /** Every element of `[first, last)` that `pred(e, val)` accepts comes
      before every element it rejects: what a range sorted by `pred` gives. */
  ghost predicate PartitionedBelow<T>(s: seq<T>, first: nat, last: nat, val: T, pred: (T, T) -> bool)
    requires first <= last <= |s|
  {
    forall i, j :: first <= i <= j < last && pred(s[j], val) ==> pred(s[i], val)
  }

  /** Every element that `pred(val, e)` rejects comes before every element it
      accepts. */
  ghost predicate PartitionedAbove<T>(s: seq<T>, first: nat, last: nat, val: T, pred: (T, T) -> bool)
    requires first <= last <= |s|
  {
    forall i, j :: first <= i <= j < last && pred(val, s[i]) ==> pred(val, s[j])
  }

  /** What the debug check inside `debug_pred` demands of the pairs the two
      bound searches ask about: no element of `[first, last)` is ordered both
      before and after `val`. */
  ghost predicate DebugPairsOk<T>(s: seq<T>, first: nat, last: nat, val: T, pred: (T, T) -> bool)
    requires first <= last <= |s|
  {
    forall k :: first <= k < last ==> !(pred(s[k], val) && pred(val, s[k]))
  }

  /** A strict ordering, which is what the library's searches expect of
      `pred`, passes every debug check: the assertion in `debug_pred` cannot
      fire inside `lower_bound` or `upper_bound`. */
  lemma StrictOrderPassesDebugChecks<T>(s: seq<T>, first: nat, last: nat, val: T, pred: (T, T) -> bool)
    requires first <= last <= |s|
    requires forall x, y :: pred(x, y) ==> !pred(y, x)
    ensures DebugPairsOk(s, first, last, val, pred)
  {
    forall k | first <= k < last
      ensures !(pred(s[k], val) && pred(val, s[k]))
    {
      NotBoth(s[k], val, pred);
    }
  }

  /** `lower_bound`: the first position whose element is not ordered before
      `val`. */
  method LowerBound<T>(s: seq<T>, first: nat, last: nat, val: T, pred: (T, T) -> bool) returns (r: nat)
    requires first <= last <= |s|
    requires PartitionedBelow(s, first, last, val, pred)
    requires DebugPairsOk(s, first, last, val, pred)
    ensures first <= r <= last
    ensures forall k :: first <= k < r ==> pred(s[k], val)
    ensures forall k :: r <= k < last ==> !pred(s[k], val)
  {
    r := first;
    var dist: int := last - first;
    while dist > 0
      invariant first <= r && 0 <= dist && r + dist <= last
      invariant forall k :: first <= k < r ==> pred(s[k], val)
      invariant forall k :: r + dist <= k < last ==> !pred(s[k], val)
      decreases dist
    {
      var halfDist := dist / 2;
      var mid := r + halfDist;
      if Utility.DebugPred(pred, s[mid], val) {
        r := mid + 1;
        dist := dist - (halfDist + 1);
      } else {
        dist := halfDist;
      }
    }
  }

  /** `upper_bound`: the first position whose element `val` is ordered
      before. */
  method UpperBound<T>(s: seq<T>, first: nat, last: nat, val: T, pred: (T, T) -> bool) returns (r: nat)
    requires first <= last <= |s|
    requires PartitionedAbove(s, first, last, val, pred)
    requires DebugPairsOk(s, first, last, val, pred)
    ensures first <= r <= last
    ensures forall k :: first <= k < r ==> !pred(val, s[k])
    ensures forall k :: r <= k < last ==> pred(val, s[k])
  {
    r := first;
    var dist: int := last - first;
    while dist > 0
      invariant first <= r && 0 <= dist && r + dist <= last
      invariant forall k :: first <= k < r ==> !pred(val, s[k])
      invariant forall k :: r + dist <= k < last ==> pred(val, s[k])
      decreases dist
    {
      var halfDist := dist / 2;
      var mid := r + halfDist;
      if !Utility.DebugPred(pred, val, s[mid]) {
        r := mid + 1;
        dist := dist - (halfDist + 1);
      } else {
        dist := halfDist;
      }
    }
  }

  /** For an asymmetric `pred`, the lower bound never comes after the upper
      bound, and the elements between them are exactly those equivalent to
      `val`: neither ordered before it nor after it. */
  lemma EqualRange<T>(s: seq<T>, first: nat, last: nat, val: T, pred: (T, T) -> bool, lo: nat, hi: nat)
    requires first <= lo <= last && first <= hi <= last && last <= |s|
    requires forall x, y :: pred(x, y) ==> !pred(y, x)
    requires forall k :: first <= k < lo ==> pred(s[k], val)
    requires forall k :: lo <= k < last ==> !pred(s[k], val)
    requires forall k :: first <= k < hi ==> !pred(val, s[k])
    requires forall k :: hi <= k < last ==> pred(val, s[k])
    ensures lo <= hi
    ensures forall k :: first <= k < last ==> (lo <= k < hi <==> !pred(s[k], val) && !pred(val, s[k]))
  {
    if hi < last {
      NotBoth(s[hi], val, pred);
    }
  }

  lemma NotBoth<T>(x: T, y: T, pred: (T, T) -> bool)
    requires forall a, b :: pred(a, b) ==> !pred(b, a)
    ensures !(pred(x, y) && pred(y, x))
  {
  }

  /** `find`: the first position in `[first, last)` holding `val`, or `last`. */
  method Find<T(==)>(s: seq<T>, first: nat, last: nat, val: T) returns (r: nat)
    requires first <= last <= |s|
    ensures first <= r <= last
    ensures r < last ==> s[r] == val
    ensures forall k :: first <= k < r ==> s[k] != val
  {
    r := first;
    while r != last
      invariant first <= r <= last
      invariant forall k :: first <= k < r ==> s[k] != val
    {
      if s[r] == val {
        return;
      }
      r := r + 1;
    }
  }

  /** `find_if`: the first position in `[first, last)` whose element `pred`
      accepts together with `val`, or `last`. */
  method FindIf<T>(s: seq<T>, first: nat, last: nat, val: T, pred: (T, T) -> bool) returns (r: nat)
    requires first <= last <= |s|
    ensures first <= r <= last
    ensures r < last ==> pred(s[r], val)
    ensures forall k :: first <= k < r ==> !pred(s[k], val)
  {
    r := first;
    while r != last
      invariant first <= r <= last
      invariant forall k :: first <= k < r ==> !pred(s[k], val)
    {
      if pred(s[r], val) {
        return;
      }
      r := r + 1;
    }
  }
}
