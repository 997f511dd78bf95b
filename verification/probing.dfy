/** The hash map's probe sequence. Starting from `hash & mask`, the k-th step
    adds k, so the j-th slot visited is `(hash + Tri(j)) mod capacity` where
    Tri(j) = 0 + 1 + ... + j. Over a power-of-two capacity the first
    `capacity` probes are pairwise distinct: the sequence visits every slot,
    which is what makes the probing loops of `find_for_insert`, `lookup` and
    `rehash` terminate once some slot is still Unused. */
module Probing {
  import opened Bits

  /** Triangular numbers, built the way the probe loop accumulates them. */
  function Tri(j: nat): nat
  {
    if j == 0 then 0 else Tri(j - 1) + j
  }

  /** Index of the j-th probe for `hash` in a table of `cap` slots. */
  function Probe(hash: nat, j: nat, cap: nat): (r: nat)
    requires cap > 0
    ensures r < cap
  {
    (hash + Tri(j)) % cap
  }

  lemma {:induction false} TriClosedForm(j: nat)
    ensures 2 * Tri(j) == j * (j + 1)
  {
    if j > 0 {
      TriClosedForm(j - 1);
      assert j * (j + 1) == (j - 1) * j + 2 * j;
    }
  }

  lemma ModAdd(a: nat, b: nat, m: nat)
    requires m > 0
    ensures (a % m + b) % m == (a + b) % m
  {
    var q := a / m;
    assert a == m * q + a % m;
    var q2 := (a % m + b) / m;
    var r2 := (a % m + b) % m;
    assert a % m + b == m * q2 + r2;
    assert a + b == m * (q + q2) + r2;
    ModUnique(a + b, m, q + q2, r2);
  }

  /** One iteration of the probe loop, `i = (i + numProbes) & mask`, moves from
      probe j to probe j + 1. */
  lemma ProbeStep(hash: nat, j: nat, cap: nat)
    requires cap > 0
    ensures (Probe(hash, j, cap) + (j + 1)) % cap == Probe(hash, j + 1, cap)
  {
    var x := hash + Tri(j);
    assert hash + Tri(j + 1) == x + (j + 1);
    ModAdd(x, j + 1, cap);
  }

  /** The probe loops' index arithmetic: the first index is `hash & mask` and
      each step adds the probe count and masks again. */
  lemma ProbeFirst(hash: nat, cap: nat)
    requires IsPow2(cap)
    ensures And(hash, cap - 1) == Probe(hash, 0, cap)
  {
    AndLowMask(hash, cap);
  }

  lemma ProbeAdvance(hash: nat, j: nat, cap: nat, i: nat)
    requires IsPow2(cap) && i == Probe(hash, j, cap)
    ensures And(i + (j + 1), cap - 1) == Probe(hash, j + 1, cap)
  {
    ProbeStep(hash, j, cap);
    AndLowMask(i + (j + 1), cap);
  }

  /** The first probe is the hash reduced modulo the capacity. */
  lemma ProbeZero(hash: nat, cap: nat)
    requires cap > 0
    ensures Probe(hash, 0, cap) == hash % cap
  {
  }

  lemma OddTimesOddIsOdd(q: int, y: int)
    ensures q % 2 == 1 && y % 2 == 1 ==> (q * y) % 2 == 1
  {
    if q % 2 == 1 && y % 2 == 1 {
      var a := q / 2;
      var b := y / 2;
      assert q == 2 * a + 1 && y == 2 * b + 1;
      assert q * y == 2 * (2 * a * b + a + b) + 1;
      ModUnique(q * y, 2, 2 * a * b + a + b, 1);
    }
  }

  /** An odd factor cannot contribute to divisibility by a power of two. */
  lemma {:induction false} OddFactor(q: nat, x: nat, p: nat, c: nat)
    requires q % 2 == 1 && IsPow2(p) && q * x == p * c
    ensures x % p == 0
    decreases p
  {
    if p != 1 {
      var p' := p / 2;
      assert p == 2 * p';
      assert q * x == 2 * (p' * c);
      ModUnique(q * x, 2, p' * c, 0);
      OddTimesOddIsOdd(q, x);
      var y := x / 2;
      assert x == 2 * y;
      assert q * x == 2 * (q * y);
      assert q * y == p' * c;
      OddFactor(q, y, p', c);
      var c' := y / p';
      assert y == p' * c';
      assert x == p * c';
      ModUnique(x, p, c', 0);
    }
  }

  lemma OddFactorMod(q: nat, x: nat, p: nat)
    requires q % 2 == 1 && IsPow2(p)
    ensures (q * x) % p == 0 ==> x % p == 0
  {
    if (q * x) % p == 0 {
      var c := (q * x) / p;
      assert q * x == p * c + (q * x) % p;
      OddFactor(q, x, p, c);
    }
  }

  /** A multiple of p strictly between 0 and p is impossible. */
  lemma NoSmallMultiple(x: nat, p: nat)
    requires p > 0 && 0 < x < p
    ensures x % p != 0
  {
    ModUnique(x, p, 0, x);
  }

  lemma DoubleModZero(x: nat, m: nat)
    requires m > 0
    ensures x % m == 0 ==> (2 * x) % (2 * m) == 0
  {
    if x % m == 0 {
      var c := x / m;
      assert x == m * c + x % m;
      assert 2 * x == (2 * m) * c;
      ModUnique(2 * x, 2 * m, c, 0);
    }
  }

  lemma {:induction false} TriMono(a: nat, b: nat)
    requires a <= b
    ensures Tri(a) <= Tri(b)
    decreases b - a
  {
    if a < b {
      TriMono(a, b - 1);
    }
  }

  lemma TriDifference(a: nat, b: nat)
    requires a < b
    ensures 2 * (Tri(b) - Tri(a)) == (b - a) * (a + b + 1)
  {
    TriClosedForm(a);
    TriClosedForm(b);
    assert b * (b + 1) - a * (a + 1) == (b - a) * (a + b + 1);
  }

  /** If 2 * D is an odd number times a positive x below the power of two p,
      then p does not divide 2 * D. */
  lemma OddTimesSmall(q: nat, x: nat, p: nat, D: nat)
    requires q % 2 == 1 && IsPow2(p) && 0 < x < p && 2 * D == q * x
    ensures (2 * D) % p != 0
  {
    NoSmallMultiple(x, p);
    OddFactorMod(q, x, p);
  }

  lemma OddSum(d: nat, a: nat)
    requires d % 2 == 0
    ensures (d + 2 * a + 1) % 2 == 1
  {
    assert d == 2 * (d / 2) + d % 2;
    ModUnique(d + 2 * a + 1, 2, d / 2 + a, 1);
  }

  /** Differences of triangular numbers below a power of two never vanish
      modulo it: with d = b - a and s = a + b + 1, one of d, s is odd and the
      other lies strictly between 0 and 2 * cap. */
  lemma TriDistinct(a: nat, b: nat, cap: nat)
    requires IsPow2(cap) && a < b < cap
    ensures (Tri(b) - Tri(a)) % cap != 0
  {
    var d: nat := b - a;
    var s: nat := a + b + 1;
    TriMono(a, b);
    var D: nat := Tri(b) - Tri(a);
    TriDifference(a, b);
    assert 2 * D == d * s;
    DoublePow2(cap);
    if d % 2 == 1 {
      OddTimesSmall(d, s, 2 * cap, D);
    } else {
      OddSum(d, a);
      assert s == d + 2 * a + 1;
      assert 2 * D == s * d;
      OddTimesSmall(s, d, 2 * cap, D);
    }
    DoubleModZero(D, cap);
  }

  lemma SameResidue(x: nat, y: nat, m: nat)
    requires m > 0 && x <= y
    ensures x % m == y % m ==> (y - x) % m == 0
  {
    if x % m == y % m {
      var qx := x / m;
      var qy := y / m;
      assert x == m * qx + x % m;
      assert y == m * qy + y % m;
      assert y - x == m * (qy - qx);
      MulMono(m, qx - qy);
      ModUnique(y - x, m, qy - qx, 0);
    }
  }

  /** Over a power-of-two capacity the first `cap` probes are pairwise distinct. */
  lemma ProbeInjective(hash: nat, a: nat, b: nat, cap: nat)
    requires IsPow2(cap) && a < cap && b < cap && a != b
    ensures Probe(hash, a, cap) != Probe(hash, b, cap)
  {
    var lo := if a < b then a else b;
    var hi := if a < b then b else a;
    var x := hash + Tri(lo);
    var y := hash + Tri(hi);
    TriMono(lo, hi);
    SameResidue(x, y, cap);
    assert y - x == Tri(hi) - Tri(lo);
    TriDistinct(lo, hi, cap);
  }

  /** The set of slots covered by the first k probes. */
  ghost function ProbeSet(hash: nat, k: nat, cap: nat): set<nat>
    requires cap > 0
  {
    set m: nat | m < k :: Probe(hash, m, cap)
  }

  /** The first k probes (k at most the capacity) cover exactly k slots. */
  lemma {:induction false} ProbeSetSize(hash: nat, k: nat, cap: nat)
    requires IsPow2(cap) && k <= cap
    ensures |ProbeSet(hash, k, cap)| == k
  {
    if k > 0 {
      ProbeSetSize(hash, k - 1, cap);
      var p := Probe(hash, k - 1, cap);
      assert ProbeSet(hash, k, cap) == ProbeSet(hash, k - 1, cap) + {p};
      if p in ProbeSet(hash, k - 1, cap) {
        var m: nat :| m < k - 1 && Probe(hash, m, cap) == p;
        ProbeInjective(hash, m, k - 1, cap);
      }
    }
  }
}
