/** Unsigned 32-bit words, powers of two, and the two bitwise operations the
    containers rely on (`&` for masking, `^` for the branch-free absolute value),
    written over unbounded naturals so that the rest of the model can reason
    about them with ordinary arithmetic. */
module Bits {

  const U32_MOD: int := 0x1_0000_0000

  /** The value range of C++ `std::uint32_t` / `hash_value_t`. */
  type u32 = x: int | 0 <= x < 0x1_0000_0000

  /** Bitwise AND of two naturals, one bit at a time from the least significant. */
  function And(a: nat, b: nat): nat
    decreases a
  {
    if a == 0 || b == 0 then 0
    else 2 * And(a / 2, b / 2) + (if a % 2 == 1 && b % 2 == 1 then 1 else 0)
  }

  /** Bitwise exclusive OR of two naturals. */
  function Xor(a: nat, b: nat): nat
    decreases a + b
  {
    if a == 0 then b
    else if b == 0 then a
    else 2 * Xor(a / 2, b / 2) + (if a % 2 != b % 2 then 1 else 0)
  }

  /** 2 to the power k. */
  function Pow2(k: nat): (r: nat)
    ensures r >= 1
  {
    if k == 0 then 1 else 2 * Pow2(k - 1)
  }

  /** n is a power of two; this is what `(n & (n - 1)) == 0` tests for n > 0. */
  predicate IsPow2(n: int)
    decreases if n < 0 then 0 else n
  {
    n >= 1 && (n == 1 || (n % 2 == 0 && IsPow2(n / 2)))
  }

  lemma AndUnfold(a: nat, b: nat)
    ensures And(a, b) == 2 * And(a / 2, b / 2) + (if a % 2 == 1 && b % 2 == 1 then 1 else 0)
  {
  }

  lemma XorUnfold(a: nat, b: nat)
    ensures Xor(a, b) == 2 * Xor(a / 2, b / 2) + (if a % 2 != b % 2 then 1 else 0)
  {
  }

  /** Euclidean division determines the remainder. */
  lemma ModUnique(x: int, d: int, q: int, r: int)
    requires d > 0 && 0 <= r < d && x == d * q + r
    ensures x % d == r && x / d == q
  {
    var k := x / d - q;
    assert d * k == r - x % d by {
      assert x == d * (x / d) + x % d;
      assert d * (x / d) - d * q == d * k;
    }
    MulMono(d, k);
    MulMono(d, -k);
    assert d * (-k) == -(d * k);
  }

  lemma MulMono(d: int, k: int)
    requires d > 0
    ensures k >= 1 ==> d * k >= d
  {
    if k >= 1 {
      assert d * k == d + d * (k - 1);
      assert d * (k - 1) >= 0;
    }
  }

  lemma DoubleMod(x: nat, m: nat)
    requires m >= 1
    ensures 2 * ((x / 2) % m) + x % 2 == x % (2 * m)
  {
    var q := (x / 2) / m;
    var r := (x / 2) % m;
    assert x / 2 == m * q + r;
    assert x == (2 * m) * q + (2 * r + x % 2);
    ModUnique(x, 2 * m, q, 2 * r + x % 2);
  }

  /** Masking with `n - 1` keeps the low bits: for a power of two n it is `x % n`.
      This is why the hash map may index with `hash & m_capacityMask`. */
  lemma {:induction false} AndLowMask(x: nat, n: nat)
    requires IsPow2(n)
    ensures And(x, n - 1) == x % n
    decreases n
  {
    if n == 1 {
    } else {
      var m := n / 2;
      assert n == 2 * m;
      AndUnfold(x, n - 1);
      assert (n - 1) / 2 == m - 1 && (n - 1) % 2 == 1;
      AndLowMask(x / 2, m);
      DoubleMod(x, m);
    }
  }

  lemma AndLowMaskSmall(x: nat, n: nat)
    requires IsPow2(n) && x < n
    ensures And(x, n - 1) == x
  {
    AndLowMask(x, n);
    ModUnique(x, n, 0, x);
  }

  lemma Pow2IsPow2(k: nat)
    ensures IsPow2(Pow2(k))
  {
    if k > 0 {
      Pow2IsPow2(k - 1);
      assert Pow2(k) / 2 == Pow2(k - 1);
    }
  }

  lemma {:induction false} Pow2Add(a: nat, b: nat)
    ensures Pow2(a + b) == Pow2(a) * Pow2(b)
    decreases a
  {
    if a > 0 {
      Pow2Add(a - 1, b);
    }
  }

  /** 2^30, the width of the hash remaining after its two low bits. */
  lemma Pow2Thirty()
    ensures Pow2(30) == 0x4000_0000 && IsPow2(0x4000_0000)
  {
    assert Pow2(5) == 32;
    Pow2Add(5, 5);
    Pow2Add(10, 10);
    Pow2Add(20, 10);
    Pow2IsPow2(30);
  }

  lemma Pow2ThirtyTwo()
    ensures Pow2(32) == U32_MOD
  {
    Pow2Thirty();
    assert Pow2(2) == 4;
    Pow2Add(30, 2);
  }

  lemma DoublePow2(n: int)
    requires IsPow2(n)
    ensures IsPow2(2 * n)
  {
    assert (2 * n) / 2 == n;
  }

  lemma Pow2AtLeast2IsEven(n: int)
    requires IsPow2(n) && n >= 2
    ensures n % 2 == 0 && IsPow2(n / 2)
  {
  }

  /** XOR with an all-ones word of width `Pow2(k)` is the one's complement. */
  lemma {:induction false} XorAllOnes(a: nat, k: nat)
    requires a < Pow2(k)
    ensures Xor(a, Pow2(k) - 1) == Pow2(k) - 1 - a
  {
    if k == 0 {
    } else if a == 0 {
    } else {
      XorUnfold(a, Pow2(k) - 1);
      assert (Pow2(k) - 1) / 2 == Pow2(k - 1) - 1;
      assert (Pow2(k) - 1) % 2 == 1;
      XorAllOnes(a / 2, k - 1);
    }
  }

  lemma XorZero(a: nat)
    ensures Xor(a, 0) == a
  {
  }
}
