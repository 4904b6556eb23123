/** Bit arithmetic on unbounded naturals: powers of two, bitwise AND, and the
    two facts the containers rely on: `n & (n - 1) == 0` picks out the powers
    of two, and `i & (2^k - 1) == i % 2^k` (mask-based ring indexing). */
module Bits {

  /** 2^k */
  function Pow2(k: nat): (r: nat)
    ensures r >= 1
    ensures k > 0 ==> r % 2 == 0
  {
    if k == 0 then 1 else 2 * Pow2(k - 1)
  }

  ghost predicate IsPowerOfTwo(n: nat) {
    exists k: nat :: Pow2(k) == n
  }

  /** Bitwise AND of two naturals, bit by bit from the least significant end. */
  function And(a: nat, b: nat): (r: nat)
    ensures r <= a && r <= b
    decreases a
  {
    if a == 0 || b == 0 then 0
    else 2 * And(a / 2, b / 2) + (if a % 2 == 1 && b % 2 == 1 then 1 else 0)
  }

  /** The power-of-two test the containers assert on their sizes, for sizes
      that are already known to be positive (so `n - 1` does not wrap). */
  predicate PowerOfTwoTest(n: nat)
    requires n > 0
  {
    And(n, n - 1) == 0
  }

  /** `n % d` is determined by any decomposition `n == d * q + r` with `0 <= r < d`. */
  lemma ModOfDecomposition(n: nat, d: nat, q: nat, r: nat)
    requires d > 0 && r < d && n == d * q + r
    ensures n % d == r && n / d == q
  {
    var q', r' := n / d, n % d;
    assert n == d * q' + r';
    if q' < q {
      assert d * q' + d <= d * q by { MulMono(d, q' + 1, q); }
    } else if q' > q {
      assert d * q + d <= d * q' by { MulMono(d, q + 1, q'); }
    }
  }

  lemma MulMono(d: nat, x: nat, y: nat)
    requires x <= y
    ensures d * x <= d * y
  {
  }

  lemma AndSelf(a: nat)
    ensures And(a, a) == a
    decreases a
  {
    if a != 0 {
      AndSelf(a / 2);
    }
  }

  /** Splitting off the lowest bit: `i % 2p == 2 * ((i / 2) % p) + i % 2`. */
  lemma ModOfDouble(i: nat, p: nat)
    requires p > 0
    ensures i % (2 * p) == 2 * ((i / 2) % p) + i % 2
  {
    var h, r := i / 2, i % 2;
    var a, b := h / p, h % p;
    assert i == 2 * h + r;
    assert h == p * a + b;
    calc {
      i;
      2 * (p * a + b) + r;
      (2 * p) * a + (2 * b + r);
    }
    ModOfDecomposition(i, 2 * p, a, 2 * b + r);
  }

  /** Masking with 2^k - 1 keeps the low k bits: `i & (2^k - 1) == i % 2^k`. */
  lemma {:induction false} AndLowMask(i: nat, k: nat)
    ensures And(i, Pow2(k) - 1) == i % Pow2(k)
  {
    if k == 0 {
      assert Pow2(k) - 1 == 0;
      assert And(i, 0) == 0;
    } else if i == 0 {
      assert And(0, Pow2(k) - 1) == 0;
    } else {
      var p := Pow2(k - 1);
      var m := Pow2(k) - 1;
      assert m == 2 * (p - 1) + 1;
      assert m / 2 == p - 1 && m % 2 == 1;
      assert And(i, m) == 2 * And(i / 2, p - 1) + i % 2;
      AndLowMask(i / 2, k - 1);
      ModOfDouble(i, p);
    }
  }

  /** For a positive n, `n & (n - 1) == 0` holds exactly when n is a power of two. */
  lemma {:induction false} PowerOfTwoTestCorrect(n: nat)
    requires n > 0
    ensures PowerOfTwoTest(n) <==> IsPowerOfTwo(n)
  {
    if n == 1 {
      assert Pow2(0) == 1;
    } else if n % 2 == 1 {
      // n = 2m + 1 with m >= 1: n & (n - 1) == 2 * (m & m) == 2m != 0,
      // and no power of two other than 1 is odd.
      var m := n / 2;
      AndSelf(m);
      assert And(n, n - 1) == 2 * And(m, (n - 1) / 2);
      assert (n - 1) / 2 == m;
      assert forall k: nat :: Pow2(k) != n;
    } else {
      // n = 2m: n & (n - 1) == 2 * (m & (m - 1)), and n is a power of two
      // exactly when m is.
      var m := n / 2;
      assert n - 1 == 2 * (m - 1) + 1;
      assert (n - 1) / 2 == m - 1;
      assert And(n, n - 1) == 2 * And(m, m - 1);
      PowerOfTwoTestCorrect(m);
      if IsPowerOfTwo(m) {
        var k: nat :| Pow2(k) == m;
        assert Pow2(k + 1) == n;
      }
      if IsPowerOfTwo(n) {
        var k: nat :| Pow2(k) == n;
        assert k > 0;
        assert Pow2(k - 1) == m;
      }
    }
  }

  /** The exponent of a power of two. */
  ghost function Log2(n: nat): (k: nat)
    requires IsPowerOfTwo(n)
    ensures Pow2(k) == n
  {
    var k: nat :| Pow2(k) == n; k
  }

  /** Ring indexing: for a size that passes the power-of-two test,
      `i & (size - 1) == i % size`. */
  lemma MaskIsModulo(i: nat, size: nat)
    requires size > 0 && PowerOfTwoTest(size)
    ensures And(i, size - 1) == i % size
  {
    PowerOfTwoTestCorrect(size);
    AndLowMask(i, Log2(size));
  }

  /** The compile-time check on a hash storage's bucket count, `(n & (n - 1)) == 0`
      with `n - 1` computed in 64-bit unsigned arithmetic, as written. */
  predicate StaticPowerOfTwoCheck(n: nat)
    requires n < 0x1_0000_0000_0000_0000
  {
    And(n, (n - 1) % 0x1_0000_0000_0000_0000) == 0
  }

  /** As written, the check admits a bucket count of zero. */
  lemma StaticCheckAdmitsZero()
    ensures StaticPowerOfTwoCheck(0)
    ensures !IsPowerOfTwo(0)
  {
    assert forall k: nat :: Pow2(k) != 0;
  }

  /** The bucket-count requirement the storage relies on: a positive power of two. */
  predicate ValidBucketCount(n: nat) {
    n > 0 && PowerOfTwoTest(n)
  }

  /** The corrected check accepts exactly the powers of two. */
  lemma ValidBucketCountCorrect(n: nat)
    ensures ValidBucketCount(n) <==> IsPowerOfTwo(n)
  {
    if n > 0 {
      PowerOfTwoTestCorrect(n);
    } else {
      assert forall k: nat :: Pow2(k) != n;
    }
  }
}
