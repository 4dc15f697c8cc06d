/**
 * Machine arithmetic the Rust source relies on.  Dafny's `%` is Euclidean
 * (never negative), Rust's `%` on signed integers truncates toward zero, and
 * fixed-width unsigned arithmetic wraps in a release build.
 */
module Arith {

  /**
   * Rust's `a % b` on signed integers, for a positive divisor: the sign of
   * the result follows the dividend.
   */
  function RemT(a: int, b: int): (r: int)
    requires b > 0
    ensures a >= 0 ==> 0 <= r < b
    ensures a < 0 ==> -b < r <= 0
  {
    if a >= 0 then a % b else -((-a) % b)
  }

  /** A truncated remainder differs from the dividend by a multiple of the divisor. */
  lemma RemTQuotient(a: int, b: int) returns (q: int)
    requires b > 0
    ensures a == q * b + RemT(a, b)
  {
    if a >= 0 {
      q := a / b;
    } else {
      q := -((-a) / b);
      assert -a == ((-a) / b) * b + (-a) % b;
    }
  }

  lemma MulAtLeast(m: int, p: int)
    requires m >= 1 && p > 0
    ensures m * p >= p
  {
    assert m * p == (m - 1) * p + p;
    assert (m - 1) * p >= 0;
  }

  /** The Euclidean remainder is the only residue in range. */
  lemma ModUnique(x: int, p: int, k: int, y: int)
    requires p > 0 && 0 <= y < p && x == k * p + y
    ensures x % p == y
  {
    var q := x / p;
    var r := x % p;
    assert x == q * p + r;
    if k > q {
      assert k * p - q * p == (k - q) * p;
      MulAtLeast(k - q, p);
    } else if k < q {
      assert q * p - k * p == (q - k) * p;
      MulAtLeast(q - k, p);
    }
  }

  /** An 8-bit unsigned result, wrapped as a release build does. */
  function U8(x: int): (r: nat)
    ensures r < 256
    ensures 0 <= x < 256 ==> r == x
    ensures (x - r) % 256 == 0
  {
    x % 256
  }

  /** An 8-bit signed result, wrapped as a release build does (also `as i8` on an 8-bit unsigned value). */
  function I8(x: int): (r: int)
    ensures -128 <= r < 128
    ensures -128 <= x < 128 ==> r == x
    ensures (x - r) % 256 == 0
  {
    (x + 128) % 256 - 128
  }

  const U32_MODULUS: nat := 0x1_0000_0000

  /** A 32-bit unsigned result, wrapped as a release build does. */
  function U32(x: int): (r: nat)
    ensures r < U32_MODULUS
    ensures 0 <= x < U32_MODULUS ==> r == x
    ensures (x - r) % U32_MODULUS == 0
  {
    x % U32_MODULUS
  }

  function BoolToNat(b: bool): (r: nat)
    ensures r <= 1
    ensures r == 1 <==> b
  {
    if b then 1 else 0
  }

  /** Reducing the left operand first does not change a sum's residue. */
  lemma ModAddLeft(a: int, b: int, n: int)
    requires n > 0
    ensures (a % n + b) % n == (a + b) % n
  {
    var q := a / n;
    assert a == q * n + a % n;
    var x := a % n + b;
    var q2 := x / n;
    assert x == q2 * n + x % n;
    assert q * n + q2 * n == (q + q2) * n;
    ModUnique(a + b, n, q + q2, x % n);
  }

  /** One more step from the slot `cur` of offset `j` past `s` is the slot of offset `j + 1`. */
  lemma SlotAdvance(s: int, j: int, n: int, cur: int)
    requires n > 0 && cur == (s + j) % n
    ensures (cur + 1) % n == (s + (j + 1)) % n
  {
    ModAddLeft(s + j, 1, n);
  }

  lemma ModSmall(x: int, n: int)
    requires 0 <= x < n
    ensures x % n == x
  {
  }

  /** Adding one period does not change the residue. */
  lemma ModPeriodic(a: int, n: int)
    requires n > 0
    ensures (a + n) % n == a % n
  {
    var q := a / n;
    assert a == q * n + a % n;
    assert (q + 1) * n == q * n + n;
    ModUnique(a + n, n, q + 1, a % n);
  }
}
