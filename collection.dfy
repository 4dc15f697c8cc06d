/**
 * Index arithmetic shared by the ring buffers (`cron/src/collection.rs`).
 * A ring of `period` slots is rotated left (forward) or right (backward)
 * by `n` slots.  Both operations divide by the period, so a ring of period
 * zero panics; here that is a precondition.
 */
module Collection {
  import opened Arith

  /** Rotating forward: the cursor moves `n` slots on, modulo the period. */
  function NewIdxLeft(cur: nat, n: nat, period: nat): (r: nat)
    requires period > 0
    ensures r < period
  {
    (cur + n) % period
  }

  /**
   * Rotating backward, computed as the source does it: on signed integers
   * and with Rust's truncating remainder, `((-((n - cur) % len)) + len) % len`.
   */
  function NewIdxRight(cur: nat, n: nat, period: nat): (r: nat)
    requires period > 0
    ensures r < period
  {
    var len: int := period;
    var inner := RemT(n - cur, len);
    RemT(-inner + len, len)
  }

  /**
   * Although the source computes it through a truncating remainder, the
   * backward rotation is never negative and is exactly `cur - n` modulo the
   * period.
   */
  lemma NewIdxRightIsSubtraction(cur: nat, n: nat, period: nat)
    requires period > 0
    ensures NewIdxRight(cur, n, period) == (cur - n) % period
  {
    var p: int := period;
    var d: int := n - cur;
    var r := RemT(d, p);
    var q := RemTQuotient(d, p);
    assert d == q * p + r;
    if r > 0 {
      assert (-q - 1) * p == -(q * p) - p;
      ModUnique(cur - n, p, -q - 1, p - r);
      ModSmall(p - r, p);
    } else {
      assert (-q) * p == -(q * p);
      ModUnique(cur - n, p, -q, -r);
      ModSub(p - r, p);
    }
  }

  lemma ModSub(x: int, p: int)
    requires p > 0 && p <= x < 2 * p
    ensures x % p == x - p
  {
  }

  /** Rotating forward by `n` and then backward by `n` returns to the start. */
  lemma {:induction false} RightUndoesLeft(cur: nat, n: nat, period: nat)
    requires period > 0 && cur < period
    ensures NewIdxRight(NewIdxLeft(cur, n, period), n, period) == cur
  {
    var l := NewIdxLeft(cur, n, period);
    NewIdxRightIsSubtraction(l, n, period);
    var q := (cur + n) / period;
    assert cur + n == q * period + l;
    assert l - n == (-q) * period + cur;
    ModUnique(l - n, period, -q, cur);
  }

  /** Rotating backward by `n` and then forward by `n` returns to the start. */
  lemma {:induction false} LeftUndoesRight(cur: nat, n: nat, period: nat)
    requires period > 0 && cur < period
    ensures NewIdxLeft(NewIdxRight(cur, n, period), n, period) == cur
  {
    var r := NewIdxRight(cur, n, period);
    NewIdxRightIsSubtraction(cur, n, period);
    var q := (cur - n) / period;
    assert cur - n == q * period + r;
    assert r + n == (-q) * period + cur;
    ModUnique(r + n, period, -q, cur);
  }

  /** The ring's test rotating a period-8 ring right by 3 from index 0. */
  lemma RotateRightFromStart()
    ensures NewIdxRight(0, 3, 8) == 5
  {
    NewIdxRightIsSubtraction(0, 3, 8);
    ModUnique(-3, 8, -1, 5);
  }

  /**
   * The ring's tests rotating a period-8 ring right from index 5: by nothing
   * and by a whole period it stays put, by 2 it lands on 3.
   */
  lemma RotateRightFromFive(n: nat)
    requires n == 0 || n == 2 || n == 8
    ensures NewIdxRight(5, n, 8) == if n == 2 then 3 else 5
  {
    NewIdxRightIsSubtraction(5, n, 8);
  }
}
