/**
 * The time fields of `cron/src/table/fields/time.rs`: seconds, minutes and
 * hours each wrap one field ring, and `after` resets the ring and runs the
 * shared `first_after` search on it.
 */
module TableTime {
  import opened Arith
  import opened Ring
  import opened CronField

  /** `Seconds::after`: the search from a reset ring, with no incoming carry. */
  method SecondsAfter(ring: CopyRing<nat>, sec: nat) returns (r: (nat, bool))
    requires FieldRing(ring)
    modifies ring
    ensures FieldRing(ring) && ring.init
    ensures r == FieldAfter(ring.items, false, sec)
  {
    ring.Reset();
    r := FirstAfter(ring, false, sec);
  }

  /** `Minutes::after`: the search from a reset ring, carrying the seconds' overflow. */
  method MinutesAfter(ring: CopyRing<nat>, min: nat, secOverflow: bool) returns (r: (nat, bool))
    requires FieldRing(ring)
    modifies ring
    ensures FieldRing(ring) && ring.init
    ensures r == FieldAfter(ring.items, secOverflow, min)
  {
    ring.Reset();
    r := FirstAfter(ring, secOverflow, min);
  }

  /** `Hours::after`: the search from a reset ring, carrying the minutes' overflow. */
  method HoursAfter(ring: CopyRing<nat>, hr: nat, minOverflow: bool) returns (r: (nat, bool))
    requires FieldRing(ring)
    modifies ring
    ensures FieldRing(ring) && ring.init
    ensures r == FieldAfter(ring.items, minOverflow, hr)
  {
    ring.Reset();
    r := FirstAfter(ring, minOverflow, hr);
  }

  /**
   * Without a carry the flag tells where the value lies: false means at
   * least the input, true means below it.
   */
  lemma AfterWithoutCarry(items: seq<nat>, x: nat)
    requires |items| > 0 && Sorted(items) && x < 256
    ensures var r := FieldAfter(items, false, x);
            (!r.1 ==> r.0 >= x) && (r.1 ==> r.0 < x)
  {
    FieldAfterLeastAtLeast(items, false, x);
  }

  /**
   * With a carry, false means strictly above the input, and true means at
   * most the input: the wrapped value may equal it.
   */
  lemma AfterWithCarry(items: seq<nat>, x: nat)
    requires |items| > 0 && Sorted(items) && x < 255
    ensures var r := FieldAfter(items, true, x);
            (!r.1 ==> r.0 > x) && (r.1 ==> r.0 <= x)
  {
    FieldAfterLeastAtLeast(items, true, x);
  }

  /**
   * A ring holding only 5, asked for minute 5 with a carry, wraps back to 5:
   * the strict "below the input" that the tests expect after a wrap does
   * not hold for every ring.
   */
  lemma CarryWrapCanEqualInput()
    ensures FieldAfter([5], true, 5) == (5, true)
  {
    SearchFindsLeastAtLeast([5], 6);
  }
}
