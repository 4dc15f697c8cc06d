/**
 * The two ring helpers every field of `cron/src/table/fields.rs` is moved
 * with (`next` and `first_after`, lines 13-32).  A field ring holds the
 * values a cron field allows; it steps one slot at a time.
 */
module CronField {
  import opened Arith
  import opened Ring

  /** A field ring as the table uses it: a valid, non-empty ring with stride 1. */
  ghost predicate FieldRing(ring: CopyRing<nat>)
    reads ring
  {
    ring.Valid() && |ring.items| > 0 && ring.stride == 1
  }

  /** The value a `first_after` search aims at: `from`, plus one when the lower field carried, in 8 bits. */
  function Target(overflow: bool, from: nat): (t: nat)
    ensures t < 256
    ensures from + BoolToNat(overflow) < 256 ==> t == from + BoolToNat(overflow)
  {
    U8(from + BoolToNat(overflow))
  }

  /**
   * What `first_after` yields for a ring over `items`: the slot the search
   * lands on with flag false, or, when every value is below the target, the
   * value of the ring's following `next` call with flag true.
   */
  function FieldAfter(items: seq<nat>, overflow: bool, from: nat): (r: (nat, bool))
    requires |items| > 0
    ensures r.0 in items
  {
    var n := |items|;
    var i := BinarySearch(items, Target(overflow, from));
    if i < n then (items[i], false) else (items[1 % n], true)
  }

  /**
   * On a sorted ring the flag is false exactly when some value reaches the
   * target, and then the value is the least such value.
   */
  lemma FieldAfterLeastAtLeast(items: seq<nat>, overflow: bool, from: nat)
    requires |items| > 0 && Sorted(items)
    ensures var t := Target(overflow, from);
            var r := FieldAfter(items, overflow, from);
            (r.1 <==> forall v :: v in items ==> v < t) &&
            (!r.1 ==> r.0 >= t && forall v :: v in items && v >= t ==> r.0 <= v)
  {
    SearchFindsLeastAtLeast(items, Target(overflow, from));
  }

  /**
   * On the wrap path the value is not the first slot but the one after it:
   * with values 1, 2 and 3 and a target of 5 the result is 2.
   */
  lemma WrapSkipsFirstSlot()
    ensures FieldAfter([1, 2, 3], false, 5) == (2, true)
  {
    assert [1, 2, 3][0] < 5 && [1, 2, 3][1] < 5 && [1, 2, 3][2] < 5;
    SearchFindsLeastAtLeast([1, 2, 3], 5);
  }

  /**
   * `next`: with a carry, the ring's checked step (its value and wrap flag);
   * without one, the value under the cursor with flag false, the ring unmoved.
   */
  method Next(ring: CopyRing<nat>, overflow: bool) returns (r: (nat, bool))
    requires FieldRing(ring)
    modifies ring
    ensures FieldRing(ring)
    ensures overflow ==>
      r == (ring.items[old(ring.index)], old(ring.index) == 0 && old(ring.init)) &&
      ring.index == (old(ring.index) + 1) % |ring.items| && ring.init
    ensures !overflow ==>
      r == (ring.items[ring.index], false) && ring.index == old(ring.index) && ring.init == old(ring.init)
  {
    if overflow {
      var c := ring.CheckedNext();
      r := c.value;
    } else {
      var p := ring.PeekNext();
      r := (p.value, false);
    }
  }

  /**
   * `first_after`: a `binary_search_or_greater` for the target; when it
   * wrapped, one more `next` on the ring.  The cursor ends one past the
   * slot the search consumed, or two past the first slot after a wrap.
   */
  method FirstAfter(ring: CopyRing<nat>, overflow: bool, from: nat) returns (r: (nat, bool))
    requires FieldRing(ring)
    modifies ring
    ensures FieldRing(ring)
    ensures r == FieldAfter(ring.items, overflow, from)
    ensures var n := |ring.items|;
            var i := BinarySearch(ring.items, Target(overflow, from));
            ring.index == (if i < n then (i + 1) % n else 2 % n) && ring.init
  {
    var n := |ring.items|;
    var found := BinarySearchOrGreater(ring, Target(overflow, from));
    ghost var i := BinarySearch(ring.items, Target(overflow, from));
    if i < n {
      ModSmall(i, n);
    } else {
      ModUnique(i, n, 1, 0);
    }
    if !found.value.1 {
      r := (found.value.0, false);
    } else {
      var v := ring.Next();
      r := (v.value, true);
      ModSmall(1 % n, n);
      ModAddLeft(1, 1, n);
    }
  }
}
