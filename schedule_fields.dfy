/**
 * The field table of `cron/src/schedule/fields.rs`, the oldest copy of the
 * cron field searches.  Here the minutes and the hours honour a carry by
 * turning their ring one slot on before the scan, and the day searches turn
 * theirs one slot back.
 */
module ScheduleFields {
  import opened Wrappers
  import opened Arith
  import opened Ring
  import opened CronField
  import opened ScheduleInner

  /** Where slot `k` of a read starting at slot `s` falls, wrapping round once. */
  lemma WrapIndex(s: nat, k: nat, n: nat)
    requires s < n && k < n
    ensures (s + k) % n == if s + k < n then s + k else s + k - n
  {
    if s + k < n {
      ModSmall(s + k, n);
    } else {
      ModUnique(s + k, n, 1, s + k - n);
    }
  }

  /** One slot behind the slot after `p` is `p` again. */
  lemma BackOne(p: nat, n: nat)
    requires p < n
    ensures ((p + 1) % n - 1) % n == p
  {
    ModAddLeft(p + 1, -1, n);
    ModSmall(p, n);
  }

  /** The ring's values read from slot `s` round to the slot before it. */
  function Rotation(items: seq<nat>, s: nat): (o: seq<nat>)
    requires s < |items|
    ensures |o| == |items| && multiset(o) == multiset(items)
    ensures forall k :: 0 <= k < |o| ==> o[k] == items[(s + k) % |items|]
  {
    assert items == items[..s] + items[s..];
    var o := items[s..] + items[..s];
    forall k | 0 <= k < |o|
      ensures o[k] == items[(s + k) % |items|]
    {
      WrapIndex(s, k, |items|);
    }
    o
  }

  /** One cycle with stride 1 from slot `s` reads the rotation from `s`. */
  lemma CycleIsRotation(items: seq<nat>, s: nat)
    requires s < |items|
    ensures Window(items, s, 1, |items|) == Rotation(items, s)
  {
    var w := Window(items, s, 1, |items|);
    forall k | 0 <= k < |items|
      ensures w[k] == Rotation(items, s)[k]
    {
      WindowAt(items, s, |items|, k);
    }
  }

  /** Where a search starts after turning the ring one slot on when the lower field carried. */
  function LeftStart(n: nat, carry: bool): (s: nat)
    requires n > 0
    ensures s < n && s == (if carry then 1 else 0) % n
  {
    if carry && n > 1 then
      ModSmall(1, n);
      1
    else
      ModSmall(0, n);
      if carry then ModUnique(1, 1, 1, 0); 0 else 0
  }

  /** Where a search starts after turning the ring one slot back when the lower field carried. */
  function RightStart(n: nat, carry: bool): (s: nat)
    requires n > 0
    ensures s < n && s == (if carry then -1 else 0) % n
  {
    ModSmall(0, n);
    if carry then
      ModUnique(-1, n, -1, n - 1);
      n - 1
    else 0
  }

  /** With a carry the values are read from the second one, and the first comes last. */
  lemma LeftOrderCarried(items: seq<nat>)
    requires |items| > 0
    ensures Rotation(items, LeftStart(|items|, true)) == items[1..] + items[..1]
  {
    if |items| == 1 {
      assert items[1..] + items[..1] == items;
    }
  }

  /** With a carry the values are read from the last one, and then from the first. */
  lemma RightOrderCarried(items: seq<nat>)
    requires |items| > 0
    ensures Rotation(items, RightStart(|items|, true)) == [items[|items| - 1]] + items[..|items| - 1]
  {
    assert items[|items| - 1..] == [items[|items| - 1]];
  }

  /**
   * One cycle of `for v in one_cycle() { if v >= x { found = true; break } }`
   * from wherever the cursor is.
   */
  method ScanCycle(ring: CopyRing<nat>, x: nat) returns (found: bool)
    requires FieldRing(ring)
    modifies ring
    ensures FieldRing(ring) && ring.init
    ensures var o := Rotation(ring.items, old(ring.index));
            var k := FirstAtLeast(o, x);
            found == (k < |o|) &&
            ring.index == (old(ring.index) + (if found then k + 1 else |o|)) % |ring.items|
  {
    CycleIsRotation(ring.items, ring.index);
    var it := ring.OneCycle();
    found := ScanAtLeast(it, x);
  }

  /**
   * After a cycle's scan from slot `s`, turning back one slot when
   * something was found leaves the cursor on the value the scan stopped
   * on: the value found, or the one at `s` when nothing was.
   */
  method SettleAfterScan(ring: CopyRing<nat>, s: nat, x: nat, found: bool)
    requires FieldRing(ring) && s < |ring.items|
    requires var o := Rotation(ring.items, s);
             var k := FirstAtLeast(o, x);
             found == (k < |o|) && ring.index == (s + (if found then k + 1 else |o|)) % |ring.items|
    modifies ring
    ensures FieldRing(ring) && ring.init == (old(ring.init) || found)
    ensures var o := Rotation(ring.items, s);
            var k := FirstAtLeast(o, x);
            ring.items[ring.index] == (if found then o[k] else o[0])
  {
    var n := |ring.items|;
    ghost var o := Rotation(ring.items, s);
    ghost var k := FirstAtLeast(o, x);
    if found {
      ghost var p := (s + k) % n;
      ModAddLeft(s + k, 1, n);
      assert ring.index == (p + 1) % n;
      BackOne(p, n);
      ring.RotateRight(1);
    } else {
      ModPeriodic(s, n);
      ModSmall(s, n);
      WrapIndex(s, 0, n);
    }
  }

  /** The order the minutes' and hours' search reads the ring in. */
  function LeftOrder(items: seq<nat>, carry: bool): (o: seq<nat>)
    requires |items| > 0
    ensures carry ==> o == items[1..] + items[..1]
    ensures !carry ==> o == items
  {
    if carry then LeftOrderCarried(items); Rotation(items, LeftStart(|items|, true))
    else assert Rotation(items, 0) == items; Rotation(items, 0)
  }

  /** The order the day searches read their ring in. */
  function RightOrder(items: seq<nat>, carry: bool): (o: seq<nat>)
    requires |items| > 0
    ensures carry ==> o == [items[|items| - 1]] + items[..|items| - 1]
    ensures !carry ==> o == items
  {
    if carry then RightOrderCarried(items); Rotation(items, RightStart(|items|, true))
    else assert Rotation(items, 0) == items; Rotation(items, 0)
  }

  /**
   * `Minutes::first_after` and `Hours::first_after` of this file: resets
   * the ring, turns it one slot on when the lower field carried, scans one
   * cycle for a value at least `x`, and answers it with flag false, or the
   * first value of the scan with flag true; the cursor ends one slot past
   * the answer.
   */
  method RotatedFirstAfter(ring: CopyRing<nat>, x: nat, carry: bool) returns (r: (nat, bool))
    requires FieldRing(ring)
    modifies ring
    ensures FieldRing(ring) && ring.init
    ensures r == FirstAtLeastOrFirst(LeftOrder(ring.items, carry), x)
    ensures ring.PeekPrev() == Some(r.0)
  {
    var n := |ring.items|;
    ring.Reset();
    if carry {
      ring.RotateLeft(1);
    }
    var s := ring.index;
    assert s == LeftStart(n, carry);
    var found := ScanCycle(ring, x);
    SettleAfterScan(ring, s, x, found);
    var p := ring.index;
    var v := ring.Next();
    BackOne(p, n);
    assert ring.index == (p + 1) % n;
    assert ring.PeekPrev().value == ring.items[(ring.index - 1) % n];
    assert ring.PeekPrev() == Some(ring.items[p]);
    assert v == Some(ring.items[p]);
    r := (v.value, !found);
  }

  /**
   * What this file's `next_day_of_the_month` returns: the scan visits the
   * ring turned one slot back when the hours carried; a day found within
   * the month is the answer, one past its end gives the ring's first day,
   * flagged, and no day found gives the scan's first day, flagged.
   */
  function MonthDayAfterTurnedBack(items: seq<nat>, day: nat, carry: bool, daysInMonth: nat): (r: (nat, bool))
    requires |items| > 0
    ensures var o := RightOrder(items, carry);
            var k := FirstAtLeast(o, day);
            (!r.1 <==> k < |o| && o[k] <= daysInMonth) &&
            (!r.1 ==> day <= r.0 <= daysInMonth) &&
            (r.1 && k < |o| ==> r.0 == items[0]) &&
            (r.1 && k == |o| ==> r.0 == o[0])
  {
    var o := RightOrder(items, carry);
    var k := FirstAtLeast(o, day);
    if k == |o| then (o[0], true)
    else if o[k] > daysInMonth then (items[0], true)
    else (o[k], false)
  }

  /**
   * Turning the ring back instead of on: with a carry and no listed day
   * left in the month, the answer is the ring's last day, not its first.
   */
  lemma MonthDayCarryAnswersLast(items: seq<nat>, day: nat, daysInMonth: nat)
    requires |items| > 0 && forall i :: 0 <= i < |items| ==> items[i] < day
    ensures MonthDayAfterTurnedBack(items, day, true, daysInMonth) == (items[|items| - 1], true)
  {
    var o := RightOrder(items, true);
    RightOrderBelow(items, true, day);
    FirstAtLeastUnique(o, day, |o|);
  }

  /** Reading the ring in another order reads no new values. */
  lemma RightOrderBelow(items: seq<nat>, carry: bool, bound: nat)
    requires |items| > 0 && forall i :: 0 <= i < |items| ==> items[i] < bound
    ensures var o := RightOrder(items, carry);
            forall i :: 0 <= i < |o| ==> o[i] < bound
  {
    var o := RightOrder(items, carry);
    forall i | 0 <= i < |o|
      ensures o[i] < bound
    {
      if carry && i > 0 {
        assert o[i] == items[i - 1];
      }
    }
  }

  /**
   * This file's `num_weekdays_since`: `7 + second - first` on 8-bit signed
   * values, cast to 8 bits unsigned, with no remainder taken.
   */
  function NumWeekdaysSinceUnreduced(first: int, second: int): (d: nat)
    requires -128 <= first < 128 && -128 <= second < 128
    ensures d < 256
  {
    U8(I8(7 + second - first))
  }

  /** Between weekdays the count runs from 1 to 13, and equal weekdays give 7 rather than 0. */
  lemma NumWeekdaysSinceUnreducedOfWeekdays(first: nat, second: nat)
    requires first < 7 && second < 7
    ensures NumWeekdaysSinceUnreduced(first, second) == 7 + second - first
    ensures 1 <= NumWeekdaysSinceUnreduced(first, second) <= 13
    ensures first == second ==> NumWeekdaysSinceUnreduced(first, second) == 7
  {
  }

  /** Adding the count to the weekday it was taken from lands a week past the target. */
  lemma WeekdayPlusCount(weekday: nat, target: nat)
    requires weekday < 7 && target < 7
    ensures U8(weekday + NumWeekdaysSinceUnreduced(I8(weekday), I8(target))) == 7 + target
  {
    assert I8(weekday) == weekday && I8(target) == target;
    NumWeekdaysSinceUnreducedOfWeekdays(weekday, target);
  }

  /**
   * What this file's `next_day_of_the_week` returns: the weekday the scan
   * settles on, with the count from `weekday` to it added to `weekday`
   * itself, in 8 bits; past the month's end the sum is reduced modulo the
   * month's length and flagged.
   */
  function WeekDayAfterTurnedBack(items: seq<nat>, weekday: nat, carry: bool, daysInMonth: nat): (r: (nat, bool))
    requires |items| > 0 && daysInMonth > 0
    ensures r.1 ==> r.0 < daysInMonth
    ensures !r.1 ==> r.0 <= daysInMonth
  {
    var o := RightOrder(items, carry);
    var k := FirstAtLeast(o, weekday);
    var target := if k < |o| then o[k] else o[0];
    WrapDay(U8(weekday + NumWeekdaysSinceUnreduced(I8(weekday), I8(target))), daysInMonth)
  }

  /** A day count past the month's end is reduced modulo the month's length and flagged. */
  function WrapDay(next: nat, daysInMonth: nat): (r: (nat, bool))
    requires daysInMonth > 0
    ensures r.1 <==> next > daysInMonth
    ensures r.1 ==> r.0 < daysInMonth
    ensures !r.1 ==> r.0 == next
  {
    if next > daysInMonth then (next % daysInMonth, true) else (next, false)
  }

  /**
   * For weekdays 0 to 6 and any month of at least 13 days, the answer is
   * the weekday found plus 7, never flagged: the sum starts from the
   * weekday rather than from a day of the month.
   */
  lemma WeekDayIsWeekdayPlusSeven(items: seq<nat>, weekday: nat, carry: bool, daysInMonth: nat)
    requires |items| > 0 && daysInMonth >= 13 && weekday < 7
    requires forall i :: 0 <= i < |items| ==> items[i] < 7
    ensures var o := RightOrder(items, carry);
            var k := FirstAtLeast(o, weekday);
            var target := if k < |o| then o[k] else o[0];
            WeekDayAfterTurnedBack(items, weekday, carry, daysInMonth) == (7 + target, false)
  {
    var o := RightOrder(items, carry);
    var k := FirstAtLeast(o, weekday);
    var target := if k < |o| then o[k] else o[0];
    RightOrderBelow(items, carry, 7);
    WeekdayPlusCount(weekday, target);
  }

  /** Which day rings a schedule gives (`days::Spec`). */
  datatype DaysSpec = MonthAndWeek | MonthOnly | WeekOnly

  /**
   * The search both day rings share: reset, turn one slot back when the
   * hours carried, scan one cycle for a value at least `x`, and leave the
   * cursor on the value found, or on the first value read when none was.
   */
  method ScanTurnedBack(ring: CopyRing<nat>, carry: bool, x: nat) returns (found: bool)
    requires FieldRing(ring)
    modifies ring
    ensures FieldRing(ring) && (found ==> ring.init)
    ensures var o := RightOrder(ring.items, carry);
            var k := FirstAtLeast(o, x);
            found == (k < |o|) && ring.items[ring.index] == (if found then o[k] else o[0])
  {
    var n := |ring.items|;
    ring.Reset();
    if carry {
      ring.RotateRight(1);
    }
    var s := ring.index;
    assert s == RightStart(n, carry);
    found := ScanCycle(ring, x);
    SettleAfterScan(ring, s, x, found);
  }

  /** Both day rings and which of them the schedule uses. */
  class Days {
    const month: CopyRing<nat>
    const week: CopyRing<nat>
    const spec: Option<DaysSpec>

    ghost predicate Valid()
      reads this, month, week
    {
      month != week && FieldRing(month) && FieldRing(week)
    }

    constructor (month: CopyRing<nat>, week: CopyRing<nat>, spec: Option<DaysSpec>)
      ensures this.month == month && this.week == week && this.spec == spec
    {
      this.month := month;
      this.week := week;
      this.spec := spec;
    }

    /**
     * `next_day_of_the_month`: resets the month-day ring, turns it one slot
     * back when the hours carried, scans one cycle for a day at least
     * `day` and leaves the cursor on it, resetting the ring when that day
     * is past the month's end.
     */
    method NextDayOfTheMonth(carry: bool, day: nat, daysInMonth: nat) returns (r: (nat, bool))
      requires Valid()
      modifies month
      ensures Valid()
      ensures r == MonthDayAfterTurnedBack(month.items, day, carry, daysInMonth)
      ensures month.items[month.index] == r.0
    {
      var found := ScanTurnedBack(month, carry, day);
      var next := month.PeekNext().value;
      if found && next > daysInMonth {
        month.Reset();
        r := (month.PeekNext().value, true);
      } else {
        r := (next, !found);
      }
    }

    /**
     * `next_day_of_the_week`: the same search over the weekday ring, whose
     * cursor stays on the weekday found; the answer is then
     * `WeekDayAfterTurnedBack`.
     */
    method NextDayOfTheWeek(carry: bool, weekday: nat, daysInMonth: nat) returns (r: (nat, bool))
      requires Valid() && daysInMonth > 0
      modifies week
      ensures Valid()
      ensures r == WeekDayAfterTurnedBack(week.items, weekday, carry, daysInMonth)
    {
      var found := ScanTurnedBack(week, carry, weekday);
      var target := week.PeekNext().value;
      ghost var o := RightOrder(week.items, carry);
      ghost var k := FirstAtLeast(o, weekday);
      assert target == (if k < |o| then o[k] else o[0]);
      var next := U8(weekday + NumWeekdaysSinceUnreduced(I8(weekday), I8(target)));
      assert WeekDayAfterTurnedBack(week.items, weekday, carry, daysInMonth) == WrapDay(next, daysInMonth);
      if next > daysInMonth {
        r := (next % daysInMonth, true);
      } else {
        r := (next, false);
      }
    }
  }

  /** The rings a field table is made from (`Init`). */
  datatype Init = Init(
    secs: CopyRing<nat>, mins: CopyRing<nat>, hrs: CopyRing<nat>,
    daysOfTheMonth: CopyRing<nat>, months: CopyRing<nat>, daysOfTheWeek: CopyRing<nat>,
    daysSpec: Option<DaysSpec>)

  /** Six field rings and the count of years past the next one. */
  class FieldTable {
    const secs: CopyRing<nat>
    const mins: CopyRing<nat>
    const hours: CopyRing<nat>
    const days: Days
    const months: CopyRing<nat>
    var yearsFromNext: nat

    /** `FieldTable::new`: each ring goes to its field, and the year count starts at 0. */
    constructor (init: Init)
      ensures secs == init.secs && mins == init.mins && hours == init.hrs && months == init.months
      ensures fresh(days) && days.month == init.daysOfTheMonth && days.week == init.daysOfTheWeek
      ensures days.spec == init.daysSpec
      ensures yearsFromNext == 0
    {
      secs := init.secs;
      mins := init.mins;
      hours := init.hrs;
      days := new Days(init.daysOfTheMonth, init.daysOfTheWeek, init.daysSpec);
      months := init.months;
      yearsFromNext := 0;
    }
  }
}
