/**
 * The field searches of `cron/src/schedule/fields/inner.rs`, an older copy
 * of the cron field logic.  Every search resets its ring, scans one cycle
 * for the first value at or after a target, and then turns the ring so that
 * its cursor rests on the answer.  `cron/src/schedule/table/fields.rs`
 * repeats these helpers word for word, and its model uses them from here.
 */
module ScheduleInner {
  import opened Arith
  import opened Ring
  import opened Calendar
  import opened CronField

  /**
   * The slot a search for `x` leaves the cursor on: the first slot holding
   * a value at least `x`, or the first slot when there is none, moved one
   * slot on when the lower field carried.
   */
  function Slot(items: seq<nat>, x: nat, carry: bool): (j: nat)
    requires |items| > 0
    ensures j < |items|
    ensures !carry && FirstAtLeast(items, x) < |items| ==> j == FirstAtLeast(items, x)
    ensures !carry && FirstAtLeast(items, x) == |items| ==> j == 0
  {
    var k := FirstAtLeast(items, x);
    var base := if k < |items| then k else 0;
    if carry then (base + 1) % |items| else base
  }

  /**
   * What `Seconds::first_after` returns: the first value at least `x` with
   * flag false, or, when every value is below `x`, the first value with
   * flag true.
   */
  function FirstAtLeastOrFirst(items: seq<nat>, x: nat): (r: (nat, bool))
    requires |items| > 0
    ensures r.1 <==> forall i :: 0 <= i < |items| ==> items[i] < x
    ensures !r.1 ==> r.0 >= x && exists i :: 0 <= i < |items| && items[i] == r.0 && forall j :: 0 <= j < i ==> items[j] < x
    ensures r.1 ==> r.0 == items[0]
  {
    var k := FirstAtLeast(items, x);
    if k < |items| then (items[k], false) else (items[0], true)
  }

  /**
   * What `first_after` of the minutes, hours and months returns: the value
   * at the slot the search settles on, flagged when the scan found nothing,
   * or when it found the last slot and the carry moved past it.
   */
  function CarriedAfter(items: seq<nat>, x: nat, carry: bool): (r: (nat, bool))
    requires |items| > 0
    ensures r.0 == items[Slot(items, x, carry)]
    ensures !carry ==> r == FirstAtLeastOrFirst(items, x)
    ensures carry && FirstAtLeast(items, x) < |items| ==> (r.1 <==> FirstAtLeast(items, x) == |items| - 1)
  {
    var k := FirstAtLeast(items, x);
    var j := Slot(items, x, carry);
    (items[j], k == |items| || (carry && k == |items| - 1))
  }

  /**
   * On a strictly increasing ring of at least two values, the flag tells
   * the result's side of `x`: no flag means a value at least `x`, a flag
   * means a value below it.  Without a carry one value is enough.
   */
  lemma CarriedAfterFlagMeaning(items: seq<nat>, x: nat, carry: bool)
    requires StrictlyIncreasing(items) && |items| > 0 && (carry ==> |items| >= 2)
    ensures !CarriedAfter(items, x, carry).1 ==> CarriedAfter(items, x, carry).0 >= x
    ensures CarriedAfter(items, x, carry).1 ==> CarriedAfter(items, x, carry).0 < x
  {
    var n := |items|;
    var k := FirstAtLeast(items, x);
    if carry && k < n - 1 {
      assert items[k] < items[k + 1];
      ModSmall(k + 1, n);
    } else if carry && k == n - 1 {
      ModUnique(k + 1, n, 1, 0);
      assert items[0] < x;
    } else if carry {
      ModSmall(1, n);
      assert items[1] < x;
    }
  }

  /** A one-value ring breaks that rule under a carry: the flag comes with a value above `x`. */
  lemma CarriedAfterOneValue()
    ensures CarriedAfter([5], 3, true) == (5, true)
  {
    assert FirstAtLeast([5], 3) == 0;
  }

  /**
   * With a carry the search answers the value after `x` when `x` is itself
   * in an increasing ring, but moves one slot too far when it is not.
   */
  lemma CarriedAfterNextListed(items: seq<nat>, i: nat)
    requires StrictlyIncreasing(items) && i + 1 < |items|
    ensures CarriedAfter(items, items[i], true) == (items[i + 1], false)
  {
    FirstAtLeastUnique(items, items[i], i);
    ModSmall(i + 1, |items|);
  }

  lemma CarriedAfterSkipsOne()
    ensures CarriedAfter([10, 20, 30], 15, true) == (30, false)
  {
    FirstAtLeastUnique([10, 20, 30], 15, 1);
  }

  /**
   * Where a reset followed by a scan for `x` leaves the cursor: one slot
   * past the value found, which is the first slot again when that value was
   * the last one or when nothing was found.
   */
  function AfterScan(items: seq<nat>, x: nat): (i: nat)
    requires |items| > 0
    ensures i < |items|
  {
    var k := FirstAtLeast(items, x);
    if k + 1 < |items| then k + 1 else 0
  }

  /**
   * `reset` and then `for v in one_cycle() { if v >= x { found = true; break } }`
   * (the loop over `until_start()` visits the same slots after a reset).
   */
  method ResetAndScan(ring: CopyRing<nat>, x: nat) returns (found: bool)
    requires FieldRing(ring)
    modifies ring
    ensures FieldRing(ring) && ring.init
    ensures found == (FirstAtLeast(ring.items, x) < |ring.items|)
    ensures ring.index == AfterScan(ring.items, x)
  {
    var n := |ring.items|;
    ring.Reset();
    var it := ring.OneCycle();
    OneCycleIsSlice(ring.items);
    found := ScanAtLeast(it, x);
    var k := FirstAtLeast(ring.items, x);
    if k + 1 < n {
      ModSmall(k + 1, n);
    } else if k < n {
      ModUnique(k + 1, n, 1, 0);
    } else {
      ModUnique(n, n, 1, 0);
    }
  }

  /**
   * The same scan over `one_cycle().checked()`, keeping the wrap flag of
   * the value that stopped it, which is never set: a fresh cycle from the
   * first slot cannot wrap before its end.
   */
  method ResetAndScanChecked(ring: CopyRing<nat>, x: nat) returns (found: bool, overflow: bool)
    requires FieldRing(ring)
    modifies ring
    ensures FieldRing(ring) && ring.init
    ensures found == (FirstAtLeast(ring.items, x) < |ring.items|)
    ensures ring.index == AfterScan(ring.items, x)
    ensures !overflow
  {
    var n := |ring.items|;
    ring.Reset();
    var cycle := ring.OneCycle();
    var it := cycle.Checked();
    OneCycleIsSlice(ring.items);
    found, overflow := ScanAtLeastChecked(it, x);
    var k := FirstAtLeast(ring.items, x);
    if k + 1 < n {
      ModSmall(k + 1, n);
      ModSmall(k, n);
    } else if k < n {
      ModUnique(k + 1, n, 1, 0);
      ModSmall(k, n);
    } else {
      ModUnique(n, n, 1, 0);
    }
  }

  /** Turning back one slot from where a scan stopped puts the cursor on the value found. */
  method TurnBack(ring: CopyRing<nat>, x: nat)
    requires FieldRing(ring) && ring.index == AfterScan(ring.items, x)
    requires FirstAtLeast(ring.items, x) < |ring.items|
    modifies ring
    ensures FieldRing(ring) && ring.init
    ensures ring.index == FirstAtLeast(ring.items, x)
  {
    var n := |ring.items|;
    var k := FirstAtLeast(ring.items, x);
    if k + 1 < n {
      ModSmall(k, n);
    } else {
      ModUnique(0 - 1, n, -1, n - 1);
    }
    ring.RotateRight(1);
  }

  /**
   * `Seconds::first_after`: resets the ring and scans it from the first
   * slot; answers as `FirstAtLeastOrFirst`, leaving the cursor one slot past
   * the answer.
   */
  method SecondsFirstAfter(ring: CopyRing<nat>, secs: nat) returns (r: (nat, bool))
    requires FieldRing(ring)
    modifies ring
    ensures FieldRing(ring) && ring.init
    ensures r == FirstAtLeastOrFirst(ring.items, secs)
    ensures ring.index == (Slot(ring.items, secs, false) + 1) % |ring.items|
  {
    var found := ResetAndScan(ring, secs);
    if found {
      TurnBack(ring, secs);
    }
    var v := ring.Next();
    r := (v.value, !found);
  }

  /**
   * `first_after` of the minutes, the hours and the months: resets the
   * ring, scans one checked cycle for a value at least `x`, takes one more
   * checked step when the lower field carried, and turns the cursor back
   * onto the answer; the result is `CarriedAfter`.
   */
  method CarriedFirstAfter(ring: CopyRing<nat>, x: nat, carry: bool) returns (r: (nat, bool))
    requires FieldRing(ring)
    modifies ring
    ensures FieldRing(ring) && ring.init
    ensures r == CarriedAfter(ring.items, x, carry)
    ensures ring.index == Slot(ring.items, x, carry)
  {
    var n := |ring.items|;
    var found, overflow := ResetAndScanChecked(ring, x);
    ghost var k := FirstAtLeast(ring.items, x);
    if carry {
      var step := ring.CheckedNext();
      overflow := step.value.1 || overflow;
    }
    if found {
      if carry {
        // one step past the slot after the value found, then one back
        if k + 1 < n {
          ModSmall(k + 1, n);
          if k + 2 < n {
            ModSmall(k + 2, n);
          } else {
            ModUnique(k + 2, n, 1, 0);
            ModUnique(0 - 1, n, -1, n - 1);
          }
        } else {
          ModUnique(k + 1, n, 1, 0);
          if n > 1 {
            ModSmall(1, n);
            ModSmall(0, n);
          } else {
            ModUnique(1, 1, 1, 0);
            ModUnique(0 - 1, 1, -1, 0);
          }
        }
        ring.RotateRight(1);
      } else {
        TurnBack(ring, x);
      }
      r := (ring.PeekNext().value, carry && overflow);
    } else {
      r := (ring.PeekNext().value, true);
    }
  }

  /**
   * `next` of the minutes and the hours (and of the months in
   * `cron/src/schedule/table/fields.rs`): with a carry, one checked step;
   * without, the value at the cursor, no flag, and the ring left alone.
   */
  method NextWithCarry(ring: CopyRing<nat>, carry: bool) returns (r: (nat, bool))
    requires FieldRing(ring)
    modifies ring
    ensures FieldRing(ring)
    ensures r == (old(ring.items[ring.index]), carry && old(ring.index) == 0 && old(ring.init))
    ensures carry ==> ring.index == (old(ring.index) + 1) % |ring.items| && ring.init
    ensures !carry ==> ring.index == old(ring.index) && ring.init == old(ring.init)
  {
    if carry {
      var step := ring.CheckedNext();
      r := step.value;
    } else {
      r := (ring.PeekNext().value, false);
    }
  }

  /**
   * What `next_day_of_the_month` returns: the day at the slot the search
   * settles on, or, flagged, the ring's first day when that day lies past
   * the month's end, or the day at the settled slot when no day reached
   * `day` at all.
   */
  function MonthDayAfter(items: seq<nat>, day: nat, carry: bool, daysInMonth: nat): (r: (nat, bool))
    requires |items| > 0
    ensures !r.1 <==> FirstAtLeast(items, day) < |items| && items[Slot(items, day, carry)] <= daysInMonth
    ensures !r.1 ==> r.0 == items[Slot(items, day, carry)] && r.0 <= daysInMonth
    ensures r.1 && FirstAtLeast(items, day) < |items| ==> r.0 == items[0]
    ensures r.1 && FirstAtLeast(items, day) == |items| ==> r.0 == items[Slot(items, day, carry)]
  {
    var j := Slot(items, day, carry);
    if FirstAtLeast(items, day) == |items| then (items[j], true)
    else if items[j] > daysInMonth then (items[0], true)
    else (items[j], false)
  }

  /**
   * Without a carry, on an increasing ring, the result is the least listed
   * day from `day` on when it fits in the month, and otherwise the ring's
   * least day, flagged.
   */
  lemma MonthDayAfterLeast(items: seq<nat>, day: nat, daysInMonth: nat)
    requires StrictlyIncreasing(items) && |items| > 0
    ensures var r := MonthDayAfter(items, day, false, daysInMonth);
            (!r.1 ==> day <= r.0 <= daysInMonth && forall v :: v in items && day <= v ==> r.0 <= v) &&
            (r.1 ==> r.0 == items[0] && forall v :: v in items && day <= v ==> v > daysInMonth)
  {
    var k := FirstAtLeast(items, day);
    forall v | v in items && day <= v
      ensures k < |items| && items[k] <= v
    {
      var i :| 0 <= i < |items| && items[i] == v;
      assert i >= k;
    }
  }

  /**
   * With a carry and nothing left this month, the search answers the
   * ring's second day rather than its first.
   */
  lemma MonthDayCarrySkipsFirst()
    ensures MonthDayAfter([1, 15], 20, true, 30) == (15, true)
  {
    assert FirstAtLeast([1, 15], 20) == 2;
  }

  /**
   * `num_weekdays_since` on its 8-bit signed arguments: `7 + second -
   * first` in 8 bits, remainder by 7 truncating toward zero, cast to 8 bits
   * unsigned.
   */
  function NumWeekdaysSince(first: int, second: int): (d: nat)
    requires -128 <= first < 128 && -128 <= second < 128
    ensures d < 256
  {
    U8(RemT(I8(7 + second - first), 7))
  }

  /** From one weekday to another the count is below 7, and stepping it forward lands on the other. */
  lemma NumWeekdaysSinceOfWeekdays(first: nat, second: nat)
    requires first < 7 && second < 7
    ensures NumWeekdaysSince(first, second) == (7 + second - first) % 7
    ensures (first + NumWeekdaysSince(first, second)) % 7 == second
  {
    var x := 7 + second - first;
    assert 0 < x < 14;
    if x < 7 {
      ModSmall(x, 7);
      ModUnique(first + x, 7, 1, second);
    } else {
      ModUnique(x, 7, 1, x - 7);
      ModSmall(first + x - 7, 7);
    }
  }

  lemma NumWeekdaysSinceExamples()
    ensures NumWeekdaysSince(0, 5) == 5 && NumWeekdaysSince(5, 0) == 2
    ensures NumWeekdaysSince(3, 2) == 6 && NumWeekdaysSince(4, 4) == 0
  {
  }

  /**
   * What `next_day_of_the_week` returns: the weekday the search settles
   * on, turned into a day of the month by adding the weekdays from
   * `weekday` to it onto `day`, in 8 bits; a day past the month's end is
   * reduced modulo the month's length and flagged.
   */
  function WeekDayAfter(items: seq<nat>, weekday: nat, day: nat, carry: bool, daysInMonth: nat): (r: (nat, bool))
    requires |items| > 0 && daysInMonth > 0
    ensures r.1 ==> r.0 < daysInMonth
    ensures !r.1 ==> r.0 <= daysInMonth
  {
    var target := items[Slot(items, weekday, carry)];
    var next := U8(day + NumWeekdaysSince(I8(weekday), I8(target)));
    if next > daysInMonth then (next % daysInMonth, true) else (next, false)
  }

  /**
   * For weekdays 0 to 6, the day found lies on the weekday the search
   * settled on, at most six days from `day`; past the month's end it is
   * that many days into the next month.
   */
  lemma WeekDayAfterLandsOnWeekday(items: seq<nat>, weekday: nat, day: nat, carry: bool, daysInMonth: nat)
    requires |items| > 0 && daysInMonth > 0 && weekday < 7 && day + 6 < 256
    requires forall i :: 0 <= i < |items| ==> items[i] < 7
    ensures var t := items[Slot(items, weekday, carry)];
            var d := (7 + t - weekday) % 7;
            var r := WeekDayAfter(items, weekday, day, carry, daysInMonth);
            d < 7 && (weekday + d) % 7 == t &&
            (!r.1 ==> r.0 == day + d) &&
            (r.1 ==> day + d > daysInMonth && r.0 == (day + d) % daysInMonth)
  {
    var t := items[Slot(items, weekday, carry)];
    NumWeekdaysSinceOfWeekdays(weekday, t);
  }

  /**
   * `Days::first_after` picks between the two candidates: when both or
   * neither overflow the earlier day wins, the month day on a tie; when
   * exactly one overflows the other wins.
   */
  function DecideDays(week: (nat, bool), month: (nat, bool)): (r: (nat, bool))
    ensures r == week || r == month
    ensures week.1 != month.1 ==> !r.1
    ensures week.1 == month.1 ==> r.1 == month.1 && r.0 <= month.0 && r.0 <= week.0
    ensures week.1 == month.1 && week.0 == month.0 ==> r == month
  {
    if week.1 == month.1 then (if month.0 <= week.0 then month else week)
    else if week.1 then month
    else week
  }

  /** The day rings: month days and weekdays, only month days, or only weekdays. */
  datatype Days =
    | Both(month: CopyRing<nat>, week: CopyRing<nat>)
    | MonthOnly(monthRing: CopyRing<nat>)
    | WeekOnly(weekRing: CopyRing<nat>)
  {
    function Rings(): set<object>
    {
      match this
      case Both(m, w) => {m, w}
      case MonthOnly(m) => {m}
      case WeekOnly(w) => {w}
    }

    predicate NonEmpty()
    {
      match this
      case Both(m, w) => |m.items| > 0 && |w.items| > 0
      case MonthOnly(m) => |m.items| > 0
      case WeekOnly(w) => |w.items| > 0
    }

    ghost predicate Valid()
      reads Rings()
    {
      match this
      case Both(m, w) => m != w && FieldRing(m) && FieldRing(w)
      case MonthOnly(m) => FieldRing(m)
      case WeekOnly(w) => FieldRing(w)
    }
  }

  /** What `Days::first_after` returns, from the rings' values and the month's length. */
  function DaysAfter(days: Days, day: nat, weekday: nat, carry: bool, month: nat, year: nat): (r: (nat, bool))
    requires days.NonEmpty() && IsMonth(month)
    ensures days.MonthOnly? ==> r == MonthDayAfter(days.monthRing.items, day, carry, DaysInAMonth(month, year))
    ensures days.WeekOnly? ==> r == WeekDayAfter(days.weekRing.items, weekday, day, carry, DaysInAMonth(month, year))
    ensures days.Both? ==>
      var m := MonthDayAfter(days.month.items, day, carry, DaysInAMonth(month, year));
      var w := WeekDayAfter(days.week.items, weekday, day, carry, DaysInAMonth(month, year));
      (r == m || r == w) && (m.1 != w.1 ==> !r.1) && (m.1 == w.1 ==> r.0 <= m.0 && r.0 <= w.0)
  {
    var dim := DaysInAMonth(month, year);
    match days
    case Both(m, w) => DecideDays(WeekDayAfter(w.items, weekday, day, carry, dim), MonthDayAfter(m.items, day, carry, dim))
    case MonthOnly(m) => MonthDayAfter(m.items, day, carry, dim)
    case WeekOnly(w) => WeekDayAfter(w.items, weekday, day, carry, dim)
  }

  /**
   * `next_day_of_the_month`: resets the ring, scans one cycle for a day at
   * least `day`, moves one slot on when the hours carried, and turns back
   * onto the day found, resetting the ring when that day is past the
   * month's end.
   */
  method NextDayOfTheMonth(ring: CopyRing<nat>, carry: bool, day: nat, daysInMonth: nat) returns (r: (nat, bool))
    requires FieldRing(ring)
    modifies ring
    ensures FieldRing(ring)
    ensures r == MonthDayAfter(ring.items, day, carry, daysInMonth)
    ensures ring.index == (if FirstAtLeast(ring.items, day) < |ring.items| && r.1 then 0 else Slot(ring.items, day, carry))
  {
    var found := ResetAndScan(ring, day);
    if carry {
      ring.RotateLeft(1);
    }
    if found {
      if carry {
        ShiftBack(ring, day);
      } else {
        TurnBack(ring, day);
      }
      var next := ring.PeekNext().value;
      if next > daysInMonth {
        ring.Reset();
        r := (ring.PeekNext().value, true);
      } else {
        r := (next, false);
      }
    } else {
      if carry {
        ModSmall(0, |ring.items|);
      }
      r := (ring.PeekNext().value, true);
    }
  }

  /**
   * A scan that found a value, a step forward and a step back: the cursor
   * lies one slot past the value found.
   */
  method ShiftBack(ring: CopyRing<nat>, x: nat)
    requires FieldRing(ring) && FirstAtLeast(ring.items, x) < |ring.items|
    requires ring.index == (AfterScan(ring.items, x) + 1) % |ring.items|
    modifies ring
    ensures FieldRing(ring) && ring.init
    ensures ring.index == Slot(ring.items, x, true)
  {
    var n := |ring.items|;
    var k := FirstAtLeast(ring.items, x);
    if k + 1 < n {
      ModSmall(k + 1, n);
      if k + 2 < n {
        ModSmall(k + 2, n);
      } else {
        ModUnique(k + 2, n, 1, 0);
        ModUnique(0 - 1, n, -1, n - 1);
      }
    } else {
      ModUnique(k + 1, n, 1, 0);
      if n > 1 {
        ModSmall(1, n);
        ModSmall(0, n);
      } else {
        ModUnique(1, 1, 1, 0);
        ModUnique(0 - 1, 1, -1, 0);
      }
    }
    ring.RotateRight(1);
  }

  /**
   * `next_day_of_the_week`: the same search over the weekday ring, the
   * cursor left on the weekday found, which is then turned into a day of
   * the month as `WeekDayAfter` says.
   */
  method NextDayOfTheWeek(ring: CopyRing<nat>, carry: bool, weekday: nat, day: nat, daysInMonth: nat) returns (r: (nat, bool))
    requires FieldRing(ring) && daysInMonth > 0
    modifies ring
    ensures FieldRing(ring) && ring.init
    ensures r == WeekDayAfter(ring.items, weekday, day, carry, daysInMonth)
    ensures ring.index == Slot(ring.items, weekday, carry)
  {
    var found := ResetAndScan(ring, weekday);
    if found {
      TurnBack(ring, weekday);
    }
    if carry {
      ring.RotateLeft(1);
    }
    var target := ring.PeekNext().value;
    var next := U8(day + NumWeekdaysSince(I8(weekday), I8(target)));
    if next > daysInMonth {
      r := (next % daysInMonth, true);
    } else {
      r := (next, false);
    }
  }

  /**
   * `Days::first_after`: asks the weekday ring and then the month-day ring
   * (or the only one present) for the month's length, and returns
   * `DaysAfter`.
   */
  method DaysFirstAfter(days: Days, day: nat, weekday: nat, carry: bool, month: nat, year: nat) returns (r: (nat, bool))
    requires days.Valid() && IsMonth(month)
    modifies days.Rings()
    ensures days.Valid()
    ensures r == DaysAfter(days, day, weekday, carry, month, year)
  {
    var dim := DaysInAMonth(month, year);
    match days
    case Both(m, w) =>
      var week := NextDayOfTheWeek(w, carry, weekday, day, dim);
      var monthDay := NextDayOfTheMonth(m, carry, day, dim);
      r := DecideDays(week, monthDay);
    case MonthOnly(m) =>
      r := NextDayOfTheMonth(m, carry, day, dim);
    case WeekOnly(w) =>
      r := NextDayOfTheWeek(w, carry, weekday, day, dim);
  }
}
