/**
 * The day fields of `cron/src/schedule/table/fields.rs`: the searches of
 * `cron/src/schedule/fields/inner.rs` (modelled in `ScheduleInner`), plus a
 * cache that remembers which day ring gave the last answer so that `next`
 * can advance only that ring, and the builders of the time and date halves.
 */
module ScheduleTableFields {
  import opened Wrappers
  import opened Arith
  import opened Ring
  import opened Calendar
  import opened CronField
  import ScheduleInner
  import TableFields

  /** Which day ring gave the last answer (`LastUsed`, Week by default). */
  datatype LastUsed = Week | Month | Both

  /** The values a `DayCache` holds. */
  datatype Summary = Summary(lastMonthDay: nat, lastWeekday: nat, lastUsed: LastUsed)

  /** `DayCache`: the last day of the month answered, its weekday, and the ring it came from. */
  class DayCache {
    var lastMonthDay: nat
    var lastWeekday: nat
    var lastUsed: LastUsed

    /** `DayCache::default`. */
    constructor ()
      ensures Contents() == Summary(0, 0, Week)
    {
      lastMonthDay, lastWeekday, lastUsed := 0, 0, Week;
    }

    function Contents(): Summary
      reads this
    {
      Summary(lastMonthDay, lastWeekday, lastUsed)
    }

    /** `DayCache::set`: every field takes the new summary's value. */
    method Set(s: Summary)
      modifies this
      ensures Contents() == s
    {
      lastMonthDay := s.lastMonthDay;
      lastUsed := s.lastUsed;
      lastWeekday := s.lastWeekday;
    }
  }

  /**
   * `next_weekday_from_last`: the last weekday plus the days from the last
   * day to the end of the month and on to `nextDay`, modulo 7, each step in
   * 8 bits.
   */
  function NextWeekdayAcrossMonth(lastWeekday: nat, nextDay: nat, daysInMonth: nat, lastDay: nat): (w: nat)
    ensures w < 7
  {
    U8(lastWeekday + U8(U8(nextDay + daysInMonth) - lastDay)) % 7
  }

  /**
   * The case the formula is written for: when `nextDay` is a day of the
   * following month, the answer is that day's weekday, counted from the
   * last day's weekday.
   */
  lemma NextWeekdayAcrossMonthCounts(lastWeekday: nat, nextDay: nat, daysInMonth: nat, lastDay: nat)
    requires lastWeekday < 7 && nextDay <= 31 && lastDay <= daysInMonth <= 31
    ensures NextWeekdayAcrossMonth(lastWeekday, nextDay, daysInMonth, lastDay) ==
            (lastWeekday + (daysInMonth - lastDay) + nextDay) % 7
  {
    assert U8(nextDay + daysInMonth) == nextDay + daysInMonth;
    assert U8(nextDay + daysInMonth - lastDay) == nextDay + daysInMonth - lastDay;
    assert U8(lastWeekday + (nextDay + daysInMonth - lastDay)) == lastWeekday + (nextDay + daysInMonth - lastDay);
  }

  /**
   * The case the formula gets wrong: for a later day of the same month the
   * month's length is still added.  From a Tuesday the 13th of a 30-day
   * month it gives 6 for the 15th, where the 15th is a Thursday (4).
   */
  lemma NextWeekdayWithinMonthIsOff()
    ensures NextWeekdayAcrossMonth(2, 15, 30, 13) == 6
    ensures (2 + (15 - 13)) % 7 == 4
  {
    NextWeekdayAcrossMonthCounts(2, 15, 30, 13);
  }

  /**
   * The `weekday_to_month_day` closure of `Days::next`: the count of days
   * from the last weekday to `weekday` is added to the last weekday itself
   * in 8 bits; past the month's end the month's length is taken off and
   * the result flagged.
   */
  function WeekdayToMonthDay(weekday: nat, lastWeekday: nat, daysInMonth: nat): (r: (nat, bool))
    ensures !r.1 ==> r.0 <= daysInMonth
    ensures r.1 ==> r.0 < 256 - daysInMonth
  {
    var next := U8(lastWeekday + ScheduleInner.NumWeekdaysSince(I8(lastWeekday), I8(weekday)));
    if next > daysInMonth then (U8(next - daysInMonth), true) else (next, false)
  }

  /**
   * Between weekdays the sum lands on `weekday` itself or a week after it,
   * below 13, so for any month of at least 13 days it never flags: the
   * answer does not depend on the last day of the month at all.
   */
  lemma WeekdayToMonthDayOfWeekdays(weekday: nat, lastWeekday: nat, daysInMonth: nat)
    requires weekday < 7 && lastWeekday < 7 && daysInMonth >= 13
    ensures var r := WeekdayToMonthDay(weekday, lastWeekday, daysInMonth);
            !r.1 && r.0 < 13 && r.0 % 7 == weekday && lastWeekday <= r.0
  {
    ScheduleInner.NumWeekdaysSinceOfWeekdays(lastWeekday, weekday);
  }

  /**
   * `Days` of this file: both day rings with the cache on the weekday side,
   * only the month-day ring, or only the weekday ring with its cache.
   */
  datatype Days =
    | BothRings(month: CopyRing<nat>, week: CopyRing<nat>, cache: DayCache)
    | MonthOnly(month: CopyRing<nat>)
    | WeekOnly(week: CopyRing<nat>, cache: DayCache)
  {
    /** The same rings without the cache, as `ScheduleInner` searches them. */
    function Plain(): ScheduleInner.Days
    {
      match this
      case BothRings(m, w, _) => ScheduleInner.Both(m, w)
      case MonthOnly(m) => ScheduleInner.MonthOnly(m)
      case WeekOnly(w, _) => ScheduleInner.WeekOnly(w)
    }

    function Rings(): set<object>
    {
      Plain().Rings()
    }

    function Caches(): set<object>
    {
      if MonthOnly? then {} else {cache}
    }

    ghost predicate Valid()
      reads Rings()
    {
      Plain().Valid()
    }
  }

  /**
   * The cache `Days::first_after` leaves with both rings: the month day
   * when it wins, with its weekday from `next_weekday_from_last`; the week's
   * answer when it wins, with the weekday the ring settled on; and on a tie
   * the month day with the settled weekday, marked as both.
   */
  function FirstSummary(week: (nat, bool), month: (nat, bool), settled: nat, weekday: nat, day: nat, daysInMonth: nat): (s: Summary)
    ensures s.lastMonthDay == ScheduleInner.DecideDays(week, month).0
    ensures s.lastUsed == Both <==> week.1 == month.1 && week.0 == month.0
    ensures s.lastUsed == Month ==> ScheduleInner.DecideDays(week, month) == month && s.lastWeekday < 7
    ensures s.lastUsed == Week ==> ScheduleInner.DecideDays(week, month) == week && s.lastWeekday == settled
  {
    if week.1 == month.1 then
      if month.0 < week.0 then Summary(month.0, NextWeekdayAcrossMonth(weekday, month.0, daysInMonth, day), Month)
      else if month.0 == week.0 then Summary(month.0, settled, Both)
      else Summary(week.0, settled, Week)
    else if week.1 then Summary(month.0, NextWeekdayAcrossMonth(weekday, month.0, daysInMonth, day), Month)
    else Summary(week.0, settled, Week)
  }

  /**
   * `Days::first_after` of this file: the search of `ScheduleInner`, and
   * then the cache is set as `FirstSummary` says with both rings, and to
   * the answer and the settled weekday with the weekday ring alone.
   */
  method FirstAfter(days: Days, day: nat, weekday: nat, carry: bool, month: nat, year: nat) returns (r: (nat, bool))
    requires days.Valid() && IsMonth(month)
    modifies days.Rings(), days.Caches()
    ensures days.Valid()
    ensures r == ScheduleInner.DaysAfter(days.Plain(), day, weekday, carry, month, year)
    ensures days.BothRings? ==>
      var dim := DaysInAMonth(month, year);
      days.cache.Contents() == FirstSummary(
        ScheduleInner.WeekDayAfter(days.week.items, weekday, day, carry, dim),
        ScheduleInner.MonthDayAfter(days.month.items, day, carry, dim),
        days.week.items[ScheduleInner.Slot(days.week.items, weekday, carry)], weekday, day, dim)
    ensures days.WeekOnly? ==>
      days.cache.Contents() == Summary(r.0, days.week.items[ScheduleInner.Slot(days.week.items, weekday, carry)], Week)
  {
    var dim := DaysInAMonth(month, year);
    match days
    case BothRings(m, w, cache) =>
      var nextWeek := ScheduleInner.NextDayOfTheWeek(w, carry, weekday, day, dim);
      var nextMonth := ScheduleInner.NextDayOfTheMonth(m, carry, day, dim);
      var settled := w.PeekNext().value;
      cache.Set(FirstSummary(nextWeek, nextMonth, settled, weekday, day, dim));
      r := ScheduleInner.DecideDays(nextWeek, nextMonth);
    case MonthOnly(m) =>
      r := ScheduleInner.NextDayOfTheMonth(m, carry, day, dim);
    case WeekOnly(w, cache) =>
      r := ScheduleInner.NextDayOfTheWeek(w, carry, weekday, day, dim);
      cache.Set(Summary(r.0, w.PeekNext().value, Week));
  }

  /**
   * How `Days::next` settles between the two candidates: as
   * `DecideDays` does, keeping the winner's summary, and marking a tie as
   * both.
   */
  function Choose(month: Summary, monthOverflow: bool, week: Summary, weekOverflow: bool): (s: (Summary, bool))
    requires month.lastUsed == Month && week.lastUsed == Week
    ensures (s.0.lastMonthDay, s.1) ==
            ScheduleInner.DecideDays((week.lastMonthDay, weekOverflow), (month.lastMonthDay, monthOverflow))
    ensures s.0 == week || s.0 == month || s.0 == month.(lastUsed := Both)
    ensures s.0.lastUsed == Both <==> monthOverflow == weekOverflow && month.lastMonthDay == week.lastMonthDay
  {
    if monthOverflow == weekOverflow then
      if month.lastMonthDay < week.lastMonthDay then (month, monthOverflow)
      else if month.lastMonthDay == week.lastMonthDay then (month.(lastUsed := Both), monthOverflow)
      else (week, weekOverflow)
    else if monthOverflow then (week, weekOverflow)
    else (month, monthOverflow)
  }

  /**
   * `Days::next` with both rings and a carry, from the cache and the
   * values under the two cursors: the week's candidate is its weekday
   * turned into a day by `WeekdayToMonthDay`, the month's is its day, with
   * the wrap flag of its checked step when it advanced, and its weekday
   * from `next_weekday_from_last`.
   */
  function BothNext(c: Summary, monthValue: nat, monthWrapped: bool, weekValue: nat, daysInMonth: nat): (s: (Summary, bool))
  {
    var (day, weekOverflow) := WeekdayToMonthDay(weekValue, c.lastWeekday, daysInMonth);
    var monthSummary := Summary(monthValue, NextWeekdayAcrossMonth(c.lastWeekday, monthValue, daysInMonth, c.lastMonthDay), Month);
    Choose(monthSummary, monthWrapped, Summary(day, weekValue, Week), weekOverflow)
  }

  /**
   * With a carry, only the ring that gave the last answer moves: a ring
   * left behind is not advanced, so a day the other ring skipped past is
   * still offered next time.
   */
  lemma BothNextMovesLastUsed(c: Summary, monthValue: nat, monthWrapped: bool, weekValue: nat, daysInMonth: nat)
    requires c.lastWeekday < 7 && weekValue < 7 && daysInMonth >= 13
    ensures var s := BothNext(c, monthValue, monthWrapped, weekValue, daysInMonth);
            var w := WeekdayToMonthDay(weekValue, c.lastWeekday, daysInMonth);
            (s.0.lastUsed == Week ==> s.0.lastWeekday == weekValue && s.0.lastMonthDay == w.0 && !s.1) &&
            (s.0.lastUsed != Week ==> s.0.lastMonthDay == monthValue && s.1 == monthWrapped)
  {
    WeekdayToMonthDayOfWeekdays(weekValue, c.lastWeekday, daysInMonth);
  }

  /**
   * The carried step of `Days::next` with both rings: the ring or rings
   * the cache names step, the other is only looked at, and the cache takes
   * the summary `BothNext` settles on.
   */
  method StepBoth(m: CopyRing<nat>, w: CopyRing<nat>, cache: DayCache, daysInMonth: nat) returns (r: (nat, bool))
    requires m != w && FieldRing(m) && FieldRing(w)
    modifies m, w, cache
    ensures FieldRing(m) && FieldRing(w)
    ensures var c := old(cache.Contents());
            var s := BothNext(c, old(m.items[m.index]), c.lastUsed != Week && old(m.index) == 0 && old(m.init),
                              old(w.items[w.index]), daysInMonth);
            r == (s.0.lastMonthDay, s.1) && cache.Contents() == s.0 &&
            w.index == (if c.lastUsed == Month then old(w.index) else (old(w.index) + 1) % |w.items|) &&
            m.index == (if c.lastUsed == Week then old(m.index) else (old(m.index) + 1) % |m.items|)
  {
    var c := cache.Contents();
    var monthStep: (nat, bool);
    var weekValue: nat;
    match c.lastUsed {
      case Week =>
        var v := w.Next();
        weekValue := v.value;
        monthStep := (m.PeekNext().value, false);
      case Month =>
        var step := m.CheckedNext();
        monthStep := step.value;
        weekValue := w.PeekNext().value;
      case Both =>
        var step := m.CheckedNext();
        var v := w.Next();
        monthStep, weekValue := step.value, v.value;
    }
    var s := BothNext(c, monthStep.0, monthStep.1, weekValue, daysInMonth);
    cache.Set(s.0);
    r := (cache.lastMonthDay, s.1);
  }

  /**
   * The carried step of `Days::next` with the weekday ring alone: it steps,
   * and its weekday, turned into a day, becomes the answer and the cache.
   */
  method StepWeek(w: CopyRing<nat>, cache: DayCache, daysInMonth: nat) returns (r: (nat, bool))
    requires FieldRing(w)
    modifies w, cache
    ensures FieldRing(w)
    ensures var weekValue := old(w.items[w.index]);
            r == WeekdayToMonthDay(weekValue, old(cache.lastWeekday), daysInMonth) &&
            cache.Contents() == Summary(r.0, weekValue, Week) &&
            w.index == (old(w.index) + 1) % |w.items|
  {
    var v := w.Next();
    var weekValue := v.value;
    var next := WeekdayToMonthDay(weekValue, cache.lastWeekday, daysInMonth);
    cache.Set(Summary(next.0, weekValue, Week));
    r := (cache.lastMonthDay, next.1);
  }

  /**
   * `Days::next`: without a carry nothing moves and the answer is the
   * cached day (the month-day ring's current day with that ring alone).
   * With a carry the month-day ring alone takes a checked step; the
   * weekday ring alone steps and its weekday becomes the cached day; with
   * both, the ring or rings the cache names step, and the answer and the
   * new cache are `BothNext`.
   */
  method Next(days: Days, carry: bool, month: nat, year: nat) returns (r: (nat, bool))
    requires days.Valid() && IsMonth(month)
    modifies days.Rings(), days.Caches()
    ensures days.Valid()
    ensures !carry ==> unchanged(days.Rings()) && unchanged(days.Caches())
    ensures !carry && !days.MonthOnly? ==> r == (old(days.cache.lastMonthDay), false)
    ensures days.MonthOnly? ==>
      r == (old(days.month.items[days.month.index]), carry && old(days.month.index) == 0 && old(days.month.init))
    ensures carry && days.WeekOnly? ==>
      var weekValue := old(days.week.items[days.week.index]);
      var w := WeekdayToMonthDay(weekValue, old(days.cache.lastWeekday), DaysInAMonth(month, year));
      r == w && days.cache.Contents() == Summary(w.0, weekValue, Week) &&
      days.week.index == (old(days.week.index) + 1) % |days.week.items|
    ensures carry && days.BothRings? ==>
      var c := old(days.cache.Contents());
      var s := BothNext(c, old(days.month.items[days.month.index]),
                        c.lastUsed != Week && old(days.month.index) == 0 && old(days.month.init),
                        old(days.week.items[days.week.index]), DaysInAMonth(month, year));
      r == (s.0.lastMonthDay, s.1) && days.cache.Contents() == s.0 &&
      days.week.index == (if c.lastUsed == Month then old(days.week.index) else (old(days.week.index) + 1) % |days.week.items|) &&
      days.month.index == (if c.lastUsed == Week then old(days.month.index) else (old(days.month.index) + 1) % |days.month.items|)
  {
    var dim := DaysInAMonth(month, year);
    match days
    case BothRings(m, w, cache) =>
      if !carry {
        return (cache.lastMonthDay, false);
      }
      r := StepBoth(m, w, cache, dim);
    case MonthOnly(m) =>
      if !carry {
        return (m.PeekNext().value, false);
      }
      var step := m.CheckedNext();
      r := step.value;
    case WeekOnly(w, cache) =>
      if !carry {
        return (cache.lastMonthDay, false);
      }
      r := StepWeek(w, cache, dim);
  }

  /** `Cache` of a `Date`: the last day, month and year answered. */
  datatype Cache = Cache(lastDay: nat, lastMonth: nat, lastYear: nat)

  /** `Date`: the day rings, the month ring, the year and the date cache. */
  class Date {
    const days: Days
    const months: CopyRing<nat>
    const year: nat
    const cache: Cache

    ghost predicate Valid()
      reads this, days.Rings(), months
    {
      days.Valid() && FieldRing(months) && months !in days.Rings()
    }

    constructor (days: Days, months: CopyRing<nat>, year: nat)
      ensures this.days == days && this.months == months && this.year == year
      ensures cache == Cache(0, 0, 0)
    {
      this.days := days;
      this.months := months;
      this.year := year;
      cache := Cache(0, 0, 0);
    }
  }

  /**
   * The outcome of `DateBuilder::build`: a missing year is one more
   * MissingField, checked after the day and month rings; past those, the
   * checks are the table's own.
   */
  function DateBuildErrorWithYear(daysMonth: Option<seq<nat>>, daysWeek: Option<seq<nat>>, months: Option<seq<nat>>,
                                  year: Option<nat>): (e: Option<TableFields.Error>)
    ensures year.Some? ==> e == TableFields.DateBuildError(daysMonth, daysWeek, months)
    ensures year.None? ==> e == Some(TableFields.MissingField)
  {
    if (daysMonth.None? && daysWeek.None?) || months.None? || year.None? then Some(TableFields.MissingField)
    else TableFields.DateBuildError(daysMonth, daysWeek, months)
  }

  /** The date half of this file's builder: the rings and the year given so far. */
  class DateBuilder {
    var daysWeek: Option<seq<nat>>
    var daysMonth: Option<seq<nat>>
    var months: Option<seq<nat>>
    var year: Option<nat>

    constructor ()
      ensures daysWeek.None? && daysMonth.None? && months.None? && year.None?
    {
      daysWeek, daysMonth, months, year := None, None, None, None;
    }

    method WithWeekdays(values: seq<nat>)
      modifies this
      ensures daysWeek == Some(values)
      ensures daysMonth == old(daysMonth) && months == old(months) && year == old(year)
    {
      daysWeek := Some(values);
    }

    method WithMonthDays(values: seq<nat>)
      modifies this
      ensures daysMonth == Some(values)
      ensures daysWeek == old(daysWeek) && months == old(months) && year == old(year)
    {
      daysMonth := Some(values);
    }

    method WithMonths(values: seq<nat>)
      modifies this
      ensures months == Some(values)
      ensures daysWeek == old(daysWeek) && daysMonth == old(daysMonth) && year == old(year)
    {
      months := Some(values);
    }

    method WithYear(y: nat)
      modifies this
      ensures year == Some(y)
      ensures daysWeek == old(daysWeek) && daysMonth == old(daysMonth) && months == old(months)
    {
      year := Some(y);
    }

    /**
     * `DateBuilder::build`: fails as `DateBuildErrorWithYear` says, and
     * otherwise yields a `Date` over fresh rings and fresh default caches,
     * with the year given.  The day rings are always taken out, the month
     * ring once a day ring was there, and the year once the month ring was.
     */
    method Build() returns (r: Result<Date, TableFields.Error>)
      modifies this
      ensures r.Err? <==> DateBuildErrorWithYear(old(daysMonth), old(daysWeek), old(months), old(year)).Some?
      ensures r.Err? ==> r.error == DateBuildErrorWithYear(old(daysMonth), old(daysWeek), old(months), old(year)).value
      ensures r.Ok? ==>
        var d := r.value;
        fresh(d) && fresh(d.months) && fresh(d.days.Rings()) && fresh(d.days.Caches()) && d.Valid() &&
        d.year == old(year).value && d.cache == Cache(0, 0, 0) && d.months.items == old(months).value &&
        (d.days.BothRings? || d.days.MonthOnly? <==> old(daysMonth).Some?) &&
        (d.days.BothRings? || d.days.WeekOnly? <==> old(daysWeek).Some?) &&
        (old(daysMonth).Some? ==> d.days.month.items == old(daysMonth).value) &&
        (old(daysWeek).Some? ==> d.days.week.items == old(daysWeek).value) &&
        (!d.days.MonthOnly? ==> d.days.cache.Contents() == Summary(0, 0, Week))
      ensures daysWeek.None? && daysMonth.None?
      ensures months == if old(daysMonth).None? && old(daysWeek).None? then old(months) else None
      ensures year == if (old(daysMonth).None? && old(daysWeek).None?) || old(months).None? then old(year) else None
    {
      var dm, dw := daysMonth, daysWeek;
      daysMonth, daysWeek := None, None;
      if dm.None? && dw.None? {
        return Err(TableFields.MissingField);
      }
      var mo := months;
      months := None;
      if mo.None? {
        return Err(TableFields.MissingField);
      }
      var y := year;
      year := None;
      if y.None? {
        return Err(TableFields.MissingField);
      }
      var ms := mo.value;
      if |ms| == 0 || (dm.Some? && |dm.value| == 0) || (dw.Some? && |dw.value| == 0) {
        return Err(TableFields.EmptyRing);
      }
      if ms[0] < 1 || TableFields.Last(ms) > 31 ||
         (dw.Some? && TableFields.Last(dw.value) >= 7) ||
         (dm.Some? && (dm.value[0] < 1 || TableFields.Last(dm.value) > 31)) {
        return Err(TableFields.OutOfRange);
      }
      var days: Days;
      if dm.Some? && dw.Some? {
        var mr := new CopyRing(dm.value);
        var wr := new CopyRing(dw.value);
        var c := new DayCache();
        days := BothRings(mr, wr, c);
      } else if dm.Some? {
        var mr := new CopyRing(dm.value);
        days := MonthOnly(mr);
      } else {
        var wr := new CopyRing(dw.value);
        var c := new DayCache();
        days := WeekOnly(wr, c);
      }
      var monthRing := new CopyRing(ms);
      var d := new Date(days, monthRing, y.value);
      r := Ok(d);
    }
  }
}
