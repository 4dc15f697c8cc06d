/**
 * The time and date tables of `cron/src/table/fields.rs`: `Time` resolves
 * seconds, minutes and hours in turn, `Date` searches month by month for a
 * day, and the two builders check the rings they are given.
 */
module TableFields {
  import opened Wrappers
  import opened Arith
  import opened Ring
  import opened Calendar
  import opened CronField
  import opened TableTime
  import opened TableDate

  /** Why a build failed (`cron/src/table.rs`, `Error`). */
  datatype Error = MissingField | EmptyRing | OutOfRange

  /** `NaiveTime::from_hms_opt`: an hour below 24 and a minute and second below 60. */
  function FromHms(hour: nat, min: nat, sec: nat): (t: Option<(nat, nat, nat)>)
    ensures t.Some? <==> hour < 24 && min < 60 && sec < 60
    ensures t.Some? ==> t.value == (hour, min, sec)
  {
    if hour < 24 && min < 60 && sec < 60 then Some((hour, min, sec)) else None
  }

  /** The largest year a calendar date can hold. */
  const MAX_YEAR: nat := 262143

  /** `NaiveDate::from_ymd_opt`, for years from 0 on: a month of the year and a day within it. */
  function FromYmd(year: nat, month: nat, day: nat): (d: Option<(nat, nat, nat)>)
    ensures d.Some? <==> year <= MAX_YEAR && IsMonth(month) && 1 <= day <= DaysInAMonth(month, year)
    ensures d.Some? ==> d.value == (year, month, day)
  {
    if year <= MAX_YEAR && IsMonth(month) && 1 <= day <= DaysInAMonth(month, year) then Some((year, month, day)) else None
  }

  /**
   * What `Time::first_after` yields for rings over the given values: the
   * second found with no carry, the minute with the seconds' carry, the hour
   * with the minutes' carry, and the hours' carry as the flag.
   */
  function TimeAfter(secs: seq<nat>, mins: seq<nat>, hours: seq<nat>, sec: nat, min: nat, hour: nat)
    : (r: Option<((nat, nat, nat), bool)>)
    requires |secs| > 0 && |mins| > 0 && |hours| > 0
  {
    var s := FieldAfter(secs, false, sec);
    var m := FieldAfter(mins, s.1, min);
    var h := FieldAfter(hours, m.1, hour);
    var t := FromHms(h.0, m.0, s.0);
    if t.Some? then Some((t.value, h.1)) else None
  }

  /**
   * Every part of the found time is a value of its ring; with rings inside
   * the clock's bounds there always is one, and the flag is the carry out of
   * the hours.
   */
  lemma TimeAfterParts(secs: seq<nat>, mins: seq<nat>, hours: seq<nat>, sec: nat, min: nat, hour: nat)
    requires |secs| > 0 && |mins| > 0 && |hours| > 0
    ensures var r := TimeAfter(secs, mins, hours, sec, min, hour);
            (r.Some? ==> r.value.0.0 in hours && r.value.0.1 in mins && r.value.0.2 in secs) &&
            (((forall v :: v in secs ==> v < 60) && (forall v :: v in mins ==> v < 60) &&
              (forall v :: v in hours ==> v < 24)) ==> r.Some?)
    ensures var r := TimeAfter(secs, mins, hours, sec, min, hour);
            var s := FieldAfter(secs, false, sec);
            var m := FieldAfter(mins, s.1, min);
            r.Some? ==> r.value.1 == FieldAfter(hours, m.1, hour).1
  {
  }

  /** `Time`: one ring per time field. */
  class Time {
    const secs: CopyRing<nat>
    const mins: CopyRing<nat>
    const hours: CopyRing<nat>

    ghost predicate Valid()
      reads secs, mins, hours
    {
      FieldRing(secs) && FieldRing(mins) && FieldRing(hours) &&
      secs != mins && mins != hours && secs != hours
    }

    constructor (secs: CopyRing<nat>, mins: CopyRing<nat>, hours: CopyRing<nat>)
      requires FieldRing(secs) && FieldRing(mins) && FieldRing(hours)
      requires secs != mins && mins != hours && secs != hours
      ensures this.secs == secs && this.mins == mins && this.hours == hours && Valid()
    {
      this.secs := secs;
      this.mins := mins;
      this.hours := hours;
    }

    /** `Time::first_after`: each field's `after`, feeding every carry to the field above. */
    method FirstAfter(sec: nat, min: nat, hour: nat) returns (r: Option<((nat, nat, nat), bool)>)
      requires Valid()
      modifies secs, mins, hours
      ensures Valid()
      ensures r == TimeAfter(secs.items, mins.items, hours.items, sec, min, hour)
    {
      var s := SecondsAfter(secs, sec);
      var m := MinutesAfter(mins, min, s.1);
      var h := HoursAfter(hours, hour, m.1);
      var t := FromHms(h.0, m.0, s.0);
      r := if t.Some? then Some((t.value, h.1)) else None;
    }
  }

  /**
   * The outcome of `TimeBuilder::build` for the rings it holds: a missing
   * ring first, then an empty one, then a last value out of range.
   */
  function TimeBuildError(secs: Option<seq<nat>>, mins: Option<seq<nat>>, hours: Option<seq<nat>>): (e: Option<Error>)
  {
    if secs.None? || mins.None? || hours.None? then Some(MissingField)
    else if |secs.value| == 0 || |mins.value| == 0 || |hours.value| == 0 then Some(EmptyRing)
    else if Last(secs.value) >= 60 || Last(mins.value) >= 60 || Last(hours.value) >= 24 then Some(OutOfRange)
    else None
  }

  function Last(s: seq<nat>): nat
    requires |s| > 0
  {
    s[|s| - 1]
  }

  lemma TimeBuildErrorCases(secs: Option<seq<nat>>, mins: Option<seq<nat>>, hours: Option<seq<nat>>)
    ensures TimeBuildError(secs, mins, hours) == Some(MissingField) <==> secs.None? || mins.None? || hours.None?
    ensures TimeBuildError(secs, mins, hours) == Some(EmptyRing) <==>
      secs.Some? && mins.Some? && hours.Some? && (|secs.value| == 0 || |mins.value| == 0 || |hours.value| == 0)
    ensures TimeBuildError(secs, mins, hours).None? <==>
      secs.Some? && mins.Some? && hours.Some? && |secs.value| > 0 && |mins.value| > 0 && |hours.value| > 0 &&
      secs.value[|secs.value| - 1] < 60 && mins.value[|mins.value| - 1] < 60 && hours.value[|hours.value| - 1] < 24
  {
  }

  /** The time half of the builder: the rings given so far. */
  class TimeBuilder {
    var secs: Option<seq<nat>>
    var mins: Option<seq<nat>>
    var hours: Option<seq<nat>>

    constructor ()
      ensures secs.None? && mins.None? && hours.None?
    {
      secs, mins, hours := None, None, None;
    }

    method WithSecs(values: seq<nat>)
      modifies this
      ensures secs == Some(values) && mins == old(mins) && hours == old(hours)
    {
      secs := Some(values);
    }

    method WithMins(values: seq<nat>)
      modifies this
      ensures mins == Some(values) && secs == old(secs) && hours == old(hours)
    {
      mins := Some(values);
    }

    method WithHours(values: seq<nat>)
      modifies this
      ensures hours == Some(values) && secs == old(secs) && mins == old(mins)
    {
      hours := Some(values);
    }

    /**
     * `TimeBuilder::build`: fails as `TimeBuildError` says, and otherwise
     * yields a `Time` over fresh rings.  A missing ring fails before any ring
     * is taken; past that point every ring has been taken out.
     */
    method Build() returns (r: Result<Time, Error>)
      modifies this
      ensures r.Err? <==> TimeBuildError(old(secs), old(mins), old(hours)).Some?
      ensures r.Err? ==> r.error == TimeBuildError(old(secs), old(mins), old(hours)).value
      ensures r.Ok? ==>
        fresh(r.value.secs) && fresh(r.value.mins) && fresh(r.value.hours) && r.value.Valid() &&
        r.value.secs.items == old(secs).value && r.value.mins.items == old(mins).value &&
        r.value.hours.items == old(hours).value
      ensures TimeBuildError(old(secs), old(mins), old(hours)) == Some(MissingField) ==>
        secs == old(secs) && mins == old(mins) && hours == old(hours)
      ensures TimeBuildError(old(secs), old(mins), old(hours)) != Some(MissingField) ==>
        secs.None? && mins.None? && hours.None?
    {
      if secs.None? || mins.None? || hours.None? {
        return Err(MissingField);
      }
      var s, m, h := secs.value, mins.value, hours.value;
      secs, mins, hours := None, None, None;
      if |s| == 0 || |m| == 0 || |h| == 0 {
        return Err(EmptyRing);
      }
      if Last(s) >= 60 || Last(m) >= 60 || Last(h) >= 24 {
        return Err(OutOfRange);
      }
      var sr := new CopyRing(s);
      var mr := new CopyRing(m);
      var hr := new CopyRing(h);
      var t := new Time(sr, mr, hr);
      r := Ok(t);
    }
  }

  /**
   * The outcome of `DateBuilder::build`: no day ring, or no month ring, is
   * MissingField; then an empty ring is EmptyRing; then a month ring whose
   * first value is below 1 or whose last is above 31, a month-day ring
   * outside 1 to 31, or a weekday ring whose last value is 7 or more, is
   * OutOfRange.
   */
  function DateBuildError(daysMonth: Option<seq<nat>>, daysWeek: Option<seq<nat>>, months: Option<seq<nat>>): (e: Option<Error>)
  {
    if daysMonth.None? && daysWeek.None? then Some(MissingField)
    else if months.None? then Some(MissingField)
    else
      var mo := months.value;
      if |mo| == 0 || Any(Response(OptionMap(daysMonth, IsEmptySeq), OptionMap(daysWeek, IsEmptySeq))) then Some(EmptyRing)
      else if mo[0] < 1 || Last(mo) > 31 ||
              Any(Response(OptionMap(daysMonth, MonthDaysOutOfRange), OptionMap(daysWeek, WeekdaysOutOfRange)))
      then Some(OutOfRange)
      else None
  }

  predicate IsEmptySeq(s: seq<nat>)
  {
    |s| == 0
  }

  predicate MonthDaysOutOfRange(s: seq<nat>)
  {
    |s| > 0 && (s[0] < 1 || Last(s) > 31)
  }

  predicate WeekdaysOutOfRange(s: seq<nat>)
  {
    |s| > 0 && Last(s) >= 7
  }

  lemma DateBuildErrorCases(daysMonth: Option<seq<nat>>, daysWeek: Option<seq<nat>>, months: Option<seq<nat>>)
    ensures DateBuildError(daysMonth, daysWeek, months) == Some(MissingField) <==>
      (daysMonth.None? && daysWeek.None?) || months.None?
    ensures DateBuildError(daysMonth, daysWeek, months) == Some(EmptyRing) <==>
      (daysMonth.Some? || daysWeek.Some?) && months.Some? &&
      (|months.value| == 0 || (daysMonth.Some? && |daysMonth.value| == 0) || (daysWeek.Some? && |daysWeek.value| == 0))
    ensures DateBuildError(daysMonth, daysWeek, months).None? <==>
      (daysMonth.Some? || daysWeek.Some?) && months.Some? && |months.value| > 0 &&
      1 <= months.value[0] && months.value[|months.value| - 1] <= 31 &&
      (daysMonth.Some? ==> |daysMonth.value| > 0 && 1 <= daysMonth.value[0] && daysMonth.value[|daysMonth.value| - 1] <= 31) &&
      (daysWeek.Some? ==> |daysWeek.value| > 0 && daysWeek.value[|daysWeek.value| - 1] < 7)
  {
  }

  /** The date half of the builder: the rings given so far. */
  class DateBuilder {
    var daysWeek: Option<seq<nat>>
    var daysMonth: Option<seq<nat>>
    var months: Option<seq<nat>>

    constructor ()
      ensures daysWeek.None? && daysMonth.None? && months.None?
    {
      daysWeek, daysMonth, months := None, None, None;
    }

    method WithDaysWeek(values: seq<nat>)
      modifies this
      ensures daysWeek == Some(values) && daysMonth == old(daysMonth) && months == old(months)
    {
      daysWeek := Some(values);
    }

    method WithDaysMonth(values: seq<nat>)
      modifies this
      ensures daysMonth == Some(values) && daysWeek == old(daysWeek) && months == old(months)
    {
      daysMonth := Some(values);
    }

    method WithMonths(values: seq<nat>)
      modifies this
      ensures months == Some(values) && daysWeek == old(daysWeek) && daysMonth == old(daysMonth)
    {
      months := Some(values);
    }

    /**
     * `DateBuilder::build`: fails as `DateBuildError` says, and otherwise
     * yields a `Date` over fresh rings, with the day rings the builder had
     * and no year.  The day rings are always taken out; the month ring too,
     * unless there was no day ring at all.
     */
    method Build() returns (r: Result<Date, Error>)
      modifies this
      ensures r.Err? <==> DateBuildError(old(daysMonth), old(daysWeek), old(months)).Some?
      ensures r.Err? ==> r.error == DateBuildError(old(daysMonth), old(daysWeek), old(months)).value
      ensures r.Ok? ==>
        var d := r.value;
        fresh(d) && fresh(d.days) && fresh(d.months) && fresh(d.months.ring) && fresh(d.days.Rings()) &&
        d.Valid() && d.year.None? && d.months.ring.items == old(months).value &&
        (d.days.inner.HasMonth() <==> old(daysMonth).Some?) &&
        (d.days.inner.HasWeek() <==> old(daysWeek).Some?) &&
        (old(daysMonth).Some? ==> d.days.inner.monthRing.items == old(daysMonth).value) &&
        (old(daysWeek).Some? ==> d.days.inner.weekRing.items == old(daysWeek).value)
      ensures daysWeek.None? && daysMonth.None?
      ensures months == if old(daysMonth).None? && old(daysWeek).None? then old(months) else None
    {
      var dm, dw := daysMonth, daysWeek;
      daysMonth, daysWeek := None, None;
      if dm.None? && dw.None? {
        return Err(MissingField);
      }
      if months.None? {
        return Err(MissingField);
      }
      var mo := months.value;
      months := None;
      if |mo| == 0 || Any(Response(OptionMap(dm, IsEmptySeq), OptionMap(dw, IsEmptySeq))) {
        return Err(EmptyRing);
      }
      if mo[0] < 1 || Last(mo) > 31 ||
         Any(Response(OptionMap(dm, MonthDaysOutOfRange), OptionMap(dw, WeekdaysOutOfRange))) {
        return Err(OutOfRange);
      }
      var inner: DaysInner;
      if dm.Some? && dw.Some? {
        var mr := new CopyRing(dm.value);
        var wr := new CopyRing(dw.value);
        inner := BothRings(mr, wr);
      } else if dm.Some? {
        var mr := new CopyRing(dm.value);
        inner := MonthOnly(mr);
      } else {
        var wr := new CopyRing(dw.value);
        inner := WeekOnly(wr);
      }
      var days := new Days(inner);
      var monthRing := new CopyRing(mo);
      var ms := new Months(monthRing);
      var date := new Date(days, ms);
      r := Ok(date);
    }
  }

  /** A month as a running index: January of year 0 is 0, each later month one more. */
  function MonthIndex(year: nat, month: nat): nat
    requires IsMonth(month)
  {
    12 * year + month - 1
  }

  /**
   * `calc_months_passed_exclusive` as written, in 32-bit release
   * arithmetic: the month before the end back to the month after the start,
   * minus one, and zero when that would be negative.
   */
  function CalcMonthsPassedExclusive(year: nat, month: nat, startYear: nat, startMonth: nat): (k: nat)
    ensures k < U32_MODULUS
  {
    var endYear := if month >= 2 then year else U32(year - 1);
    var endMonth := if month >= 2 then month - 1 else 12;
    var fromYear := if startMonth + 1 > 12 then U32(startYear + 1) else startYear;
    var fromMonth := if startMonth + 1 > 12 then 1 else startMonth + 1;
    if endYear < fromYear then 0
    else
      var total := U32(endMonth + U32(12 * (endYear - fromYear)));
      if total >= fromMonth then total - fromMonth else 0
  }

  /**
   * For real dates the count is two less than the distance between the
   * months, and zero when they are the same or one apart: one less than the
   * number of months strictly between them.
   */
  lemma CalcMonthsPassedExclusiveValue(year: nat, month: nat, startYear: nat, startMonth: nat)
    requires IsMonth(month) && IsMonth(startMonth) && 1 <= year <= MAX_YEAR && startYear <= MAX_YEAR
    ensures var e, s := MonthIndex(year, month), MonthIndex(startYear, startMonth);
            CalcMonthsPassedExclusive(year, month, startYear, startMonth) == if e >= s + 2 then e - s - 2 else 0
  {
    var endYear := if month >= 2 then year else year - 1;
    var fromYear := if startMonth + 1 > 12 then startYear + 1 else startYear;
    if endYear >= fromYear {
      assert 12 * (endYear - fromYear) <= 12 * MAX_YEAR;
    }
  }

  /** The number of months strictly between the start month and a later one. */
  function MonthsStrictlyBetween(year: nat, month: nat, startYear: nat, startMonth: nat): (k: nat)
    requires IsMonth(month) && IsMonth(startMonth)
    ensures MonthIndex(startYear, startMonth) < MonthIndex(year, month) ==>
      MonthIndex(startYear, startMonth) + k + 1 == MonthIndex(year, month)
    ensures MonthIndex(year, month) <= MonthIndex(startYear, startMonth) ==> k == 0
  {
    var e, s := MonthIndex(year, month), MonthIndex(startYear, startMonth);
    if e > s then e - s - 1 else 0
  }

  /** The length of the month with running index `i`. */
  function MonthLength(i: nat): (d: nat)
    ensures 28 <= d <= 31
  {
    DaysInAMonth(i % 12 + 1, i / 12)
  }

  /** The days in `count` consecutive months from the month with running index `i`. */
  function MonthRunDays(i: nat, count: nat): nat
    decreases count
  {
    if count == 0 then 0 else MonthLength(i) + MonthRunDays(i + 1, count - 1)
  }

  function DaysBeforeYear(year: nat): nat
  {
    if year == 0 then 0 else DaysBeforeYear(year - 1) + SumDays(year - 1, 12)
  }

  /** The day number (counted from 1 January of year 0) of the first of month `i`. */
  function MonthStart(i: nat): nat
  {
    DaysBeforeYear(i / 12) + SumDays(i / 12, i % 12)
  }

  /** The day number of a date, 1 January of year 0 being day 0. */
  function DayNumber(year: nat, month: nat, day: nat): int
    requires IsMonth(month)
  {
    MonthStart(MonthIndex(year, month)) + day - 1
  }

  /** The next month starts as many days later as this month is long, December to January included. */
  lemma MonthStartStep(i: nat)
    ensures MonthStart(i + 1) == MonthStart(i) + MonthLength(i)
  {
    var q, r := i / 12, i % 12;
    if r < 11 {
      ModUnique(i + 1, 12, q, r + 1);
      assert (i + 1) / 12 == q;
    } else {
      ModUnique(i + 1, 12, q + 1, 0);
      assert (i + 1) / 12 == q + 1;
    }
  }

  lemma {:induction false} MonthRunDaysSpan(i: nat, count: nat)
    ensures MonthRunDays(i, count) == MonthStart(i + count) - MonthStart(i)
    decreases count
  {
    if count > 0 {
      MonthRunDaysSpan(i + 1, count - 1);
      MonthStartStep(i);
    }
  }

  /**
   * The number of days from the starting date to the first of the given
   * month: the rest of the starting month and every month strictly between.
   */
  function DaysUntilMonthStart(year: nat, month: nat, startYear: nat, startMonth: nat, startDay: nat): nat
    requires IsMonth(month) && IsMonth(startMonth) && startDay <= DaysInAMonth(startMonth, startYear)
  {
    DaysInAMonth(startMonth, startYear) - startDay + 1 +
    MonthRunDays(MonthIndex(startYear, startMonth) + 1, MonthsStrictlyBetween(year, month, startYear, startMonth))
  }

  /** For a later month, that count is the distance between the two day numbers. */
  lemma DaysUntilMonthStartIsDistance(year: nat, month: nat, startYear: nat, startMonth: nat, startDay: nat)
    requires IsMonth(month) && IsMonth(startMonth) && startDay <= DaysInAMonth(startMonth, startYear)
    requires MonthIndex(startYear, startMonth) < MonthIndex(year, month)
    ensures DaysUntilMonthStart(year, month, startYear, startMonth, startDay)
            == DayNumber(year, month, 1) - DayNumber(startYear, startMonth, startDay)
  {
    var s, e := MonthIndex(startYear, startMonth), MonthIndex(year, month);
    MonthRunDaysSpan(s + 1, e - s - 1);
    MonthStartStep(s);
    ModUnique(s, 12, startYear, startMonth - 1);
    assert s / 12 == startYear;
  }

  /** The number of leap years from `from` up to, not including, `to`. */
  function LeapYearsBetween(from: nat, to: nat): (c: nat)
    ensures c <= (if to > from then to - from else 0)
    decreases if from >= to then 0 else to - from
  {
    if from >= to then 0 else BoolToNat(IsLeapYear(from)) + LeapYearsBetween(from + 1, to)
  }

  function SumOf(s: seq<nat>): nat
  {
    if |s| == 0 then 0 else s[0] + SumOf(s[1..])
  }

  /**
   * The day count to the first of the new month as `Date::first_after`
   * writes it: `calc_months_passed_exclusive` months of common-year lengths
   * after the starting month, the leap years strictly between the two
   * years, and the rest of the starting month, in 8- and 32-bit release
   * arithmetic.
   */
  function DaysUntilAsWritten(year: nat, month: nat, startYear: nat, startMonth: nat, startDay: nat): (d: nat)
    requires IsMonth(startMonth)
    ensures d < U32_MODULUS
  {
    var passed := CalcMonthsPassedExclusive(year, month, startYear, startMonth);
    var sumDays := U32(SumOf(Window(MONTH_TO_DAYS_NO_LEAP, startMonth % 12, 1, passed)));
    var leapDays := LeapYearsBetween(U32(startYear + 1), year);
    var firstMonthDays :=
      U8(MONTH_TO_DAYS_NO_LEAP[startMonth - 1] + (if IsLeapYear(startYear) && startMonth == 2 then 1 else 0) - startDay + 1);
    U32(sumDays + leapDays + firstMonthDays)
  }

  /**
   * From 15 January 2024 the code counts 17 days to 1 March 2024: it skips
   * February, which `calc_months_passed_exclusive` does not count, and with
   * it the leap day.  The right count is 46.
   */
  lemma DaysUntilAsWrittenShort()
    ensures CalcMonthsPassedExclusive(2024, 3, 2024, 1) == 0 && MonthsStrictlyBetween(2024, 3, 2024, 1) == 1
    ensures DaysUntilAsWritten(2024, 3, 2024, 1, 15) == 17
    ensures DaysUntilMonthStart(2024, 3, 2024, 1, 15) == 46
  {
    assert MonthLength(MonthIndex(2024, 1) + 1) == DaysInAMonth(2, 2024) == 29;
  }

  /**
   * 15 January 2024 is a Monday (weekday 1) and 1 March 2024 a Friday
   * (weekday 5).  Stepped by the code's count the search of March starts on
   * a Thursday; stepped by the distance it starts on the Friday.
   */
  lemma MarchSearchStartsOnWrongWeekday()
    ensures NextWeekdayFromLast(1, DaysUntilAsWritten(2024, 3, 2024, 1, 15)) == 4
    ensures NextWeekdayFromLast(1, DaysUntilMonthStart(2024, 3, 2024, 1, 15)) == 5
  {
    DaysUntilAsWrittenShort();
  }

  /** `Date`: the day rings, the month ring, and the year once a search has set it. */
  class Date {
    const days: Days
    const months: Months
    var year: Option<nat>

    ghost predicate Valid()
      reads this, days, days.Rings(), months.ring
    {
      days.Valid() && FieldRing(months.ring) && months.ring !in days.Rings() &&
      (year.Some? ==> year.value < U32_MODULUS)
    }

    constructor (days: Days, months: Months)
      requires days.Valid() && FieldRing(months.ring) && months.ring !in days.Rings()
      ensures this.days == days && this.months == months && year.None? && Valid()
    {
      this.days := days;
      this.months := months;
      year := None;
    }

    /**
     * `at_year_limit`: no limit while the year is unset; otherwise whether
     * it is four or more past the start, the difference taken in 32 bits.
     */
    predicate AtYearLimit(startYear: nat)
      reads this
    {
      year.Some? && U32(year.value - startYear) >= 4
    }

    /** How many more year carries the search may take before it reaches the limit. */
    ghost function Budget(startYear: nat): nat
      reads this
    {
      if year.None? then 5
      else if U32(year.value - startYear) < 4 then 4 - U32(year.value - startYear)
      else 0
    }

    /** How many more steps the month ring takes before it wraps. */
    ghost function Dist(): nat
      reads months.ring
      requires FieldRing(months.ring)
    {
      if months.ring.index == 0 then 0 else |months.ring.items| - months.ring.index
    }

    /**
     * Step 1a of one round of `Date::first_after`: the month ring's search
     * on the first round and its carried step afterwards.
     */
    method StepRing(firstRun: bool, startMonth: nat) returns (month: nat, yearOverflow: bool)
      requires FieldRing(months.ring)
      requires !firstRun ==> months.ring.init
      modifies months.ring
      ensures FieldRing(months.ring) && months.ring.init && month in months.ring.items
      ensures firstRun ==> (month, yearOverflow) == FieldAfter(months.ring.items, false, startMonth)
      ensures !firstRun ==>
        (month, yearOverflow) == (months.ring.items[old(months.ring.index)], old(months.ring.index) == 0) &&
        months.ring.index == (old(months.ring.index) + 1) % |months.ring.items|
      ensures !firstRun && !yearOverflow ==> Dist() < old(Dist())
    {
      var step: (nat, bool);
      if firstRun {
        step := months.FirstAfter(startMonth);
      } else {
        step := months.Next();
      }
      month, yearOverflow := step.0, step.1;
    }

    /**
     * Step 1b of one round of `Date::first_after`: a wrap of the month ring
     * adds one to the year, which is set to the starting year the first time.
     */
    method CarryYear(yearOverflow: bool, startYear: nat)
      requires startYear < U32_MODULUS && !AtYearLimit(startYear)
      modifies this`year
      ensures year == Some(U32((if old(year).Some? then old(year).value else startYear) + BoolToNat(yearOverflow)))
      ensures U32(year.value - startYear) <= 4
      ensures old(year).None? || yearOverflow ==> Budget(startYear) < old(Budget(startYear))
      ensures Budget(startYear) <= old(Budget(startYear))
    {
      ghost var before := year;
      if year.Some? {
        year := Some(U32(year.value + BoolToNat(yearOverflow)));
      } else {
        year := Some(U32(startYear + BoolToNat(yearOverflow)));
      }
      YearStep(if before.Some? then before.value else startYear, startYear, BoolToNat(yearOverflow));
    }

    /** Step 1 of one round of `Date::first_after`: the month ring's step and the year's carry. */
    method StepMonth(firstRun: bool, startMonth: nat, startYear: nat) returns (month: nat, yearOverflow: bool)
      requires Valid() && startYear < U32_MODULUS
      requires !firstRun ==> months.ring.init
      requires !AtYearLimit(startYear) && (year.None? ==> firstRun)
      modifies this, months.ring
      ensures Valid() && months.ring.init && month in months.ring.items && year.Some?
      ensures U32(year.value - startYear) <= 4
      ensures Budget(startYear) < old(Budget(startYear)) ||
              (Budget(startYear) == old(Budget(startYear)) && (firstRun || Dist() < old(Dist())))
      ensures firstRun ==> (month, yearOverflow) == FieldAfter(months.ring.items, false, startMonth)
      ensures !firstRun ==>
        (month, yearOverflow) == (months.ring.items[old(months.ring.index)], old(months.ring.index) == 0) &&
        months.ring.index == (old(months.ring.index) + 1) % |months.ring.items|
      ensures year == Some(U32((if old(year).Some? then old(year).value else startYear) + BoolToNat(yearOverflow)))
    {
      month, yearOverflow := StepRing(firstRun, startMonth);
      CarryYear(yearOverflow, startYear);
    }

    /**
     * Steps 2 and 3 of one round of `Date::first_after`: in a month other
     * than the starting one the day search starts on the first, on the
     * weekday the code's day count (`DaysUntilAsWritten`) leads to from the
     * starting weekday, and the time's carry is dropped for good; then the
     * day rings are searched in that month.
     */
    method SearchMonth(timeOverflow: bool, daysMonth: nat, daysWeek: nat, month: nat, year: nat, startMonth: nat, startYear: nat)
      returns (next: Option<nat>, overflow: bool)
      requires days.Valid() && IsMonth(month) && IsMonth(startMonth) && daysMonth <= DaysInAMonth(startMonth, startYear)
      modifies days, days.Rings()
      ensures days.Valid()
      ensures next.Some? ==> next.value <= DaysInAMonth(month, year)
      ensures overflow == (timeOverflow && month == startMonth && year == startYear)
    {
      var newDaysMonth, newDaysWeek := daysMonth, daysWeek;
      overflow := timeOverflow;
      if month != startMonth || year != startYear {
        newDaysWeek := NextWeekdayFromLast(daysWeek, DaysUntilAsWritten(year, month, startYear, startMonth, daysMonth));
        newDaysMonth := 1;
        overflow := false;
      }
      next := days.FirstAfter(overflow, newDaysMonth, newDaysWeek, month, year);
    }

    /**
     * One round of the loop of `Date::first_after`: steps the month ring
     * and searches the day rings in the month it lands on.  Each round
     * either spends a year of the budget or, past the first round, brings
     * the month ring closer to its wrap.
     */
    method Round(firstRun: bool, timeOverflow: bool, daysMonth: nat, daysWeek: nat, startMonth: nat, startYear: nat)
      returns (month: nat, next: Option<nat>, overflow: bool)
      requires Valid() && !AtYearLimit(startYear) && (year.None? ==> firstRun)
      requires !firstRun ==> months.ring.init
      requires IsMonth(startMonth) && daysMonth <= DaysInAMonth(startMonth, startYear) && startYear < U32_MODULUS
      requires forall v :: v in months.ring.items ==> IsMonth(v)
      modifies this, days, days.Rings(), months.ring
      ensures Valid() && months.ring.init && year.Some? && month in months.ring.items
      ensures U32(year.value - startYear) <= 4
      ensures Budget(startYear) < old(Budget(startYear)) ||
              (Budget(startYear) == old(Budget(startYear)) && (firstRun || Dist() < old(Dist())))
      ensures next.Some? ==> next.value <= DaysInAMonth(month, year.value)
    {
      var yearOverflow;
      month, yearOverflow := StepMonth(firstRun, startMonth, startYear);
      ghost var budget, dist := Budget(startYear), Dist();
      next, overflow := SearchMonth(timeOverflow, daysMonth, daysWeek, month, year.value, startMonth, startYear);
      assert Budget(startYear) == budget && Dist() == dist;
    }

    /**
     * `Date::first_after`: from the starting month on, month by month,
     * looks for a day of the day rings, until one is found or the year is
     * four past the start.  In a month other than the starting one the
     * search starts on its first, at the weekday the days in between lead
     * to, and without the time's carry.  The result is the date found, if
     * it is a calendar date.
     */
    method FirstAfter(timeOverflow: bool, daysMonth: nat, daysWeek: nat, startMonth: nat, startYear: nat)
      returns (r: Option<(nat, nat, nat)>)
      requires Valid() && forall v :: v in months.ring.items ==> IsMonth(v)
      requires IsMonth(startMonth) && daysMonth <= DaysInAMonth(startMonth, startYear) && startYear < U32_MODULUS
      modifies this, days, days.Rings(), months.ring
      ensures Valid()
      ensures r.Some? ==>
        year == Some(r.value.0) && r.value.1 in months.ring.items && FromYmd(r.value.0, r.value.1, r.value.2) == r
      ensures old(year).None? ==> year.Some? && U32(year.value - startYear) <= 4
    {
      months.Reset();
      var found := false;
      var firstRun := true;
      var overflow := timeOverflow;
      var result: Option<(nat, nat, nat)> := None;
      while !found && !AtYearLimit(startYear)
        invariant Valid()
        invariant !firstRun ==> months.ring.init
        invariant year.None? ==> firstRun && !found && old(year).None?
        invariant found <==> result.Some?
        invariant found ==> year == Some(result.value.0) && result.value.1 in months.ring.items
        invariant old(year).None? && year.Some? ==> U32(year.value - startYear) <= 4
        decreases if found then 0 else 1, Budget(startYear), if firstRun then 1 else 0, Dist()
      {
        var month, next;
        month, next, overflow := Round(firstRun, overflow, daysMonth, daysWeek, startMonth, startYear);
        if next.Some? {
          result := Some((year.value, month, next.value));
          found := true;
        } else {
          firstRun := false;
        }
      }
      r := if result.Some? then FromYmd(result.value.0, result.value.1, result.value.2) else None;
    }
  }

  /** One year carry moves a year that is less than four past the start one further past it. */
  lemma YearStep(year: int, startYear: int, carry: nat)
    requires carry <= 1 && (year == startYear || U32(year - startYear) < 4)
    ensures U32(U32(year + carry) - startYear) == (if year == startYear then 0 else U32(year - startYear)) + carry
  {
    var a, d := U32(year + carry), U32(year - startYear);
    var k1, k2 := (year + carry - a) / U32_MODULUS, (year - startYear - d) / U32_MODULUS;
    assert year + carry - a == k1 * U32_MODULUS;
    assert year - startYear - d == k2 * U32_MODULUS;
    assert a - startYear == (k2 - k1) * U32_MODULUS + (d + carry);
    ModUnique(a - startYear, U32_MODULUS, k2 - k1, d + carry);
  }
}
