/**
 * The field table of `cron/src/table.rs`: a builder that runs the time and
 * date builders and reports both of their failures, and the search for the
 * first date and time a table allows after a given moment.
 */
module Table {
  import opened Wrappers
  import opened Arith
  import opened Calendar
  import opened TableFields

  /** `BuildError`: the time side's error and the date side's error, each if it failed. */
  datatype BuildError = BuildError(time: Option<Error>, date: Option<Error>)

  /** How `Builder::build` combines the outcomes of the two halves. */
  function Combine<T, D>(time: Result<T, Error>, date: Result<D, Error>): (r: Result<(T, D), BuildError>)
  {
    match (time, date)
    case (Ok(t), Ok(d)) => Ok((t, d))
    case (Ok(_), Err(e)) => Err(BuildError(None, Some(e)))
    case (Err(e), Ok(_)) => Err(BuildError(Some(e), None))
    case (Err(e1), Err(e2)) => Err(BuildError(Some(e1), Some(e2)))
  }

  /**
   * The build succeeds exactly when both halves do; on failure each half's
   * error sits in its own slot, and a slot is empty exactly when that half
   * succeeded.
   */
  lemma CombineOutcome<T, D>(time: Result<T, Error>, date: Result<D, Error>)
    ensures Combine(time, date).Ok? <==> time.Ok? && date.Ok?
    ensures Combine(time, date).Ok? ==> Combine(time, date).value == (time.value, date.value)
    ensures Combine(time, date).Err? ==>
      (Combine(time, date).error.time.None? <==> time.Ok?) &&
      (Combine(time, date).error.date.None? <==> date.Ok?) &&
      (time.Err? ==> Combine(time, date).error.time == Some(time.error)) &&
      (date.Err? ==> Combine(time, date).error.date == Some(date.error))
  {
  }

  /** `FieldTable`: the time table and the date table, over rings of their own. */
  class FieldTable {
    const time: Time
    const date: Date

    ghost function TimeRings(): set<object>
    {
      {time.secs, time.mins, time.hours}
    }

    ghost function DateFrame(): set<object>
      reads date.days
    {
      {date, date.days, date.months.ring} + date.days.Rings()
    }

    ghost predicate Valid()
      reads this, time.secs, time.mins, time.hours, date, date.days, date.days.Rings(), date.months.ring
    {
      time.Valid() && date.Valid() && TimeRings() !! DateFrame()
    }

    constructor (time: Time, date: Date)
      requires time.Valid() && date.Valid()
      requires {time.secs, time.mins, time.hours} !! ({date, date.days, date.months.ring} + date.days.Rings())
      ensures this.time == time && this.date == date && Valid()
    {
      this.time := time;
      this.date := date;
    }

    /**
     * `FieldTable::after`: the first time at or after the moment's time,
     * then the first date from the moment's day, weekday (Sunday is 0),
     * month and year, given the time's carry.  Either search coming up
     * empty makes the whole answer empty; otherwise it is the date found
     * with the time found.
     */
    method After(sec: nat, min: nat, hour: nat, day: nat, weekday: nat, month: nat, year: nat)
      returns (r: Option<((nat, nat, nat), (nat, nat, nat))>)
      requires Valid() && forall v :: v in date.months.ring.items ==> IsMonth(v)
      requires IsMonth(month) && day <= DaysInAMonth(month, year) && year < U32_MODULUS
      modifies TimeRings(), DateFrame()
      ensures Valid()
      ensures var t := TimeAfter(time.secs.items, time.mins.items, time.hours.items, sec, min, hour);
              (t.None? ==> r.None?) &&
              (r.Some? ==> t.Some? && r.value.1 == t.value.0)
      ensures r.Some? ==>
        date.year == Some(r.value.0.0) && r.value.0.1 in date.months.ring.items &&
        FromYmd(r.value.0.0, r.value.0.1, r.value.0.2) == Some(r.value.0)
    {
      var t := time.FirstAfter(sec, min, hour);
      if t.None? {
        return None;
      }
      var d := date.FirstAfter(t.value.1, day, weekday, month, year);
      if d.None? {
        return None;
      }
      r := Some((d.value, t.value.0));
    }
  }

  /** `Builder`: a time builder and a date builder. */
  class Builder {
    const time: TimeBuilder
    const date: DateBuilder

    constructor ()
      ensures fresh(time) && fresh(date)
      ensures time.secs.None? && time.mins.None? && time.hours.None?
      ensures date.daysWeek.None? && date.daysMonth.None? && date.months.None?
    {
      time := new TimeBuilder();
      date := new DateBuilder();
    }

    /**
     * `Builder::build`: builds both halves, the time first, and succeeds
     * with a table over fresh rings only when both succeed; otherwise the
     * error carries each half's own failure.
     */
    method Build() returns (r: Result<FieldTable, BuildError>)
      modifies time, date
      ensures r.Ok? <==>
        TimeBuildError(old(time.secs), old(time.mins), old(time.hours)).None? &&
        DateBuildError(old(date.daysMonth), old(date.daysWeek), old(date.months)).None?
      ensures r.Err? ==>
        r.error.time == TimeBuildError(old(time.secs), old(time.mins), old(time.hours)) &&
        r.error.date == DateBuildError(old(date.daysMonth), old(date.daysWeek), old(date.months))
      ensures r.Ok? ==> fresh(r.value) && r.value.Valid()
    {
      var t := time.Build();
      var d := date.Build();
      CombineOutcome(t, d);
      var c := Combine(t, d);
      if c.Ok? {
        var table := new FieldTable(c.value.0, c.value.1);
        r := Ok(table);
      } else {
        r := Err(c.error);
      }
    }
  }
}
