/**
 * The date fields of `cron/src/table/fields/date.rs`: the day rings (days
 * of the month, days of the week, or both) with the weekday ring's cache,
 * the `Response`/`TryMerge` pair that carries one result per day ring, and
 * the month ring.
 */
module TableDate {
  import opened Wrappers
  import opened Arith
  import opened Ring
  import opened Calendar
  import opened CronField

  /** Which day ring supplied the last day. */
  datatype LastUsed = Week | Month | Both

  /** What the weekday ring remembers of the last day it produced. */
  datatype DayCache = DayCache(monthDay: nat, weekday: nat, month: nat, year: nat, last: LastUsed)

  /** One optional result per day ring: the month-day ring's and the weekday ring's. */
  datatype Response<M, W> = Response(month: Option<M>, week: Option<W>)

  /** Either both results merged into one, or the response left as it was. */
  type TryMerge<B, T> = Result<B, Response<T, T>>

  function OptionMap<A, B>(o: Option<A>, f: A -> B): (r: Option<B>)
    ensures r.Some? <==> o.Some?
    ensures o.Some? ==> r.value == f(o.value)
  {
    match o
    case None => None
    case Some(a) => Some(f(a))
  }

  /** `Response::map`: each present result goes through its own function. */
  function MapResponse<M, W, T, U>(r: Response<M, W>, monthFn: M -> T, weekFn: W -> U): (s: Response<T, U>)
    ensures s.month == OptionMap(r.month, monthFn) && s.week == OptionMap(r.week, weekFn)
  {
    Response(OptionMap(r.month, monthFn), OptionMap(r.week, weekFn))
  }

  /** `Response::try_merge`: merged only when both results are present. */
  function TryMergeWith<B, T>(r: Response<T, T>, f: (T, T) -> B): (t: TryMerge<B, T>)
    ensures t.Ok? <==> r.month.Some? && r.week.Some?
    ensures t.Ok? ==> t.value == f(r.month.value, r.week.value)
    ensures t.Err? ==> t.error == r
  {
    match r
    case Response(Some(m), Some(w)) => Ok(f(m, w))
    case _ => Err(r)
  }

  /**
   * `Response::any`: true when no result is present, otherwise whether any
   * present result is true.
   */
  function Any(r: Response<bool, bool>): (b: bool)
  {
    match (r.month, r.week)
    case (None, None) => true
    case (None, Some(w)) => w
    case (Some(m), None) => m
    case (Some(m), Some(w)) => m || w
  }

  lemma AnyMeaning(r: Response<bool, bool>)
    ensures Any(r) <==> (r.month.None? && r.week.None?) || r.month == Some(true) || r.week == Some(true)
  {
  }

  /** `TryMerge::or_else_map`; a response holding both results is never left unmerged. */
  function OrElseMap<B, T>(t: TryMerge<B, T>, monthFn: T -> B, weekFn: T -> B): (r: Option<B>)
    requires t.Err? ==> !(t.error.month.Some? && t.error.week.Some?)
  {
    match t
    case Ok(b) => Some(b)
    case Err(Response(None, None)) => None
    case Err(Response(None, Some(w))) => Some(weekFn(w))
    case Err(Response(Some(m), None)) => Some(monthFn(m))
  }

  /** `TryMerge::or`: the merged value, else the lone present result, else nothing. */
  function Or<T>(t: TryMerge<T, T>): (r: Option<T>)
    requires t.Err? ==> !(t.error.month.Some? && t.error.week.Some?)
  {
    OrElseMap(t, x => x, x => x)
  }

  /** Merging and then taking `or` yields the merged value, the lone value, or nothing. */
  lemma TryMergeThenOr<T>(r: Response<T, T>, f: (T, T) -> T)
    ensures Or(TryMergeWith(r, f)) ==
      if r.month.Some? && r.week.Some? then Some(f(r.month.value, r.week.value))
      else if r.month.Some? then r.month
      else r.week
  {
  }

  /**
   * `num_weekdays_since` on its 16-bit signed arguments: `end + 7 - start`,
   * remainder by 7 truncating toward zero, cast to 8 bits.
   */
  function NumWeekdaysSince(start: int, end: int): (d: nat)
    ensures d < 256
  {
    U8(RemT(end + 7 - start, 7))
  }

  /** Between two weekdays the count is below 7, and stepping that many days from the start lands on the end. */
  lemma NumWeekdaysSinceSteps(start: nat, end: nat)
    requires start < 7 && end < 7
    ensures NumWeekdaysSince(start, end) < 7
    ensures (start + NumWeekdaysSince(start, end)) % 7 == end
  {
    var x := end + 7 - start;
    assert 0 < x < 14;
    if x < 7 {
      ModSmall(x, 7);
    } else {
      ModUnique(x, 7, 1, x - 7);
    }
  }

  lemma NumWeekdaysSinceExamples()
    ensures NumWeekdaysSince(0, 1) == 1 && NumWeekdaysSince(5, 1) == 3
    ensures NumWeekdaysSince(2, 6) == 4 && NumWeekdaysSince(6, 5) == 6
  {
  }

  /** `next_weekday_from_last`: the weekday `days` after `first`, the sum taken in 32 bits. */
  function NextWeekdayFromLast(first: nat, days: nat): (w: nat)
    ensures w < 7
  {
    U32(first + days) % 7
  }

  /** Counting the days from one weekday to another and stepping them forward gets back to the other. */
  lemma NextWeekdayUndoesCount(start: nat, end: nat)
    requires start < 7 && end < 7
    ensures NextWeekdayFromLast(start, NumWeekdaysSince(start, end)) == end
  {
    NumWeekdaysSinceSteps(start, end);
    ModSmall(start + NumWeekdaysSince(start, end), U32_MODULUS);
  }

  lemma NextWeekdayExamples()
    ensures NextWeekdayFromLast(0, 7) == 0 && NextWeekdayFromLast(1, 13) == 0 && NextWeekdayFromLast(5, 0) == 5
  {
  }

  /** `is_within_end_of_month`. */
  predicate WithinMonth(day: nat, daysInMonth: nat)
  {
    day <= daysInMonth
  }

  /**
   * `decide_field`: with both candidates the smaller day wins and a tie is
   * marked Both; a lone candidate passes through.
   */
  function DecideField(monthOpt: Option<(nat, LastUsed)>, weekOpt: Option<(nat, LastUsed)>): (r: Option<(nat, LastUsed)>)
  {
    Or(TryMergeWith(Response(monthOpt, weekOpt),
      (m: (nat, LastUsed), w: (nat, LastUsed)) =>
        if m.0 < w.0 then m else if m.0 == w.0 then (m.0, Both) else w))
  }

  lemma DecideFieldChoice(monthOpt: Option<(nat, LastUsed)>, weekOpt: Option<(nat, LastUsed)>)
    ensures monthOpt.None? && weekOpt.None? ==> DecideField(monthOpt, weekOpt).None?
    ensures monthOpt.Some? && weekOpt.None? ==> DecideField(monthOpt, weekOpt) == monthOpt
    ensures monthOpt.None? && weekOpt.Some? ==> DecideField(monthOpt, weekOpt) == weekOpt
    ensures monthOpt.Some? && weekOpt.Some? ==>
      var m := monthOpt.value;
      var w := weekOpt.value;
      DecideField(monthOpt, weekOpt) ==
        Some(if m.0 < w.0 then m else if m.0 == w.0 then (m.0, Both) else w)
  {
  }

  /**
   * `compute_cache`: the weekday candidate as a cache entry.  A day past the
   * month's end moves to the next month (December wraps to January of the
   * next year); its day is computed from `month`, not from the day, in 8 bits.
   */
  function ComputeCache(day: (nat, nat), month: nat, year: nat): (c: DayCache)
    requires IsMonth(month)
    ensures c.weekday == day.1 && c.last == Week
  {
    var daysInMonth := DaysInAMonth(month, year);
    var (monthDay, weekday) := day;
    if monthDay > daysInMonth then
      var newDay := U8(month - daysInMonth);
      var (newMonth, monthOverflow) := if month + 1 > 12 then (1, true) else (month + 1, false);
      DayCache(newDay, weekday, newMonth, U32(year + BoolToNat(monthOverflow)), Week)
    else
      DayCache(monthDay, weekday, month, year, Week)
  }

  lemma ComputeCacheCases(day: (nat, nat), month: nat, year: nat)
    requires IsMonth(month)
    ensures day.0 <= DaysInAMonth(month, year) ==> ComputeCache(day, month, year) == DayCache(day.0, day.1, month, year, Week)
    ensures day.0 > DaysInAMonth(month, year) ==>
      var c := ComputeCache(day, month, year);
      c.month == (if month == 12 then 1 else month + 1) &&
      c.year == U32(year + if month == 12 then 1 else 0)
  {
  }

  /**
   * The day an overflowing entry records is `month - days_in_month` wrapped
   * to 8 bits, which is never a day of any month.
   */
  lemma ComputeCacheOverflowDayIsNoDay(day: (nat, nat), month: nat, year: nat)
    requires IsMonth(month) && day.0 > DaysInAMonth(month, year)
    ensures ComputeCache(day, month, year).monthDay > 31
  {
    var d := DaysInAMonth(month, year);
    ModUnique(month - d, 256, -1, month - d + 256);
  }

  /**
   * What the month-day ring offers after a `binary_search_or_greater` for
   * `daysMonth` (plus the carry): the value found, unless the search wrapped
   * or the value is past the month's end.
   */
  function MonthCandidate(items: seq<nat>, overflow: bool, daysMonth: nat, daysInMonth: nat): (r: Option<nat>)
    requires |items| > 0
    ensures r.Some? ==> r.value in items && r.value <= daysInMonth
  {
    var i := BinarySearch(items, Target(overflow, daysMonth));
    if i < |items| && WithinMonth(items[i], daysInMonth) then Some(items[i]) else None
  }

  /** On a sorted ring the candidate is the least listed day from the target on, if that fits the month. */
  lemma MonthCandidateLeast(items: seq<nat>, overflow: bool, daysMonth: nat, daysInMonth: nat)
    requires |items| > 0 && Sorted(items)
    ensures var t := Target(overflow, daysMonth);
            var r := MonthCandidate(items, overflow, daysMonth, daysInMonth);
            (r.Some? ==> r.value >= t && forall v :: v in items && v >= t ==> r.value <= v) &&
            (r.None? ==> forall v :: v in items && v >= t ==> v > daysInMonth)
  {
    SearchFindsLeastAtLeast(items, Target(overflow, daysMonth));
  }

  /**
   * What the weekday ring offers: the weekday its search lands on (the
   * first slot when it wraps) and the month day reached by counting the
   * weekdays from `daysWeek` on from `daysMonth`, in 8 bits.
   */
  function WeekCandidate(items: seq<nat>, overflow: bool, daysMonth: nat, daysWeek: nat): (r: (nat, nat))
    requires |items| > 0
    ensures r.1 in items
    ensures r.0 == U8(daysMonth + NumWeekdaysSince(daysWeek, r.1))
  {
    var i := BinarySearch(items, Target(overflow, daysWeek));
    var day := items[i % |items|];
    (U8(daysMonth + NumWeekdaysSince(daysWeek, day)), day)
  }

  /**
   * For weekdays, the month day the weekday ring offers is at most six days
   * on from `daysMonth` and falls on the weekday it names.
   */
  lemma WeekCandidateFallsOnItsWeekday(items: seq<nat>, overflow: bool, daysMonth: nat, daysWeek: nat)
    requires |items| > 0 && daysWeek < 7 && daysMonth < 250
    requires forall v :: v in items ==> v < 7
    ensures var r := WeekCandidate(items, overflow, daysMonth, daysWeek);
            daysMonth <= r.0 < daysMonth + 7 && (daysWeek + (r.0 - daysMonth)) % 7 == r.1
  {
    var r := WeekCandidate(items, overflow, daysMonth, daysWeek);
    NumWeekdaysSinceSteps(daysWeek, r.1);
    ModSmall(daysMonth + NumWeekdaysSince(daysWeek, r.1), 256);
  }

  /**
   * The day `DaysInner::first_after` settles on, with the ring it came from:
   * each present ring's candidate, kept only if it fits the month, then
   * decided between as `decide_field` does.
   */
  function DayChoice(monthCand: Option<Option<nat>>, weekCand: Option<(nat, nat)>, daysInMonth: nat): (r: Option<(nat, LastUsed)>)
    requires monthCand.Some? || weekCand.Some?
    requires monthCand.Some? && monthCand.value.Some? ==> monthCand.value.value <= daysInMonth
    ensures r.Some? ==> r.value.0 <= daysInMonth
    ensures r.Some? ==> (monthCand.Some? && monthCand.value == Some(r.value.0)) || (weekCand.Some? && weekCand.value.0 == r.value.0)
  {
    var m := OptionMap(monthCand, (d: Option<nat>) => OptionMap(d, (x: nat) => (x, LastUsed.Month)));
    var w := OptionMap(weekCand, (c: (nat, nat)) =>
      if WithinMonth(c.0, daysInMonth) then Some((c.0, LastUsed.Week)) else None);
    MergeDecided(m, w)
  }

  /** `try_merge(decide_field).or()` followed by the `expect` that one day ring exists. */
  function MergeDecided(m: Option<Option<(nat, LastUsed)>>, w: Option<Option<(nat, LastUsed)>>): (r: Option<(nat, LastUsed)>)
    requires m.Some? || w.Some?
    ensures r.Some? ==> (m.Some? && m.value == r) || (w.Some? && w.value == r) || (m.Some? && w.Some? && m.value.Some? && w.value.Some? && r == Some((m.value.value.0, Both)))
  {
    var merged := Or(TryMergeWith(Response(m, w), DecideField));
    merged.value
  }

  /** The day rings: days of the month, days of the week, or both, as separate rings. */
  datatype DaysInner =
    | BothRings(monthRing: CopyRing<nat>, weekRing: CopyRing<nat>)
    | MonthOnly(monthRing: CopyRing<nat>)
    | WeekOnly(weekRing: CopyRing<nat>)
  {
    predicate HasMonth() { !WeekOnly? }
    predicate HasWeek() { !MonthOnly? }
  }

  /**
   * `Days`: the day rings, and the cache that lives beside the weekday
   * ring (always absent when there is none).
   */
  class Days {
    const inner: DaysInner
    var cache: Option<DayCache>

    function Rings(): set<object>
    {
      match inner
      case BothRings(m, w) => {m, w}
      case MonthOnly(m) => {m}
      case WeekOnly(w) => {w}
    }

    ghost predicate Valid()
      reads this, Rings()
    {
      (inner.HasMonth() ==> FieldRing(inner.monthRing)) &&
      (inner.HasWeek() ==> FieldRing(inner.weekRing)) &&
      (inner.BothRings? ==> inner.monthRing != inner.weekRing) &&
      (inner.MonthOnly? ==> cache.None?)
    }

    /** `Days::week`, `Days::month` and `Days::both`: no cache yet. */
    constructor (inner: DaysInner)
      requires inner.HasMonth() ==> FieldRing(inner.monthRing)
      requires inner.HasWeek() ==> FieldRing(inner.weekRing)
      requires inner.BothRings? ==> inner.monthRing != inner.weekRing
      ensures this.inner == inner && cache.None? && Valid()
    {
      this.inner := inner;
      cache := None;
    }

    /** `reset`: every present ring back to its start; the cache is kept. */
    method Reset()
      requires Valid()
      modifies Rings()
      ensures Valid()
      ensures inner.HasMonth() ==> inner.monthRing.index == 0 && !inner.monthRing.init
      ensures inner.HasWeek() ==> inner.weekRing.index == 0 && !inner.weekRing.init
    {
      if inner.HasMonth() {
        inner.monthRing.Reset();
      }
      if inner.HasWeek() {
        inner.weekRing.Reset();
      }
    }

    /**
     * `query`: each present ring's contents (and, for the weekday ring, the
     * cache) through its own function.
     */
    function Query<T, U>(monthFn: seq<nat> -> T, weekFn: (seq<nat>, Option<DayCache>) -> U): (r: Response<T, U>)
      reads this
      ensures r.month.Some? <==> inner.HasMonth()
      ensures r.week.Some? <==> inner.HasWeek()
      ensures inner.HasMonth() ==> r.month.value == monthFn(inner.monthRing.items)
      ensures inner.HasWeek() ==> r.week.value == weekFn(inner.weekRing.items, cache)
    {
      match inner
      case BothRings(m, w) => Response(Some(monthFn(m.items)), Some(weekFn(w.items, cache)))
      case MonthOnly(m) => Response(Some(monthFn(m.items)), None)
      case WeekOnly(w) => Response(None, Some(weekFn(w.items, cache)))
    }

    /**
     * `last`: the cached month day, else the month-day ring's value one
     * slot behind the cursor.  Without either the source panics.
     */
    function Last(): (d: nat)
      reads this, Rings()
      requires Valid()
      requires cache.None? ==> inner.HasMonth()
      ensures cache.Some? ==> d == cache.value.monthDay
      ensures cache.None? ==> d in inner.monthRing.items
    {
      if cache.Some? then cache.value.monthDay
      else inner.monthRing.PeekPrev().value
    }

    /** The month-day ring's part of `first_after`: a search, kept if it did not wrap and fits the month. */
    method SearchMonthRing(timeOverflow: bool, daysMonth: nat, daysInMonth: nat) returns (d: Option<nat>)
      requires Valid() && inner.HasMonth()
      modifies inner.monthRing
      ensures Valid()
      ensures d == MonthCandidate(inner.monthRing.items, timeOverflow, daysMonth, daysInMonth)
    {
      var found := BinarySearchOrGreater(inner.monthRing, Target(timeOverflow, daysMonth));
      ghost var i := BinarySearch(inner.monthRing.items, Target(timeOverflow, daysMonth));
      if i < |inner.monthRing.items| {
        ModSmall(i, |inner.monthRing.items|);
      }
      var (day, overflow) := found.value;
      d := if !overflow && WithinMonth(day, daysInMonth) then Some(day) else None;
    }

    /** The weekday ring's part of `first_after`: a search, whatever its wrap flag, turned into a month day. */
    method SearchWeekRing(timeOverflow: bool, daysMonth: nat, daysWeek: nat) returns (c: (nat, nat))
      requires Valid() && inner.HasWeek()
      modifies inner.weekRing
      ensures Valid() && cache == old(cache)
      ensures c == WeekCandidate(inner.weekRing.items, timeOverflow, daysMonth, daysWeek)
    {
      var found := BinarySearchOrGreater(inner.weekRing, Target(timeOverflow, daysWeek));
      var day := found.value.0;
      c := (U8(daysMonth + NumWeekdaysSince(daysWeek, day)), day);
    }

    /**
     * `DaysInner::first_after`: resets the rings, searches each present
     * ring, records the weekday candidate in the cache, and settles on the
     * day as `DayChoice` says, noting in the cache which ring supplied it.
     */
    method FirstAfter(timeOverflow: bool, daysMonth: nat, daysWeek: nat, month: nat, year: nat) returns (r: Option<nat>)
      requires Valid() && IsMonth(month)
      modifies this, Rings()
      ensures Valid()
      ensures var dim := DaysInAMonth(month, year);
              var m := if inner.HasMonth() then Some(MonthCandidate(inner.monthRing.items, timeOverflow, daysMonth, dim)) else None;
              var w := if inner.HasWeek() then Some(WeekCandidate(inner.weekRing.items, timeOverflow, daysMonth, daysWeek)) else None;
              var choice := DayChoice(m, w, dim);
              (choice.Some? ==> r == Some(choice.value.0)) && (choice.None? ==> r.None?) &&
              (inner.HasWeek() ==>
                cache == Some(ComputeCache(w.value, month, year).(last := if choice.Some? then choice.value.1 else Week))) &&
              (inner.MonthOnly? ==> cache.None?)
      ensures r.Some? ==> r.value <= DaysInAMonth(month, year)
    {
      Reset();
      var dim := DaysInAMonth(month, year);
      var monthDay: Option<Option<nat>> := None;
      var weekDay: Option<(nat, nat)> := None;
      if inner.HasMonth() {
        var d := SearchMonthRing(timeOverflow, daysMonth, dim);
        monthDay := Some(d);
      }
      if inner.HasWeek() {
        var weekday := SearchWeekRing(timeOverflow, daysMonth, daysWeek);
        cache := Some(ComputeCache(weekday, month, year));
        weekDay := Some(weekday);
      }
      var choice := DayChoice(monthDay, weekDay, dim);
      if choice.Some? {
        if cache.Some? {
          cache := Some(cache.value.(last := choice.value.1));
        }
        r := Some(choice.value.0);
      } else {
        r := None;
      }
    }

    /**
     * `DaysInner::next`: steps the ring the cache says was used last (the
     * month-day ring when there is no cache) and reports each present
     * ring's next day, if it fits the month.  The weekday ring's day is
     * counted on from the cached day and weekday; the source panics when
     * that ring has no cache.
     */
    method Next(daysInMonth: nat) returns (r: Response<nat, (nat, nat)>)
      requires Valid()
      requires inner.HasWeek() ==> cache.Some?
      modifies Rings()
      ensures Valid()
      ensures var (monthStep, weekStep) := Steps(cache);
              (inner.HasMonth() ==>
                 var ring := inner.monthRing;
                 var n := |ring.items|;
                 var day := ring.items[old(ring.index)];
                 var wrapped := monthStep && old(ring.index) == 0 && old(ring.init);
                 ring.index == (if monthStep then (old(ring.index) + 1) % n else old(ring.index)) &&
                 r.month == (if !wrapped && WithinMonth(day, daysInMonth) then Some(day) else None)) &&
              (inner.HasWeek() ==>
                 var ring := inner.weekRing;
                 var n := |ring.items|;
                 var day := ring.items[old(ring.index)];
                 var monthDay := U8(cache.value.monthDay + NumWeekdaysSince(cache.value.weekday, day));
                 ring.index == (if weekStep then (old(ring.index) + 1) % n else old(ring.index)) &&
                 r.week == (if WithinMonth(monthDay, daysInMonth) then Some((monthDay, day)) else None))
      ensures !inner.HasMonth() ==> r.month.None?
      ensures !inner.HasWeek() ==> r.week.None?
    {
      var (monthStep, weekStep) := Steps(cache);
      var m: Option<nat> := None;
      var w: Option<(nat, nat)> := None;
      if inner.HasMonth() {
        var step := CronField.Next(inner.monthRing, monthStep);
        m := if !step.1 && WithinMonth(step.0, daysInMonth) then Some(step.0) else None;
      }
      if inner.HasWeek() {
        var step := CronField.Next(inner.weekRing, weekStep);
        var monthDay := U8(cache.value.monthDay + NumWeekdaysSince(cache.value.weekday, step.0));
        w := if WithinMonth(monthDay, daysInMonth) then Some((monthDay, step.0)) else None;
      }
      r := Response(m, w);
    }
  }

  /**
   * Which rings `next` steps: after Week only the weekday ring, after Month
   * only the month-day ring, after Both both, and with no cache the
   * month-day ring.
   */
  function Steps(cache: Option<DayCache>): (s: (bool, bool))
    ensures s.0 || s.1
    ensures s.0 <==> cache.None? || cache.value.last != Week
    ensures s.1 <==> cache.Some? && cache.value.last != Month
  {
    if cache.None? then (true, false)
    else match cache.value.last
      case Week => (false, true)
      case Month => (true, false)
      case Both => (true, true)
  }

  /** `Months`: the month ring, searched and stepped with the shared helpers. */
  class Months {
    const ring: CopyRing<nat>

    constructor (ring: CopyRing<nat>)
      ensures this.ring == ring
    {
      this.ring := ring;
    }

    /** `Months::first_after`: the search with no carry. */
    method FirstAfter(month: nat) returns (r: (nat, bool))
      requires FieldRing(ring)
      modifies ring
      ensures FieldRing(ring) && ring.init
      ensures r == FieldAfter(ring.items, false, month)
    {
      r := CronField.FirstAfter(ring, false, month);
    }

    /** `Months::next`: always a carried step. */
    method Next() returns (r: (nat, bool))
      requires FieldRing(ring)
      modifies ring
      ensures FieldRing(ring) && ring.init
      ensures r == (ring.items[old(ring.index)], old(ring.index) == 0 && old(ring.init))
      ensures ring.index == (old(ring.index) + 1) % |ring.items|
    {
      r := CronField.Next(ring, true);
    }

    /** `Months::last`: the value one slot behind the cursor. */
    function Last(): (m: nat)
      reads ring
      requires FieldRing(ring)
      ensures m == ring.items[(ring.index - 1) % |ring.items|]
    {
      ring.PeekPrev().value
    }

    method Reset()
      requires FieldRing(ring)
      modifies ring
      ensures FieldRing(ring) && ring.index == 0 && !ring.init
    {
      ring.Reset();
    }
  }
}
