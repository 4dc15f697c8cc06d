/**
 * The `Schedule` type of `cron/src/lib.rs`: parsing a cron string's `@`
 * macros into six value rings (second, minute, hour, day of the month,
 * month, day of the week), and moving the month ring with `next_month`.
 */
module CronSchedule {
  import opened Wrappers
  import opened Arith
  import opened Ring

  datatype Error = Empty | WrongNumberOfFields | InvalidMacro | Unknown

  /** The contents of a parsed schedule: six field rings and two counters. */
  datatype ScheduleSpec = ScheduleSpec(fields: seq<seq<nat>>, yearsAfterCurr: nat, daysInCurrMonth: nat)

  /** Rust's `char::is_whitespace`: the Unicode White_Space characters. */
  predicate IsWhitespace(c: char)
  {
    var n := c as int;
    (0x09 <= n <= 0x0D) || n == 0x20 || n == 0x85 || n == 0xA0 || n == 0x1680 ||
    (0x2000 <= n <= 0x200A) || n == 0x2028 || n == 0x2029 || n == 0x202F ||
    n == 0x205F || n == 0x3000
  }

  /** The longest prefix of `s` holding no whitespace. */
  function Word(s: string): (w: string)
    ensures |w| <= |s| && w == s[..|w|]
    ensures forall i :: 0 <= i < |w| ==> !IsWhitespace(w[i])
    ensures |w| < |s| ==> IsWhitespace(s[|w|])
  {
    if |s| == 0 || IsWhitespace(s[0]) then [] else [s[0]] + Word(s[1..])
  }

  /** `str::split_whitespace`: the maximal runs of non-whitespace characters, in order. */
  function Fields(s: string): (fs: seq<string>)
    ensures forall i :: 0 <= i < |fs| ==> |fs[i]| > 0
    ensures forall i, j :: 0 <= i < |fs| && 0 <= j < |fs[i]| ==> !IsWhitespace(fs[i][j])
    decreases |s|
  {
    if |s| == 0 then []
    else if IsWhitespace(s[0]) then Fields(s[1..])
    else
      var w := Word(s);
      [w] + Fields(s[|w|..])
  }

  /** A string splits into no fields exactly when it is empty or all whitespace. */
  lemma {:induction false} NoFieldsIffBlank(s: string)
    ensures |Fields(s)| == 0 <==> forall i :: 0 <= i < |s| ==> IsWhitespace(s[i])
    decreases |s|
  {
    if |s| > 0 {
      if IsWhitespace(s[0]) {
        NoFieldsIffBlank(s[1..]);
        assert forall i :: 1 <= i < |s| ==> s[i] == s[1..][i - 1];
      } else {
        assert |Fields(s)| > 0;
      }
    }
  }

  /** The values `lo` up to but excluding `hi`, as `Field::from_iter(lo..hi)` holds them. */
  function Range(lo: nat, hi: nat): (r: seq<nat>)
    requires lo <= hi
    ensures |r| == hi - lo
    ensures forall i :: 0 <= i < |r| ==> r[i] == lo + i
  {
    seq(hi - lo, i => lo + i)
  }

  /**
   * The schedule a macro letter stands for: `y`/`a` yearly, `m` monthly,
   * `w` weekly, `d` daily and `h` hourly; any other letter is not a macro.
   */
  function Macro(c: char): (r: Option<ScheduleSpec>)
  {
    match c
    case 'y' | 'a' => Some(ScheduleSpec([[0], [0], [0], [1], [1], Range(0, 7)], 1, 31))
    case 'm' => Some(ScheduleSpec([[0], [0], [0], [1], Range(1, 13), Range(0, 7)], 0, 31))
    case 'w' => Some(ScheduleSpec([[0], [0], [0], Range(1, 32), Range(1, 13), [0]], 0, 31))
    case 'd' => Some(ScheduleSpec([[0], [0], [0], Range(1, 32), Range(1, 13), Range(0, 7)], 0, 31))
    case 'h' => Some(ScheduleSpec([[0], [0], Range(0, 24), Range(1, 32), Range(1, 13), Range(0, 7)], 0, 31))
    case _ => None
  }

  /**
   * `Schedule::from_str`.  Five- and six-field expressions are not
   * implemented in the source (it panics), so they are excluded here.
   */
  function ParseSchedule(s: string): (r: Result<ScheduleSpec, Error>)
    requires |Fields(s)| != 5 && |Fields(s)| != 6
  {
    var fields := Fields(s);
    if |fields| == 0 then Err(Empty)
    else if |fields| == 1 then
      var f := fields[0];
      if |f| == 0 then Err(Unknown)
      else if f[0] != '@' then Err(WrongNumberOfFields)
      else if |f| == 1 then Err(InvalidMacro)
      else
        match Macro(f[1])
        case Some(spec) => Ok(spec)
        case None => Err(InvalidMacro)
    else Err(WrongNumberOfFields)
  }

  /** Only an empty or all-whitespace string fails with Empty. */
  lemma EmptyIffBlank(s: string)
    requires |Fields(s)| != 5 && |Fields(s)| != 6
    ensures ParseSchedule(s) == Err(Empty) <==> forall i :: 0 <= i < |s| ==> IsWhitespace(s[i])
  {
    NoFieldsIffBlank(s);
  }

  /**
   * How the error cases split: two, three, four or more than six fields are
   * WrongNumberOfFields, as is a single field not starting with `@`; a bare
   * `@` or an unknown macro letter is InvalidMacro.  Unknown never occurs.
   */
  lemma ParseErrors(s: string)
    requires |Fields(s)| != 5 && |Fields(s)| != 6
    ensures |Fields(s)| >= 2 ==> ParseSchedule(s) == Err(WrongNumberOfFields)
    ensures |Fields(s)| == 1 && Fields(s)[0][0] != '@' ==> ParseSchedule(s) == Err(WrongNumberOfFields)
    ensures |Fields(s)| == 1 && Fields(s)[0] == "@" ==> ParseSchedule(s) == Err(InvalidMacro)
    ensures |Fields(s)| == 1 && |Fields(s)[0]| >= 2 && Fields(s)[0][0] == '@' && Macro(Fields(s)[0][1]).None?
            ==> ParseSchedule(s) == Err(InvalidMacro)
    ensures ParseSchedule(s) != Err(Unknown)
    ensures ParseSchedule(s).Ok? <==> |Fields(s)| == 1 && |Fields(s)[0]| >= 2 && Fields(s)[0][0] == '@'
                                      && Macro(Fields(s)[0][1]).Some?
  {
  }

  /** Only the first letter after `@` matters: "@hourly", "@h" and "@hx" parse alike. */
  lemma OnlyFirstMacroLetterMatters(s: string, t: string)
    requires |Fields(s)| == 1 && |Fields(t)| == 1
    requires |Fields(s)[0]| >= 2 && |Fields(t)[0]| >= 2
    requires Fields(s)[0][..2] == Fields(t)[0][..2]
    ensures ParseSchedule(s) == ParseSchedule(t)
  {
    assert Fields(s)[0][0] == Fields(s)[0][..2][0] && Fields(s)[0][1] == Fields(s)[0][..2][1];
    assert Fields(t)[0][0] == Fields(t)[0][..2][0] && Fields(t)[0][1] == Fields(t)[0][..2][1];
  }

  /** The inclusive bounds of each field, second first. */
  const FIELD_MIN: seq<nat> := [0, 0, 0, 1, 1, 0]
  const FIELD_MAX: seq<nat> := [59, 59, 23, 31, 12, 6]

  /** A non-empty, increasing ring whose values lie within `min` and `max`. */
  predicate FieldOk(ring: seq<nat>, min: nat, max: nat)
  {
    |ring| > 0 && StrictlyIncreasing(ring) &&
    forall i :: 0 <= i < |ring| ==> min <= ring[i] <= max
  }

  /** Six non-empty, increasing rings whose values lie within their field's bounds. */
  predicate WellFormed(spec: ScheduleSpec)
  {
    |spec.fields| == 6 &&
    forall f :: 0 <= f < 6 ==> FieldOk(spec.fields[f], FIELD_MIN[f], FIELD_MAX[f])
  }

  lemma RangeWellFormed(lo: nat, hi: nat, min: nat, max: nat)
    requires lo < hi && min <= lo && hi <= max + 1
    ensures FieldOk(Range(lo, hi), min, max)
  {
  }

  lemma SingletonWellFormed(v: nat, min: nat, max: nat)
    requires min <= v <= max
    ensures FieldOk([v], min, max)
  {
  }

  /** Six rings, each within its own field's bounds, make a well-formed schedule. */
  lemma FieldsWellFormed(second: seq<nat>, minute: seq<nat>, hour: seq<nat>,
                         day: seq<nat>, month: seq<nat>, weekday: seq<nat>, minDays: nat, maxDays: nat)
    requires FieldOk(second, 0, 59) && FieldOk(minute, 0, 59) && FieldOk(hour, 0, 23)
    requires FieldOk(day, 1, 31) && FieldOk(month, 1, 12) && FieldOk(weekday, 0, 6)
    ensures WellFormed(ScheduleSpec([second, minute, hour, day, month, weekday], minDays, maxDays))
  {
    var f := [second, minute, hour, day, month, weekday];
    forall k | 0 <= k < 6
      ensures FieldOk(f[k], FIELD_MIN[k], FIELD_MAX[k])
    {
    }
  }

  /** Every macro yields six non-empty, increasing rings within the field bounds. */
  lemma MacrosWellFormed(c: char)
    requires Macro(c).Some?
    ensures WellFormed(Macro(c).value)
  {
    SingletonWellFormed(0, 0, 59);
    SingletonWellFormed(0, 0, 23);
    SingletonWellFormed(1, 1, 31);
    SingletonWellFormed(1, 1, 12);
    SingletonWellFormed(0, 0, 6);
    RangeWellFormed(0, 24, 0, 23);
    RangeWellFormed(1, 32, 1, 31);
    RangeWellFormed(1, 13, 1, 12);
    RangeWellFormed(0, 7, 0, 6);
    match c
    case 'y' | 'a' => FieldsWellFormed([0], [0], [0], [1], [1], Range(0, 7), 1, 31);
    case 'm' => FieldsWellFormed([0], [0], [0], [1], Range(1, 13), Range(0, 7), 0, 31);
    case 'w' => FieldsWellFormed([0], [0], [0], Range(1, 32), Range(1, 13), [0], 0, 31);
    case 'd' => FieldsWellFormed([0], [0], [0], Range(1, 32), Range(1, 13), Range(0, 7), 0, 31);
    case 'h' => FieldsWellFormed([0], [0], Range(0, 24), Range(1, 32), Range(1, 13), Range(0, 7), 0, 31);
  }

  /** `Range(lo, hi)` holds exactly the values from `lo` below `hi`. */
  lemma RangeMembers(lo: nat, hi: nat)
    requires lo <= hi
    ensures forall v: nat :: v in Range(lo, hi) <==> lo <= v < hi
  {
    forall v: nat | lo <= v < hi
      ensures v in Range(lo, hi)
    {
      assert Range(lo, hi)[v - lo] == v;
    }
  }

  /**
   * The hourly macro fires at second 0 and minute 0 of every hour, on every
   * day of every month and every weekday.
   */
  lemma HourlyMacro()
    ensures Macro('h').Some?
    ensures var f := Macro('h').value.fields;
      f[0] == [0] && f[1] == [0] &&
      (forall h: nat :: h in f[2] <==> h <= 23) &&
      (forall d: nat :: d in f[3] <==> 1 <= d <= 31) &&
      (forall m: nat :: m in f[4] <==> 1 <= m <= 12) &&
      (forall w: nat :: w in f[5] <==> w <= 6)
  {
    RangeMembers(0, 24);
    RangeMembers(1, 32);
    RangeMembers(1, 13);
    RangeMembers(0, 7);
  }

  /** A schedule whose field rings move as it is iterated. */
  class Schedule {
    const fields: seq<CopyRing<nat>>
    var yearsAfterCurr: nat
    var daysInCurrMonth: nat

    /** A schedule holding fresh rings over the given field values. */
    constructor (spec: ScheduleSpec)
      ensures |fields| == |spec.fields|
      ensures forall i :: 0 <= i < |fields| ==>
        fresh(fields[i]) && fields[i].items == spec.fields[i] && fields[i].Valid() &&
        fields[i].index == 0 && !fields[i].init && fields[i].stride == 1
      ensures yearsAfterCurr == spec.yearsAfterCurr && daysInCurrMonth == spec.daysInCurrMonth
    {
      var rings: seq<CopyRing<nat>> := [];
      for i := 0 to |spec.fields|
        invariant |rings| == i
        invariant forall j :: 0 <= j < i ==>
          fresh(rings[j]) && rings[j].items == spec.fields[j] && rings[j].Valid() &&
          rings[j].index == 0 && !rings[j].init && rings[j].stride == 1
      {
        var r := new CopyRing(spec.fields[i]);
        rings := rings + [r];
      }
      fields := rings;
      yearsAfterCurr := spec.yearsAfterCurr;
      daysInCurrMonth := spec.daysInCurrMonth;
    }

    /**
     * `next_month`: walks one period of the month ring (the fifth field)
     * from its cursor, stopping at the first value not above `month`.  If
     * one is found the ring is moved back two slots; otherwise it is reset
     * and the year counter, an 8-bit value, goes up by one.
     */
    method NextMonth(month: nat)
      requires |fields| > 4 && fields[4].Valid() && fields[4].stride == 1
      modifies this, fields[4]
      ensures fields[4].Valid() && fields[4].stride == 1
      ensures daysInCurrMonth == old(daysInCurrMonth)
      ensures var n := |fields[4].items|;
              var s := old(fields[4].index);
              var k := MonthScan(fields[4].items, s, month);
              if k < n then
                fields[4].index == (s + k - 1) % n && fields[4].init && yearsAfterCurr == old(yearsAfterCurr)
              else
                fields[4].index == 0 && !fields[4].init && yearsAfterCurr == U8(old(yearsAfterCurr) + 1)
    {
      var ring := fields[4];
      ghost var s := ring.index;
      var found := false;
      // One period of an empty ring yields nothing, so there is nothing to scan.
      if !ring.IsEmpty() {
        var it := ring.OneCycle();
        found := ScanAtMost(it, month);
      }
      if found {
        ring.RotateRight(2);
        BackTwo(s + MonthScan(ring.items, s, month), |ring.items|);
      } else {
        ring.Reset();
        yearsAfterCurr := U8(yearsAfterCurr + 1);
      }
    }
  }

  /**
   * The loop of `next_month`: `for m in it { if month >= m { found = true; break } }`
   * over one period of a ring, stopping after consuming the first value
   * not above `month`.
   */
  method ScanAtMost(it: CycleIterMut<nat>, month: nat) returns (found: bool)
    requires it.Valid() && |it.ring.items| > 0 && it.ring.stride == 1
    modifies it, it.ring
    ensures it.Valid() && it.ring.stride == 1
    ensures var w := old(it.Remaining());
            var k := FirstAtMost(w, month);
            found == (k < |w|) &&
            (found ==> it.ring.index == (old(it.ring.index) + k + 1) % |it.ring.items| && it.ring.init)
  {
    ghost var w := it.Remaining();
    ghost var s := it.ring.index;
    var n := |it.ring.items|;
    ghost var items := it.ring.items;
    ModSmall(s, n);
    found := false;
    ghost var j: nat := 0;
    while true
      invariant it.Valid() && it.ring.stride == 1 && it.ring.items == items
      invariant j <= |w| && it.n == |w| - j
      invariant forall i :: 0 <= i < j ==> w[i] > month
      invariant it.ring.index == (s + j) % n
      decreases it.n
    {
      ghost var cur := it.ring.index;
      var m := it.Next();
      if m.None? {
        FirstAtMostUnique(w, month, j);
        break;
      }
      WindowAt(items, s, |w|, j);
      SlotAdvance(s, j, n, cur);
      if month >= m.value {
        found := true;
        FirstAtMostUnique(w, month, j);
        break;
      }
      j := j + 1;
    }
  }

  lemma BackTwo(a: int, n: nat)
    requires n > 0
    ensures ((a + 1) % n - 2) % n == (a - 1) % n
  {
    ModAddLeft(a + 1, -2, n);
  }

  /**
   * Where `next_month` stops: the offset from the cursor of the first month
   * value not above `month` in one period of the ring, or the period when
   * there is none.
   */
  ghost function MonthScan(items: seq<nat>, s: nat, month: nat): (k: nat)
    ensures k <= |items|
  {
    if s < |items| then FirstAtMost(Window(items, s, 1, |items|), month) else |items|
  }

  /** The position of the first value at most `x`, or the length when there is none. */
  function FirstAtMost(s: seq<nat>, x: nat): (i: nat)
    ensures i <= |s|
    ensures forall j :: 0 <= j < i ==> s[j] > x
    ensures i < |s| ==> s[i] <= x
  {
    if |s| == 0 then 0
    else if s[0] <= x then 0
    else 1 + FirstAtMost(s[1..], x)
  }

  lemma FirstAtMostUnique(s: seq<nat>, x: nat, i: nat)
    requires i <= |s|
    requires forall j :: 0 <= j < i ==> s[j] > x
    requires i < |s| ==> s[i] <= x
    ensures FirstAtMost(s, x) == i
  {
  }

  /** `from_str` followed by building the rings: an error, or a schedule over the parsed values. */
  method FromStr(s: string) returns (r: Result<Schedule, Error>)
    requires |Fields(s)| != 5 && |Fields(s)| != 6
    ensures r.Err? <==> ParseSchedule(s).Err?
    ensures r.Err? ==> r.error == ParseSchedule(s).error
    ensures r.Ok? ==>
      var spec := ParseSchedule(s).value;
      |r.value.fields| == 6 &&
      (forall i :: 0 <= i < 6 ==>
        r.value.fields[i].items == spec.fields[i] && r.value.fields[i].Valid() &&
        r.value.fields[i].index == 0 && !r.value.fields[i].init && r.value.fields[i].stride == 1) &&
      r.value.yearsAfterCurr == spec.yearsAfterCurr && r.value.daysInCurrMonth == spec.daysInCurrMonth
  {
    match ParseSchedule(s)
    case Err(e) =>
      r := Err(e);
    case Ok(spec) =>
      ParseErrors(s);
      var sched := new Schedule(spec);
      r := Ok(sched);
  }
}
