/**
 * Gregorian calendar arithmetic of `cron/src/lib.rs`: the leap-year rule and
 * the length of each month.
 */
module Calendar {

  /** A year is a leap year when divisible by 4, except centuries not divisible by 400. */
  predicate IsLeapYear(year: nat)
  {
    if year % 4 == 0 then
      if year % 100 == 0 then
        year % 400 == 0
      else
        true
    else
      false
  }

  /** The rule stated in one line: divisible by 4 and either not by 100 or by 400. */
  lemma LeapYearRule(year: nat)
    ensures IsLeapYear(year) <==> year % 4 == 0 && (year % 100 != 0 || year % 400 == 0)
  {
  }

  predicate IsMonth(month: nat)
  {
    1 <= month <= 12
  }

  /**
   * The number of days in `month` of `year`.  The source panics for a month
   * outside 1 to 12, so that is a precondition here.
   */
  function DaysInAMonth(month: nat, year: nat): (days: nat)
    requires IsMonth(month)
    ensures 28 <= days <= 31
    ensures days == 31 <==> month in {1, 3, 5, 7, 8, 10, 12}
    ensures days == 30 <==> month in {4, 6, 9, 11}
    ensures month == 2 ==> (days == 29 <==> IsLeapYear(year))
  {
    match month
    case 1 | 3 | 5 | 7 | 8 | 10 | 12 => 31
    case 4 | 6 | 9 | 11 => 30
    case 2 => if IsLeapYear(year) then 29 else 28
  }

  /**
   * Month lengths of a common year, January first.  The table itself is not
   * part of the shown source; these are the Gregorian values it names.
   */
  const MONTH_TO_DAYS_NO_LEAP: seq<nat> := [31, 28, 31, 30, 31, 30, 31, 31, 30, 31, 30, 31]

  /** A month's length is the common-year table entry, plus one for February in a leap year. */
  lemma DaysInAMonthMatchesTable(month: nat, year: nat)
    requires IsMonth(month)
    ensures DaysInAMonth(month, year)
            == MONTH_TO_DAYS_NO_LEAP[month - 1] + if month == 2 && IsLeapYear(year) then 1 else 0
  {
  }

  function SumDays(year: nat, months: nat): (total: nat)
    requires months <= 12
  {
    if months == 0 then 0 else SumDays(year, months - 1) + DaysInAMonth(months, year)
  }

  /** The twelve months add up to 366 days in a leap year and 365 otherwise. */
  lemma YearLength(year: nat)
    ensures SumDays(year, 12) == if IsLeapYear(year) then 366 else 365
  {
    assert SumDays(year, 1) == SumDays(year, 0) + 31;
    assert SumDays(year, 2) == SumDays(year, 1) + DaysInAMonth(2, year);
    assert SumDays(year, 3) == SumDays(year, 2) + 31;
    assert SumDays(year, 4) == SumDays(year, 3) + 30;
    assert SumDays(year, 5) == SumDays(year, 4) + 31;
    assert SumDays(year, 6) == SumDays(year, 5) + 30;
    assert SumDays(year, 7) == SumDays(year, 6) + 31;
    assert SumDays(year, 8) == SumDays(year, 7) + 31;
    assert SumDays(year, 9) == SumDays(year, 8) + 30;
    assert SumDays(year, 10) == SumDays(year, 9) + 31;
    assert SumDays(year, 11) == SumDays(year, 10) + 30;
    assert SumDays(year, 12) == SumDays(year, 11) + 31;
  }
}
