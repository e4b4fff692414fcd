/**
 Calendar dates (the proleptic Gregorian calendar of Python's `datetime.date`),
 their chronological order, day ordinals and the successor day.
 */
module Dates {
  import opened Wrappers

  /** A date as year, month and day. */
  datatype Date = Date(year: int, month: int, day: int)

  /** Strictly earlier in time: lexicographic on (year, month, day). */
  predicate Before(a: Date, b: Date)
  {
    || a.year < b.year
    || (a.year == b.year && a.month < b.month)
    || (a.year == b.year && a.month == b.month && a.day < b.day)
  }

  /** Not later in time. */
  predicate NotAfter(a: Date, b: Date)
  {
    !Before(b, a)
  }

  /** The Gregorian leap-year rule. */
  predicate IsLeap(y: int)
  {
    y % 4 == 0 && (y % 100 != 0 || y % 400 == 0)
  }

  function DaysInMonth(y: int, m: int): int
    requires 1 <= m <= 12
  {
    if m == 2 then (if IsLeap(y) then 29 else 28)
    else if m == 4 || m == 6 || m == 9 || m == 11 then 30
    else 31
  }

  function DaysInYear(y: int): int
  {
    if IsLeap(y) then 366 else 365
  }

  /** The smallest and largest years `datetime.date` accepts. */
  const MinYear: int := 1
  const MaxYear: int := 9999

  /** A date `datetime.date(year, month, day)` accepts without raising. */
  predicate IsValid(d: Date)
  {
    MinYear <= d.year <= MaxYear && 1 <= d.month <= 12 && 1 <= d.day <= DaysInMonth(d.year, d.month)
  }

  /** Days in the years before `y`, counted from year 1. */
  function DaysBeforeYear(y: int): int
    requires y >= 1
    decreases y
  {
    if y == 1 then 0 else DaysBeforeYear(y - 1) + DaysInYear(y - 1)
  }

  /** Days in the months of year `y` before month `m`. */
  function DaysBeforeMonth(y: int, m: int): int
    requires 1 <= m <= 13
    decreases m
  {
    if m == 1 then 0 else DaysBeforeMonth(y, m - 1) + DaysInMonth(y, m - 1)
  }

  /** The day number of a valid date, 1 for 0001-01-01 (`date.toordinal()`). */
  function Ordinal(d: Date): int
    requires IsValid(d)
  {
    DaysBeforeYear(d.year) + DaysBeforeMonth(d.year, d.month) + d.day
  }

  /** The twelve months add up to the year. */
  lemma MonthsFillYear(y: int)
    ensures DaysBeforeMonth(y, 13) == DaysInYear(y)
  {
    assert DaysBeforeMonth(y, 2) == 31;
    assert DaysBeforeMonth(y, 3) == 31 + DaysInMonth(y, 2);
    assert DaysBeforeMonth(y, 4) == 62 + DaysInMonth(y, 2);
    assert DaysBeforeMonth(y, 5) == 92 + DaysInMonth(y, 2);
    assert DaysBeforeMonth(y, 6) == 123 + DaysInMonth(y, 2);
    assert DaysBeforeMonth(y, 7) == 153 + DaysInMonth(y, 2);
    assert DaysBeforeMonth(y, 8) == 184 + DaysInMonth(y, 2);
    assert DaysBeforeMonth(y, 9) == 215 + DaysInMonth(y, 2);
    assert DaysBeforeMonth(y, 10) == 245 + DaysInMonth(y, 2);
    assert DaysBeforeMonth(y, 11) == 276 + DaysInMonth(y, 2);
    assert DaysBeforeMonth(y, 12) == 306 + DaysInMonth(y, 2);
  }

  /**
   The day after a valid date (`date + timedelta(days=1)`): exactly one day later
   in day numbers, and an overflow error after 9999-12-31.
   */
  function NextDay(d: Date): (r: Option<Date>)
    requires IsValid(d)
    ensures r.None? <==> d == Date(MaxYear, 12, 31)
    ensures r.Some? ==> IsValid(r.value) && Ordinal(r.value) == Ordinal(d) + 1
    ensures r.Some? ==> Before(d, r.value)
  {
    if d.day < DaysInMonth(d.year, d.month) then Some(Date(d.year, d.month, d.day + 1))
    else if d.month < 12 then Some(Date(d.year, d.month + 1, 1))
    else if d.year < MaxYear then
      MonthsFillYear(d.year);
      Some(Date(d.year + 1, 1, 1))
    else None
  }

  lemma {:induction false} MonthsAccumulate(y: int, m1: int, m2: int)
    requires 1 <= m1 < m2 <= 13
    ensures DaysBeforeMonth(y, m1) + DaysInMonth(y, m1) <= DaysBeforeMonth(y, m2)
    decreases m2 - m1
  {
    if m1 + 1 < m2 {
      MonthsAccumulate(y, m1 + 1, m2);
    }
  }

  lemma {:induction false} YearsAccumulate(y1: int, y2: int)
    requires 1 <= y1 < y2
    ensures DaysBeforeYear(y1) + DaysInYear(y1) <= DaysBeforeYear(y2)
    decreases y2 - y1
  {
    if y1 + 1 < y2 {
      YearsAccumulate(y1 + 1, y2);
    }
  }

  /** A valid date's ordinal stays within its year's range. */
  lemma OrdinalWithinYear(d: Date)
    requires IsValid(d)
    ensures DaysBeforeYear(d.year) < Ordinal(d) <= DaysBeforeYear(d.year) + DaysInYear(d.year)
  {
    MonthsFillYear(d.year);
    if d.month < 12 {
      MonthsAccumulate(d.year, d.month, 13);
    }
  }

  /** Day numbers order valid dates exactly as the calendar does. */
  lemma OrdinalOrder(a: Date, b: Date)
    requires IsValid(a) && IsValid(b)
    ensures Before(a, b) <==> Ordinal(a) < Ordinal(b)
    ensures a == b <==> Ordinal(a) == Ordinal(b)
  {
    OrdinalWithinYear(a);
    OrdinalWithinYear(b);
    if a.year < b.year {
      YearsAccumulate(a.year, b.year);
    } else if b.year < a.year {
      YearsAccumulate(b.year, a.year);
    } else if a.month < b.month {
      MonthsAccumulate(a.year, a.month, b.month);
    } else if b.month < a.month {
      MonthsAccumulate(a.year, b.month, a.month);
    }
  }

  /** No valid date lies strictly between a date and the day after it. */
  lemma NextDayIsNext(d: Date, e: Date)
    requires IsValid(d) && IsValid(e) && Before(d, e)
    ensures NextDay(d).Some? && NotAfter(NextDay(d).value, e)
  {
    OrdinalOrder(d, e);
    OrdinalOrder(NextDay(d).value, e);
  }
}
