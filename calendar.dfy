/**
 * Proleptic Gregorian calendar dates as Python's `datetime.date` holds them:
 * which year/month/day triples the constructor accepts, the day ordinal
 * `toordinal()` assigns, and the whole-day difference `(today - d).days`.
 */
module Calendar {

  import opened Wrappers

  /** A year/month/day triple; ValidDate says which ones are dates. */
  datatype Date = Date(year: int, month: int, day: int)

  /** `datetime.MINYEAR` and `datetime.MAXYEAR`. */
  const MinYear: int := 1
  const MaxYear: int := 9999

  predicate IsLeap(year: int) {
    year % 4 == 0 && (year % 100 != 0 || year % 400 == 0)
  }

  function DaysInYear(year: int): int {
    if IsLeap(year) then 366 else 365
  }

  function DaysInMonth(year: int, month: int): (n: int)
    requires 1 <= month <= 12
    ensures 28 <= n <= 31
    ensures n == 29 <==> month == 2 && IsLeap(year)
  {
    if month == 2 then (if IsLeap(year) then 29 else 28)
    else if month == 4 || month == 6 || month == 9 || month == 11 then 30
    else 31
  }

  /** The triples `datetime.date(year, month, day)` accepts without raising ValueError. */
  predicate ValidDate(d: Date) {
    MinYear <= d.year <= MaxYear && 1 <= d.month <= 12 && 1 <= d.day <= DaysInMonth(d.year, d.month)
  }

  /** `datetime.date(year, month, day)`: None stands for the ValueError it raises. */
  function MakeDate(year: int, month: int, day: int): (r: Option<Date>)
    ensures r.Some? <==> ValidDate(Date(year, month, day))
    ensures r.Some? ==> r.value == Date(year, month, day)
  {
    var d := Date(year, month, day);
    if ValidDate(d) then Some(d) else None
  }

  /** Days of a common year before the first of `month` (a cumulative month table). */
  function CommonDaysBeforeMonth(month: int): int
    requires 1 <= month <= 12
  {
    match month
    case 1 => 0
    case 2 => 31
    case 3 => 59
    case 4 => 90
    case 5 => 120
    case 6 => 151
    case 7 => 181
    case 8 => 212
    case 9 => 243
    case 10 => 273
    case 11 => 304
    case _ => 334
  }

  /** Days of `year` before the first of `month`, counting February 29 in leap years. */
  function DaysBeforeMonth(year: int, month: int): int
    requires 1 <= month <= 12
  {
    CommonDaysBeforeMonth(month) + (if month > 2 && IsLeap(year) then 1 else 0)
  }

  /** Days before January 1 of `year`, counted from January 1 of year 1 (closed form). */
  function DaysBeforeYear(year: int): int
    requires year >= 1
  {
    var y := year - 1;
    y * 365 + y / 4 - y / 100 + y / 400
  }

  /** `date.toordinal()`: January 1 of year 1 is day 1. */
  function Ordinal(d: Date): int
    requires ValidDate(d)
  {
    DaysBeforeYear(d.year) + DaysBeforeMonth(d.year, d.month) + d.day
  }

  /** `(today - d).days`: whole days from `d` to `today`, negative when `d` is later. */
  function Age(today: Date, d: Date): int
    requires ValidDate(today) && ValidDate(d)
  {
    Ordinal(today) - Ordinal(d)
  }

  /** Day numbers start at 1, on January 1 of year 1. */
  lemma OrdinalFromOne(d: Date)
    requires ValidDate(d)
    ensures Ordinal(d) >= 1
    ensures Ordinal(Date(MinYear, 1, 1)) == 1
  {
    assert DaysBeforeYear(MinYear) == 0;
    OrdinalWithinYear(d);
    if d.year > MinYear {
      DaysBeforeYearMonotonic(MinYear, d.year);
    }
  }

  /** The sign of an age: positive for a past date, zero for today, negative for a future one. */
  lemma AgeSign(today: Date, d: Date)
    requires ValidDate(today) && ValidDate(d)
    ensures Age(today, d) > 0 <==> Before(d, today)
    ensures Age(today, d) == 0 <==> d == today
    ensures Age(today, d) < 0 <==> Before(today, d)
  {
    OrdinalOrder(d, today);
    OrdinalOrder(today, d);
    OrdinalInjective(d, today);
  }

  /** Calendar order: earlier year, then earlier month, then earlier day. */
  predicate Before(a: Date, b: Date) {
    a.year < b.year
    || (a.year == b.year && a.month < b.month)
    || (a.year == b.year && a.month == b.month && a.day < b.day)
  }

  /** The calendar's next day, written independently of the ordinal arithmetic. */
  function NextDay(d: Date): Date
    requires ValidDate(d)
  {
    if d.day < DaysInMonth(d.year, d.month) then Date(d.year, d.month, d.day + 1)
    else if d.month < 12 then Date(d.year, d.month + 1, 1)
    else Date(d.year + 1, 1, 1)
  }

  /** The cumulative month table agrees with the month lengths, February 29 included. */
  lemma DaysBeforeMonthStep(year: int, month: int)
    requires 1 <= month <= 12
    ensures month < 12 ==> DaysBeforeMonth(year, month + 1) == DaysBeforeMonth(year, month) + DaysInMonth(year, month)
    ensures month == 12 ==> DaysBeforeMonth(year, month) + DaysInMonth(year, month) == DaysInYear(year)
  {
  }

  /** The closed form counts 366 days for exactly the leap years. */
  lemma DaysBeforeYearStep(year: int)
    requires year >= 1
    ensures DaysBeforeYear(year + 1) == DaysBeforeYear(year) + DaysInYear(year)
  {
    var y := year - 1;
    MultiplesStep(y);
  }

  /** Counting multiples of 4, 100 and 400: one more is reached exactly when `y + 1` is one. */
  lemma MultiplesStep(y: int)
    requires y >= 0
    ensures (y + 1) / 4 == y / 4 + (if (y + 1) % 4 == 0 then 1 else 0)
    ensures (y + 1) / 100 == y / 100 + (if (y + 1) % 100 == 0 then 1 else 0)
    ensures (y + 1) / 400 == y / 400 + (if (y + 1) % 400 == 0 then 1 else 0)
  {
    assert (y + 1) / 4 == y / 4 + (if (y + 1) % 4 == 0 then 1 else 0) by {
      if y % 4 == 3 { assert y + 1 == 4 * (y / 4 + 1); }
    }
    assert (y + 1) / 100 == y / 100 + (if (y + 1) % 100 == 0 then 1 else 0) by {
      if y % 100 == 99 { assert y + 1 == 100 * (y / 100 + 1); }
    }
    assert (y + 1) / 400 == y / 400 + (if (y + 1) % 400 == 0 then 1 else 0) by {
      if y % 400 == 399 { assert y + 1 == 400 * (y / 400 + 1); }
    }
  }

  lemma {:induction false} DaysBeforeYearMonotonic(y1: int, y2: int)
    requires 1 <= y1 < y2
    ensures DaysBeforeYear(y1) + DaysInYear(y1) <= DaysBeforeYear(y2)
    decreases y2 - y1
  {
    DaysBeforeYearStep(y1);
    if y1 + 1 < y2 {
      DaysBeforeYearMonotonic(y1 + 1, y2);
    }
  }

  lemma {:induction false} DaysBeforeMonthMonotonic(year: int, m1: int, m2: int)
    requires 1 <= m1 < m2 <= 12
    ensures DaysBeforeMonth(year, m1) + DaysInMonth(year, m1) <= DaysBeforeMonth(year, m2)
    decreases m2 - m1
  {
    DaysBeforeMonthStep(year, m1);
    if m1 + 1 < m2 {
      DaysBeforeMonthMonotonic(year, m1 + 1, m2);
    }
  }

  /** A date's ordinal lies within its own year's block of days. */
  lemma OrdinalWithinYear(d: Date)
    requires ValidDate(d)
    ensures DaysBeforeYear(d.year) < Ordinal(d) <= DaysBeforeYear(d.year) + DaysInYear(d.year)
  {
    if d.month < 12 {
      DaysBeforeMonthMonotonic(d.year, d.month, 12);
    }
    DaysBeforeMonthStep(d.year, 12);
  }

  /** Consecutive calendar days have consecutive ordinals, so Age counts days. */
  lemma OrdinalNextDay(d: Date)
    requires ValidDate(d) && d != Date(MaxYear, 12, 31)
    ensures ValidDate(NextDay(d))
    ensures Ordinal(NextDay(d)) == Ordinal(d) + 1
  {
    if d.day == DaysInMonth(d.year, d.month) {
      DaysBeforeMonthStep(d.year, d.month);
      if d.month == 12 {
        DaysBeforeYearStep(d.year);
      }
    }
  }

  /** Ordinals follow calendar order, in both directions. */
  lemma OrdinalOrder(a: Date, b: Date)
    requires ValidDate(a) && ValidDate(b)
    ensures Before(a, b) <==> Ordinal(a) < Ordinal(b)
  {
    if Before(a, b) {
      OrdinalBefore(a, b);
    } else if Before(b, a) {
      OrdinalBefore(b, a);
    }
  }

  /** Distinct dates have distinct ordinals. */
  lemma OrdinalInjective(a: Date, b: Date)
    requires ValidDate(a) && ValidDate(b)
    ensures Ordinal(a) == Ordinal(b) <==> a == b
  {
    OrdinalOrder(a, b);
    OrdinalOrder(b, a);
  }

  lemma OrdinalBefore(a: Date, b: Date)
    requires ValidDate(a) && ValidDate(b) && Before(a, b)
    ensures Ordinal(a) < Ordinal(b)
  {
    if a.year < b.year {
      OrdinalWithinYear(a);
      OrdinalWithinYear(b);
      DaysBeforeYearMonotonic(a.year, b.year);
    } else if a.month < b.month {
      DaysBeforeMonthMonotonic(a.year, a.month, b.month);
    }
  }

  /** Worked age within one month. */
  lemma AgeWithinMonth()
    ensures Age(Date(2025, 1, 10), Date(2025, 1, 1)) == 9
  {
  }

  /** Worked age across a year end. */
  lemma AgeAcrossYearEnd()
    ensures Age(Date(2025, 1, 1), Date(2024, 12, 31)) == 1
  {
  }

  /** Worked age across February 29 of a leap year. */
  lemma AgeAcrossLeapDay()
    ensures Age(Date(2024, 3, 1), Date(2024, 2, 28)) == 2
  {
  }
}
