/** The part of Python's `datetime` that the interval calculator relies on, at one-second
    resolution and without time zones: the proleptic Gregorian calendar, `date.toordinal`,
    tuple-order comparison, subtraction read back through `timedelta.days`, and
    `datetime.replace` for the year and month fields. */
module Calendar {
  import opened Results

  const MinYear := 1
  const MaxYear := 9999
  const SecondsPerDay := 86400

  /** The six fields of a naive datetime, before any range check. */
  datatype RawDateTime = RawDateTime(year: int, month: int, day: int, hour: int, minute: int, second: int)

  /** Gregorian leap rule: every fourth year, except centuries not divisible by 400. */
  predicate IsLeapYear(year: int) {
    year % 4 == 0 && (year % 100 != 0 || year % 400 == 0)
  }

  function DaysInMonth(year: int, month: int): (n: int)
    requires 1 <= month <= 12
    ensures 28 <= n <= 31
    ensures n == 29 <==> month == 2 && IsLeapYear(year)
  {
    if month == 2 then (if IsLeapYear(year) then 29 else 28)
    else if month == 4 || month == 6 || month == 9 || month == 11 then 30
    else 31
  }

  function DaysInYear(year: int): int {
    if IsLeapYear(year) then 366 else 365
  }

  /** The checks Python's datetime constructor (and `replace`) performs on its fields. */
  predicate IsValid(d: RawDateTime) {
    && MinYear <= d.year <= MaxYear
    && 1 <= d.month <= 12
    && 1 <= d.day <= DaysInMonth(d.year, d.month)
    && 0 <= d.hour < 24
    && 0 <= d.minute < 60
    && 0 <= d.second < 60
  }

  /** A datetime value as Python holds it: always within range. */
  type DateTime = d: RawDateTime | IsValid(d) witness RawDateTime(1, 1, 1, 0, 0, 0)

  /** Days in the years before `year`, as `_days_before_year` computes it. */
  function DaysBeforeYear(year: int): int
    requires year >= 1
  {
    var y := year - 1;
    y * 365 + y / 4 - y / 100 + y / 400
  }

  /** Days in the months of `year` before `month`, as `_days_before_month` computes it. */
  function DaysBeforeMonth(year: int, month: int): int
    requires 1 <= month <= 12
  {
    var table := [-1, 0, 31, 59, 90, 120, 151, 181, 212, 243, 273, 304, 334];
    table[month] + (if month > 2 && IsLeapYear(year) then 1 else 0)
  }

  /** `date.toordinal`: day 1 is January 1 of year 1, and the days of a year follow the
      days of all the years before it. */
  function Ordinal(year: int, month: int, day: int): (n: int)
    requires year >= 1 && 1 <= month <= 12
    ensures 1 <= day <= DaysInMonth(year, month) ==> DaysBeforeYear(year) < n <= DaysBeforeYear(year) + DaysInYear(year)
  {
    DaysBeforeMonthWithinYear(year, month);
    DaysBeforeYear(year) + DaysBeforeMonth(year, month) + day
  }

  function SecondOfDay(d: DateTime): (s: int)
    ensures 0 <= s < SecondsPerDay
  {
    d.hour * 3600 + d.minute * 60 + d.second
  }

  /** Seconds since the start of day 0; subtraction of datetimes is subtraction of these. */
  function TotalSeconds(d: DateTime): (s: int)
    ensures Ordinal(d.year, d.month, d.day) * SecondsPerDay <= s < Ordinal(d.year, d.month, d.day) * SecondsPerDay + SecondsPerDay
  {
    Ordinal(d.year, d.month, d.day) * SecondsPerDay + SecondOfDay(d)
  }

  /** `(a - b).days`: `timedelta` normalises its seconds into [0, 86400), so the day count
      is the floor of the elapsed seconds over 86400 (Dafny's `/` floors for a positive divisor). */
  function SubtractDays(a: DateTime, b: DateTime): (n: int)
    ensures n * SecondsPerDay <= TotalSeconds(a) - TotalSeconds(b) < (n + 1) * SecondsPerDay
  {
    (TotalSeconds(a) - TotalSeconds(b)) / SecondsPerDay
  }

  /** Python compares datetimes as the tuples (year, month, day, hour, minute, second). */
  predicate Before(a: DateTime, b: DateTime) {
    || a.year < b.year
    || (a.year == b.year && a.month < b.month)
    || (a.year == b.year && a.month == b.month && DayTimeBefore(a, b))
  }

  /** The tuple order restricted to (day, hour, minute, second). */
  predicate DayTimeBefore(a: DateTime, b: DateTime) {
    || a.day < b.day
    || (a.day == b.day && a.hour < b.hour)
    || (a.day == b.day && a.hour == b.hour && a.minute < b.minute)
    || (a.day == b.day && a.hour == b.hour && a.minute == b.minute && a.second < b.second)
  }

  /** `a > b`. */
  predicate After(a: DateTime, b: DateTime) {
    Before(b, a)
  }

  /** `d.replace(year=year, month=month)`: the other fields are kept, and the constructor's
      range checks are repeated, so a day that does not exist in the new month is rejected. */
  function Replace(d: DateTime, year: int, month: int): (r: Option<DateTime>)
    ensures r.Some? <==> MinYear <= year <= MaxYear && 1 <= month <= 12 && d.day <= DaysInMonth(year, month)
    ensures r.Some? ==> && r.value.year == year && r.value.month == month && r.value.day == d.day
                        && r.value.hour == d.hour && r.value.minute == d.minute && r.value.second == d.second
  {
    if MinYear <= year <= MaxYear && 1 <= month <= 12 && d.day <= DaysInMonth(year, month) then
      Some(d.(year := year, month := month))
    else
      None
  }

  // ---------------------------------------------------------------------------
  // The ordinal counts days

  /** A year contributes exactly its own length to the days before the next year. */
  lemma DaysBeforeNextYear(year: int)
    requires year >= 1
    ensures DaysBeforeYear(year + 1) == DaysBeforeYear(year) + DaysInYear(year)
  {
    DivisionStep(year, 4);
    DivisionStep(year, 100);
    DivisionStep(year, 400);
    if year % 400 == 0 {
      MultipleOf400(year);
    }
    if year % 100 == 0 {
      MultipleOf100(year);
    }
  }

  /** A multiple of 400 is a multiple of 100. */
  lemma MultipleOf400(n: int)
    requires n % 400 == 0
    ensures n % 100 == 0
  {
    var q := n / 400;
    assert n == 400 * q;
    assert n == 100 * (4 * q) + 0;
  }

  /** A multiple of 100 is a multiple of 4. */
  lemma MultipleOf100(n: int)
    requires n % 100 == 0
    ensures n % 4 == 0
  {
    var q := n / 100;
    assert n == 100 * q;
    assert n == 4 * (25 * q) + 0;
  }

  /** Going from `n - 1` to `n`, the quotient by a divisor of the leap rule grows by one
      exactly when the divisor divides `n`. */
  lemma DivisionStep(n: int, k: int)
    requires k == 4 || k == 100 || k == 400
    ensures n / k == (n - 1) / k + (if n % k == 0 then 1 else 0)
  {
    if k == 4 {
      assert n / 4 == (n - 1) / 4 + (if n % 4 == 0 then 1 else 0);
    } else if k == 100 {
      assert n / 100 == (n - 1) / 100 + (if n % 100 == 0 then 1 else 0);
    } else {
      assert n / 400 == (n - 1) / 400 + (if n % 400 == 0 then 1 else 0);
    }
  }

  lemma {:induction false} DaysBeforeYearGrows(y1: int, y2: int)
    requires 1 <= y1 < y2
    ensures DaysBeforeYear(y1) + DaysInYear(y1) <= DaysBeforeYear(y2)
    decreases y2 - y1
  {
    DaysBeforeNextYear(y1);
    if y1 + 1 < y2 {
      DaysBeforeYearGrows(y1 + 1, y2);
    }
  }

  /** A month contributes exactly its own length to the days before the next month,
      and December ends the year. */
  lemma DaysBeforeNextMonth(year: int, month: int)
    requires 1 <= month <= 12
    ensures month < 12 ==> DaysBeforeMonth(year, month + 1) == DaysBeforeMonth(year, month) + DaysInMonth(year, month)
    ensures month == 12 ==> DaysBeforeMonth(year, month) + DaysInMonth(year, month) == DaysInYear(year)
  {
  }

  lemma {:induction false} DaysBeforeMonthGrows(year: int, m1: int, m2: int)
    requires 1 <= m1 < m2 <= 12
    ensures DaysBeforeMonth(year, m1) + DaysInMonth(year, m1) <= DaysBeforeMonth(year, m2)
    decreases m2 - m1
  {
    DaysBeforeNextMonth(year, m1);
    if m1 + 1 < m2 {
      DaysBeforeNextMonth(year, m1 + 1);
      DaysBeforeMonthGrows(year, m1 + 1, m2);
    }
  }

  /** The months before `month`, and `month` itself, fit in the year. */
  lemma DaysBeforeMonthWithinYear(year: int, month: int)
    requires 1 <= month <= 12
    ensures 0 <= DaysBeforeMonth(year, month)
    ensures DaysBeforeMonth(year, month) + DaysInMonth(year, month) <= DaysInYear(year)
  {
    if month < 12 {
      DaysBeforeMonthGrows(year, month, 12);
    }
    DaysBeforeNextMonth(year, 12);
  }

  /** The ordinal is strictly increasing in the calendar order of the dates. */
  lemma OrdinalIncreasing(a: DateTime, b: DateTime)
    requires a.year < b.year || (a.year == b.year && (a.month < b.month || (a.month == b.month && a.day < b.day)))
    ensures Ordinal(a.year, a.month, a.day) < Ordinal(b.year, b.month, b.day)
  {
    if a.year < b.year {
      DaysBeforeYearGrows(a.year, b.year);
    } else if a.month < b.month {
      DaysBeforeMonthGrows(a.year, a.month, b.month);
    }
  }

  /** Python's tuple order on datetimes is the order of their elapsed seconds. */
  lemma BeforeIsEarlier(a: DateTime, b: DateTime)
    ensures Before(a, b) <==> TotalSeconds(a) < TotalSeconds(b)
    ensures a == b <==> TotalSeconds(a) == TotalSeconds(b)
  {
    var oa, ob := Ordinal(a.year, a.month, a.day), Ordinal(b.year, b.month, b.day);
    if a.year != b.year || a.month != b.month || a.day != b.day {
      if a.year < b.year || (a.year == b.year && (a.month < b.month || (a.month == b.month && a.day < b.day))) {
        OrdinalIncreasing(a, b);
        assert (oa + 1) * SecondsPerDay <= ob * SecondsPerDay;
        assert Before(a, b);
      } else {
        OrdinalIncreasing(b, a);
        assert (ob + 1) * SecondsPerDay <= oa * SecondsPerDay;
        assert Before(b, a);
      }
    }
  }

  /** `>` is the elapsed-seconds order, and it is total: `not a > b` is `a < b` or `a == b`. */
  lemma ComparisonIsTotal(a: DateTime, b: DateTime)
    ensures After(a, b) <==> TotalSeconds(a) > TotalSeconds(b)
    ensures !After(a, b) <==> Before(a, b) || a == b
    ensures !(Before(a, b) && After(a, b))
  {
    BeforeIsEarlier(a, b);
    BeforeIsEarlier(b, a);
  }

  /** Subtracting an earlier datetime gives a non-negative day count, and zero for equal ones. */
  lemma SubtractDaysNonNegative(a: DateTime, b: DateTime)
    requires !After(b, a)
    ensures SubtractDays(a, b) >= 0
    ensures a == b ==> SubtractDays(a, b) == 0
  {
    BeforeIsEarlier(a, b);
  }

  /** Within one month, a difference of datetimes is a difference of (day, time-of-day). */
  lemma SubtractDaysSameMonth(a: DateTime, b: DateTime)
    requires a.year == b.year && a.month == b.month
    ensures TotalSeconds(a) - TotalSeconds(b) == (a.day - b.day) * SecondsPerDay + SecondOfDay(a) - SecondOfDay(b)
    ensures SubtractDays(a, b) < 0 <==> DayTimeBefore(a, b)
  {
    var diff := (a.day - b.day) * SecondsPerDay + SecondOfDay(a) - SecondOfDay(b);
    assert TotalSeconds(a) - TotalSeconds(b) == diff;
    if DayTimeBefore(a, b) {
      if a.day < b.day {
        assert (a.day - b.day) * SecondsPerDay <= -SecondsPerDay;
      }
      assert diff < 0;
    } else {
      if a.day > b.day {
        assert (a.day - b.day) * SecondsPerDay >= SecondsPerDay;
      }
      assert diff >= 0;
    }
  }

  /** Consecutive calendar days have consecutive ordinals. */
  lemma OrdinalSuccessor(d: DateTime)
    ensures d.day < DaysInMonth(d.year, d.month) ==> Ordinal(d.year, d.month, d.day + 1) == Ordinal(d.year, d.month, d.day) + 1
    ensures d.day == DaysInMonth(d.year, d.month) && d.month < 12 ==> Ordinal(d.year, d.month + 1, 1) == Ordinal(d.year, d.month, d.day) + 1
    ensures d.day == DaysInMonth(d.year, d.month) && d.month == 12 ==> Ordinal(d.year + 1, 1, 1) == Ordinal(d.year, d.month, d.day) + 1
  {
    DaysBeforeNextMonth(d.year, d.month);
    DaysBeforeNextYear(d.year);
  }

  /** The first day of the calendar is day 1. */
  lemma OrdinalOfFirstDay()
    ensures Ordinal(1, 1, 1) == 1
  {
  }

  /** 2024-01-01 is day 738886. */
  lemma OrdinalOfNewYear2024()
    ensures Ordinal(2024, 1, 1) == 738886
  {
    assert DaysBeforeMonth(2024, 1) == 0;
    assert 2023 * 365 == 738395 && 2023 / 4 == 505 && 2023 / 100 == 20 && 2023 / 400 == 5;
    assert DaysBeforeYear(2024) == 738885;
  }
}
