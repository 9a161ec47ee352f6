/** `calculate_interval(start, end, unit)`: both endpoints go through the date adapter with
    the default pattern, an inverted range is refused, the gap is broken down into whole
    years and months (with borrows) next to the whole elapsed days, `auto` picks the most
    significant non-zero unit, and the result is converted to the unit asked for. */
module IntervalCalculator {
  import opened Results
  import opened Calendar
  import opened DateUtils

  /** The units the final conversion knows; `auto` is resolved to one of them beforehand. */
  const ConcreteUnits: set<string> := {"years", "months", "days", "hours", "minutes", "seconds"}

  /** Never consulted: the calculator parses text only with the default pattern. */
  const NoOtherPattern: (string, string) -> Option<DateTime> := (text, format) => None

  /** Whole years and remaining whole months of the gap. */
  datatype Breakdown = Breakdown(years: int, months: int)

  /** Lines 47-48 and 51-59: field differences, a borrow from the years when the month
      difference is negative, then one month borrowed when `borrowDay` (the leftover days
      were negative), again borrowing a year if the months drop below zero. */
  function Decompose(start: DateTime, end: DateTime, borrowDay: bool): (b: Breakdown)
    ensures 0 <= b.months <= 11
    ensures 12 * b.years + b.months == MonthIndex(end) - MonthIndex(start) - (if borrowDay then 1 else 0)
  {
    var years := end.year - start.year;
    var months := end.month - start.month;
    var b := if months < 0 then Breakdown(years - 1, months + 12) else Breakdown(years, months);
    if borrowDay then
      (if b.months - 1 < 0 then Breakdown(b.years - 1, b.months - 1 + 12) else Breakdown(b.years, b.months - 1))
    else b
  }

  /** Lines 62-68: `auto` becomes `years` if any whole year elapsed, else `months` if any
      whole month did, else `days`; any other unit is left as it is. */
  function ResolveUnit(unit: string, b: Breakdown): (r: string)
    ensures unit != "auto" ==> r == unit
    ensures unit == "auto" ==> r in ConcreteUnits
  {
    if unit == "auto" then
      (if b.years > 0 then "years" else if b.months > 0 then "months" else "days")
    else unit
  }

  /** Lines 71-84. */
  function Convert(unit: string, b: Breakdown, totalDays: int): (r: Result<int, Err>)
    ensures r.Failure? <==> unit !in ConcreteUnits
    ensures r.Failure? ==> r.error == UnsupportedUnit(unit)
    ensures b.years >= 0 && b.months >= 0 && totalDays >= 0 && r.Success? ==> r.value >= 0
  {
    if unit == "years" then Success(b.years)
    else if unit == "months" then Success(b.years * 12 + b.months)
    else if unit == "days" then Success(totalDays)
    else if unit == "hours" then Success(totalDays * 24)
    else if unit == "minutes" then Success(totalDays * 24 * 60)
    else if unit == "seconds" then Success(totalDays * 24 * 60 * 60)
    else Failure(UnsupportedUnit(unit))
  }

  /** Lines 40-84, once both endpoints are datetimes. The checks come in this order: the
      range, then the anchor `start.replace(year=end.year, month=end.month)`, then the unit. */
  function Interval(start: DateTime, end: DateTime, unit: string): (r: Result<int, Err>)
    ensures After(start, end) ==> r == Failure(InvertedRange)
    ensures !After(start, end) && start.day > DaysInMonth(end.year, end.month) ==> r == Failure(InvalidReplace)
    ensures !After(start, end) && start.day <= DaysInMonth(end.year, end.month) && unit != "auto" && unit !in ConcreteUnits ==>
              r == Failure(UnsupportedUnit(unit))
    ensures r.Success? ==> r.value >= 0
  {
    if After(start, end) then Failure(InvertedRange)
    else
      var totalDays := SubtractDays(end, start);
      match Replace(start, end.year, end.month)
      case None => Failure(InvalidReplace)
      case Some(anchor) =>
        var days := SubtractDays(end, anchor);
        var b := Decompose(start, end, days < 0);
        SubtractDaysNonNegative(end, start);
        LeftoverNegative(start, end, anchor);
        WholeMonths(start, end);
        Convert(ResolveUnit(unit, b), b, totalDays)
  }

  /** Lines 36-37 for one endpoint: a datetime is kept, and text is parsed with the default
      pattern; `None` where `parse_date` raises. This is `ParseDate` seen from the calculator.
      It has neither the pattern argument nor the unused `otherPattern`, so that the contract
      of `CalculateInterval` can name each normalised endpoint in one term, whatever mix of
      text and datetime it is given. */
  function Endpoint(v: DateValue): (r: Option<DateTime>)
    ensures r.Some? <==> ParseDate(v, NoOtherPattern).Success?
    ensures r.Some? ==> r.value == ParseDate(v, NoOtherPattern).value
    ensures v.Parsed? ==> r == Some(v.dt)
  {
    match v
    case Parsed(dt) => Some(dt)
    case Text(t) => StrptimeDefault(t)
  }

  /** Lines 19-84: the entry point. Each endpoint is normalised on its own, start first, and
      a failure to parse is reported before anything else is looked at. */
  function CalculateInterval(start: DateValue, end: DateValue, unit: string := "auto"): (r: Result<int, Err>)
    ensures start.Text? && Endpoint(start).None? ==> r == Failure(InvalidFormat(DefaultFormat, start.text))
    ensures Endpoint(start).Some? && end.Text? && Endpoint(end).None? ==> r == Failure(InvalidFormat(DefaultFormat, end.text))
    ensures Endpoint(start).Some? && Endpoint(end).Some? ==> r == Interval(Endpoint(start).value, Endpoint(end).value, unit)
  {
    match ParseDate(start, NoOtherPattern)
    case Failure(e) => Failure(e)
    case Success(s) =>
      match ParseDate(end, NoOtherPattern)
      case Failure(e) => Failure(e)
      case Success(e) => Interval(s, e, unit)
  }

  // ---------------------------------------------------------------------------
  // The breakdown counts whole calendar months

  function MonthIndex(d: DateTime): int {
    12 * d.year + d.month
  }

  /** `start` moved forward by `k` calendar months, keeping its day and time of day, is not
      later than `end` (compared as month, then day and time of day). */
  predicate ReachedAfterMonths(start: DateTime, end: DateTime, k: int) {
    || MonthIndex(start) + k < MonthIndex(end)
    || (MonthIndex(start) + k == MonthIndex(end) && !DayTimeBefore(end, start))
  }

  /** Borrowing exactly when end's day and time of day come before start's gives the number
      of whole calendar months from start to end, split into years and months 0..11. */
  lemma WholeMonths(start: DateTime, end: DateTime)
    requires !After(start, end)
    ensures var b := Decompose(start, end, DayTimeBefore(end, start));
            var total := 12 * b.years + b.months;
            && b.years >= 0 && 0 <= b.months <= 11
            && total >= 0
            && ReachedAfterMonths(start, end, total) && !ReachedAfterMonths(start, end, total + 1)
  {
    var b := Decompose(start, end, DayTimeBefore(end, start));
    var borrow := if DayTimeBefore(end, start) then 1 else 0;
    assert 12 * b.years + b.months == MonthIndex(end) - MonthIndex(start) - borrow;
  }

  /** Lines 49 and 55: the leftover days against the anchor are negative exactly when end's
      (day, time of day) comes before start's. */
  lemma LeftoverNegative(start: DateTime, end: DateTime, anchor: DateTime)
    requires Replace(start, end.year, end.month) == Some(anchor)
    ensures SubtractDays(end, anchor) < 0 <==> DayTimeBefore(end, start)
  {
    SubtractDaysSameMonth(end, anchor);
  }

  // ---------------------------------------------------------------------------
  // Properties of the calculation

  /** Lines 40-41: the result is `InvertedRange` exactly when start is later than end, that
      is, when more seconds have elapsed at start than at end, whatever the unit. */
  lemma InvertedRangeExactly(start: DateTime, end: DateTime, unit: string)
    ensures Interval(start, end, unit) == Failure(InvertedRange) <==> After(start, end)
    ensures After(start, end) <==> TotalSeconds(start) > TotalSeconds(end)
  {
    BeforeIsEarlier(end, start);
  }

  /** Line 49: with an ordered range, the result is `InvalidReplace` exactly when start's
      day does not exist in end's month, whatever the unit. */
  lemma InvalidReplaceExactly(start: DateTime, end: DateTime, unit: string)
    requires !After(start, end)
    ensures Interval(start, end, unit) == Failure(InvalidReplace) <==> start.day > DaysInMonth(end.year, end.month)
  {
  }

  /** Lines 47-59: when the anchor exists, the borrow on the leftover days is the borrow on
      (day, time of day), so the breakdown has whole years and months 0..11 and counts the
      whole calendar months elapsed. */
  lemma BreakdownWholeMonths(start: DateTime, end: DateTime, anchor: DateTime)
    requires !After(start, end) && Replace(start, end.year, end.month) == Some(anchor)
    ensures var b := Decompose(start, end, SubtractDays(end, anchor) < 0);
            var total := 12 * b.years + b.months;
            && b.years >= 0 && 0 <= b.months <= 11
            && ReachedAfterMonths(start, end, total) && !ReachedAfterMonths(start, end, total + 1)
  {
    LeftoverNegative(start, end, anchor);
    WholeMonths(start, end);
  }

  /** Lines 71-74: the `months` result is twelve times the `years` result plus the months
      0..11, so `years` is `months` divided by 12, rounded down. */
  lemma MonthsAndYears(start: DateTime, end: DateTime)
    requires Interval(start, end, "months").Success?
    ensures var m := Interval(start, end, "months").value;
            && m >= 0
            && Interval(start, end, "years") == Success(m / 12)
            && ReachedAfterMonths(start, end, m) && !ReachedAfterMonths(start, end, m + 1)
  {
    var anchor := Replace(start, end.year, end.month).value;
    var b := Decompose(start, end, SubtractDays(end, anchor) < 0);
    BreakdownWholeMonths(start, end, anchor);
    assert Interval(start, end, "months") == Success(12 * b.years + b.months);
    assert Interval(start, end, "years") == Success(b.years);
    assert (12 * b.years + b.months) / 12 == b.years;
  }

  /** Lines 47-59 and 72: the `months` result is the difference of the month indices, less
      one when end's day and time of day come before start's. */
  lemma MonthsCount(start: DateTime, end: DateTime)
    requires Interval(start, end, "months").Success?
    ensures Interval(start, end, "months").value ==
              MonthIndex(end) - MonthIndex(start) - (if DayTimeBefore(end, start) then 1 else 0)
  {
    var anchor := Replace(start, end.year, end.month).value;
    LeftoverNegative(start, end, anchor);
  }

  /** Lines 44 and 75-82: `days` is the floor of the elapsed seconds over 86400, never
      negative, and `hours`, `minutes` and `seconds` are 24, 1440 and 86400 times it. */
  lemma DayBasedUnits(start: DateTime, end: DateTime)
    requires Interval(start, end, "days").Success?
    ensures var n := Interval(start, end, "days").value;
            && n >= 0
            && n * 86400 <= TotalSeconds(end) - TotalSeconds(start) < (n + 1) * 86400
            && Interval(start, end, "hours") == Success(24 * n)
            && Interval(start, end, "minutes") == Success(1440 * n)
            && Interval(start, end, "seconds") == Success(86400 * n)
  {
    var n := SubtractDays(end, start);
    var anchor := Replace(start, end.year, end.month).value;
    var b := Decompose(start, end, SubtractDays(end, anchor) < 0);
    assert Interval(start, end, "days") == Convert("days", b, n);
    assert Interval(start, end, "hours") == Convert("hours", b, n);
    assert Interval(start, end, "minutes") == Convert("minutes", b, n);
    assert Interval(start, end, "seconds") == Convert("seconds", b, n);
    assert n * 24 * 60 == 1440 * n && n * 24 * 60 * 60 == 86400 * n;
  }

  /** Equal endpoints give 0 in every unit, `auto` included. */
  lemma EqualEndpoints(d: DateTime, unit: string)
    requires unit == "auto" || unit in ConcreteUnits
    ensures Interval(d, d, unit) == Success(0)
  {
    SubtractDaysNonNegative(d, d);
    var anchor := Replace(d, d.year, d.month).value;
    assert anchor == d;
  }

  /** Lines 62-68: `auto` gives the `years` result if it is positive, else the `months`
      result if the months are positive, else the `days` result; the leftover days are not
      consulted. In calendar terms: `days` below one whole month, `months` from one whole
      month to below twelve, `years` from twelve whole months on. */
  lemma AutoUnit(start: DateTime, end: DateTime)
    requires !After(start, end) && start.day <= DaysInMonth(end.year, end.month)
    ensures var years := Interval(start, end, "years").value;
            var months := Interval(start, end, "months").value - 12 * years;
            && Interval(start, end, "years").Success? && Interval(start, end, "months").Success?
            && Interval(start, end, "auto") ==
                 (if years > 0 then Interval(start, end, "years")
                  else if months > 0 then Interval(start, end, "months")
                  else Interval(start, end, "days"))
    ensures Interval(start, end, "auto") ==
              (if ReachedAfterMonths(start, end, 12) then Interval(start, end, "years")
               else if ReachedAfterMonths(start, end, 1) then Interval(start, end, "months")
               else Interval(start, end, "days"))
  {
    var anchor := Replace(start, end.year, end.month).value;
    BreakdownWholeMonths(start, end, anchor);
  }

  /** Lines 83-84: a unit outside the seven names is refused with that name, once the range
      and the anchor are accepted. */
  lemma UnsupportedUnitCarriesName(start: DateTime, end: DateTime, unit: string)
    requires !After(start, end) && start.day <= DaysInMonth(end.year, end.month)
    ensures Interval(start, end, unit).Failure? <==> unit != "auto" && unit !in ConcreteUnits
    ensures Interval(start, end, unit).Failure? ==> Interval(start, end, unit).error == UnsupportedUnit(unit)
  {
  }

  // ---------------------------------------------------------------------------
  // The calculation without the anchor, so without a spurious `InvalidReplace`

  /** The docstring (lines 32-33) reserves `ValueError` for an unsupported unit and invalid
      date inputs, so a valid ordered range with a known unit is meant to give a number:
      2023-01-31 to 2023-02-28 in `days` is meant to give 28. This version of lines 47-59
      borrows a month when end's day and time of day come before start's, without building
      the anchor of line 49. It agrees with `Interval` whenever that anchor exists, and
      unlike it never fails for a start day missing from end's month. */
  function IntervalIntended(start: DateTime, end: DateTime, unit: string): (r: Result<int, Err>)
    ensures r.Failure? <==> After(start, end) || (unit != "auto" && unit !in ConcreteUnits)
    ensures r.Failure? ==> r.error == (if After(start, end) then InvertedRange else UnsupportedUnit(unit))
    ensures r.Success? ==> r.value >= 0
  {
    if After(start, end) then Failure(InvertedRange)
    else
      var b := Decompose(start, end, DayTimeBefore(end, start));
      SubtractDaysNonNegative(end, start);
      WholeMonths(start, end);
      Convert(ResolveUnit(unit, b), b, SubtractDays(end, start))
  }

  lemma IntendedAgreesWhenAnchorExists(start: DateTime, end: DateTime, unit: string)
    requires start.day <= DaysInMonth(end.year, end.month)
    ensures Interval(start, end, unit) == IntervalIntended(start, end, unit)
  {
    if !After(start, end) {
      LeftoverNegative(start, end, Replace(start, end.year, end.month).value);
    }
  }

  /** The intended `days` result is the whole elapsed days, as in the source. */
  lemma IntendedDays(start: DateTime, end: DateTime)
    requires !After(start, end)
    ensures IntervalIntended(start, end, "days") == Success(SubtractDays(end, start))
  {
  }

  /** For every ordered range the intended `months` result counts the whole calendar months
      elapsed, and `years` is it divided by 12. */
  lemma IntendedWholeMonths(start: DateTime, end: DateTime)
    requires !After(start, end)
    ensures IntervalIntended(start, end, "months").Success?
    ensures var m := IntervalIntended(start, end, "months").value;
            && IntervalIntended(start, end, "years") == Success(m / 12)
            && ReachedAfterMonths(start, end, m) && !ReachedAfterMonths(start, end, m + 1)
  {
    var b := Decompose(start, end, DayTimeBefore(end, start));
    WholeMonths(start, end);
    assert IntervalIntended(start, end, "months") == Success(12 * b.years + b.months);
    assert IntervalIntended(start, end, "years") == Success(b.years);
    assert (12 * b.years + b.months) / 12 == b.years;
  }

  /** From the last day of a month to the last day of a shorter next month in the same year,
      at the same time of day (2023-01-31 to 2023-02-28, say): the source fails at line 49,
      although as many days elapsed as the end's day number, and the intended calculation
      gives that number. */
  lemma MonthEndStartFails(s: DateTime, e: DateTime)
    requires s.year == e.year && e.month == s.month + 1
    requires s.day == DaysInMonth(s.year, s.month) && e.day == DaysInMonth(e.year, e.month) < s.day
    requires s.hour == e.hour && s.minute == e.minute && s.second == e.second
    ensures Interval(s, e, "days") == Failure(InvalidReplace)
    ensures IntervalIntended(s, e, "days") == Success(e.day)
  {
    assert !After(s, e);
    InvalidReplaceExactly(s, e, "days");
    DaysBeforeNextMonth(s.year, s.month);
    assert SubtractDays(e, s) == e.day by {
      assert TotalSeconds(e) - TotalSeconds(s) == e.day * SecondsPerDay;
    }
    IntendedDays(s, e);
  }

  // ---------------------------------------------------------------------------
  // Shapes of ranges

  /** From one month into the next without going back in (day, time of day) (2024-01-01 to
      2024-02-29, say): one whole month, and `auto` resolves to `months`. */
  lemma IntoNextMonthIsOneMonth(s: DateTime, e: DateTime)
    requires MonthIndex(e) == MonthIndex(s) + 1 && !DayTimeBefore(e, s)
    ensures Interval(s, e, "months") == Success(1)
    ensures Interval(s, e, "auto") == Success(1)
  {
    assert !After(s, e);
    UnsupportedUnitCarriesName(s, e, "months");
    MonthsCount(s, e);
    MonthsAndYears(s, e);
    AutoUnit(s, e);
  }

  /** Between the same calendar day and time of day in two years, the whole years are the
      difference of the years and no month is left over. */
  lemma AnniversaryIsWholeYears(s: DateTime, e: DateTime)
    requires s.year <= e.year && s.month == e.month && s.day == e.day
    requires s.hour == e.hour && s.minute == e.minute && s.second == e.second
    ensures Interval(s, e, "months") == Success(12 * (e.year - s.year))
    ensures Interval(s, e, "years") == Success(e.year - s.year)
  {
    assert !After(s, e);
    assert Interval(s, e, "months") == Success(12 * (e.year - s.year)) by {
      UnsupportedUnitCarriesName(s, e, "months");
      MonthsCount(s, e);
    }
    assert 12 * (e.year - s.year) / 12 == e.year - s.year;
    MonthsAndYears(s, e);
  }

  /** From a February 29 to March 1 of the following year, at any times of day (for
      example 2024-02-29 to 2025-03-01): the anchor is March 29, which exists; the leftover
      days are negative, so twelve whole months, that is one year, remain. */
  lemma LeapDayToMarchIsOneYear(s: DateTime, e: DateTime)
    requires s.month == 2 && s.day == 29 && e.year == s.year + 1 && e.month == 3 && e.day == 1
    ensures Interval(s, e, "months") == Success(12)
    ensures Interval(s, e, "years") == Success(1)
    ensures Interval(s, e, "auto") == Success(1)
  {
    assert !After(s, e);
    UnsupportedUnitCarriesName(s, e, "months");
    MonthsCount(s, e);
    MonthsAndYears(s, e);
    AutoUnit(s, e);
  }

  /** From December 31 to January 1 of the next year at the same time of day: the anchor is
      January 31, the months borrowed away leave no whole month, and `auto` gives one day. */
  lemma YearEndToNewYearIsOneDay(s: DateTime, e: DateTime)
    requires s.month == 12 && s.day == 31 && e.year == s.year + 1 && e.month == 1 && e.day == 1
    requires s.hour == e.hour && s.minute == e.minute && s.second == e.second
    ensures Interval(s, e, "months") == Success(0)
    ensures Interval(s, e, "auto") == Success(1)
  {
    assert !After(s, e);
    assert Interval(s, e, "months") == Success(0) by {
      UnsupportedUnitCarriesName(s, e, "months");
      MonthsCount(s, e);
    }
    assert Interval(s, e, "years") == Success(0) by {
      MonthsAndYears(s, e);
    }
    assert Interval(s, e, "days") == Success(1) by {
      assert TotalSeconds(e) - TotalSeconds(s) == SecondsPerDay by {
        OrdinalSuccessor(s);
      }
      DayBasedUnits(s, e);
    }
    assert Interval(s, e, "auto") == Success(1) by {
      AutoUnit(s, e);
    }
  }

  /** From a February 29 to a February of a later common year (2024-02-29 to 2025-02-28,
      say): February 29 does not exist in the end's year, so the anchor cannot be built and
      the call fails whatever the unit, although the intended calculation gives a result. */
  lemma LeapDayToCommonFebruaryFails(s: DateTime, e: DateTime, unit: string)
    requires s.month == 2 && s.day == 29 && e.month == 2 && s.year < e.year && !IsLeapYear(e.year)
    requires unit == "auto" || unit in ConcreteUnits
    ensures Interval(s, e, unit) == Failure(InvalidReplace)
    ensures IntervalIntended(s, e, unit).Success?
  {
    InvalidReplaceExactly(s, e, unit);
  }

  /** The first failure, on the dates it is usually seen with. */
  lemma JanuaryEndExample()
    ensures Interval(RawDateTime(2023, 1, 31, 0, 0, 0), RawDateTime(2023, 2, 28, 0, 0, 0), "days") == Failure(InvalidReplace)
    ensures IntervalIntended(RawDateTime(2023, 1, 31, 0, 0, 0), RawDateTime(2023, 2, 28, 0, 0, 0), "days") == Success(28)
  {
    MonthEndStartFails(RawDateTime(2023, 1, 31, 0, 0, 0), RawDateTime(2023, 2, 28, 0, 0, 0));
  }

  // ---------------------------------------------------------------------------
  // Sample calls

  /** Equal texts give 0. */
  lemma SameDayIsZero()
    ensures CalculateInterval(Text("2024-01-01"), Text("2024-01-01")) == Success(0)
  {
    ParseNewYear2024Example();
    EqualEndpoints(RawDateTime(2024, 1, 1, 0, 0, 0), "auto");
  }

  /** A start later than the end is refused after both texts parse. */
  lemma LaterStartIsInverted()
    ensures CalculateInterval(Text("2024-01-01"), Text("2023-01-01"), "auto") == Failure(InvertedRange)
  {
    ParseNewYear2023Example();
    ParseNewYear2024Example();
  }

  /** A thirteenth month fails in the adapter, whatever the other endpoint and the unit. */
  lemma MonthThirteenIsInvalidFormat(end: DateValue, unit: string)
    ensures CalculateInterval(Text("2024-13-01"), end, unit) == Failure(InvalidFormat("%Y-%m-%d", "2024-13-01"))
  {
    ParseMonthThirteenExample();
  }
}
