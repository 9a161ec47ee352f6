# pyfates interval calculator, modelled in Dafny

This project models two parts of pyfates:

- **`calculate_interval(start, end, unit)`** (`src/pyfates/_core/actions/interval_calculator.py`). It returns the length of a date range in `years`, `months`, `days`, `hours`, `minutes` or `seconds`, or in `auto`, which gives years if a whole year elapsed, else months if a whole month did, else days.
- **The date adapter it relies on** (`src/pyfates/utils/date_utils.py`):
  - `parse_date` reads `YYYY-MM-DD` text, or passes a datetime through unchanged.
  - `format_date` renders a datetime in the `default`, `iso`, `us` or `br` style.

Both source files are pure: they compute a value or raise `ValueError`. The model is therefore written as functions and lemmas. Each `ValueError` becomes a `Failure` carrying an `Err` kind.

Modules, one per file:

- `Results` (`results.dfy`): `Option`, `Result` and the error kinds `Err`.
- `Calendar` (`calendar.dfy`): the parts of Python's `datetime` that the calculator uses:
  - range checks on the fields;
  - `toordinal`;
  - tuple-order comparison (`>`);
  - subtraction read through `timedelta.days`;
  - `replace(year=…, month=…)`.
- `DateUtils` (`date_utils.dfy`):
  - `parse_date`, with `strptime` for `%Y-%m-%d` following CPython's regex semantics;
  - `format_date`, with `strftime` for the directives the style table uses.
  - Layout lemmas for each style, and round trips between parsing and formatting.
- `IntervalCalculator` (`interval_calculator.dfy`):
  - `calculate_interval`;
  - the calendar meaning of its breakdown: the number of whole months elapsed;
  - the `auto` thresholds;
  - the failures;
  - a corrected calculation that does not fail at line 49.

A datetime is the subset type `Calendar.DateTime`: six fields that pass Python's constructor checks. An endpoint handed to the calculator is a `DateUtils.DateValue`, which is either `Text(s)` or `Parsed(dt)`.

## Model

| member | source | states |
|---|---|---|
| IntervalCalculator.CalculateInterval | src/pyfates/_core/actions/interval_calculator.py:19-84 | `unit` defaults to `auto`. Each endpoint is normalised on its own, and any mix of text and datetime is accepted. Failure order:<br>1. Start text that does not parse gives `InvalidFormat("%Y-%m-%d", start)`.<br>2. Otherwise, end text that does not parse gives `InvalidFormat("%Y-%m-%d", end)`.<br>3. Otherwise the result is `Interval` on the two normalised endpoints. |
| IntervalCalculator.Endpoint | src/pyfates/_core/actions/interval_calculator.py:36-37 | One endpoint's normalisation succeeds exactly when `parse_date` with the default pattern succeeds, and gives the same datetime. A datetime is kept as it is. |
| IntervalCalculator.Decompose | src/pyfates/_core/actions/interval_calculator.py:47-59 | After the borrows, months is in 0..11. 12·years + months is the month-index difference, less 1 when the leftover days were negative. |
| IntervalCalculator.Interval | src/pyfates/_core/actions/interval_calculator.py:40-84 | Failures, in this order:<br>1. `InvertedRange` when start is later than end.<br>2. `InvalidReplace` when start's day does not exist in end's month.<br>3. `UnsupportedUnit(unit)` for any other unit name.<br>Every successful result is non-negative. |
| IntervalCalculator.ResolveUnit | src/pyfates/_core/actions/interval_calculator.py:62-68 | `auto` resolves to one of the six concrete units. Any other name is kept as given. |
| IntervalCalculator.Convert | src/pyfates/_core/actions/interval_calculator.py:71-84 | Fails exactly for names outside the six units, with `UnsupportedUnit(name)`. The result is non-negative when the breakdown and the day count are. |
| IntervalCalculator.WholeMonths | src/pyfates/_core/actions/interval_calculator.py:47-59 | Borrowing a month exactly when end's (day, time) comes before start's gives:<br>- years ≥ 0 and months in 0..11;<br>- a total of 12·years + months that is the largest number of calendar months by which start can be moved forward without passing end. |
| IntervalCalculator.LeftoverNegative | src/pyfates/_core/actions/interval_calculator.py:49-55 | The days measured against the anchor are negative exactly when end's (day, hour, minute, second) comes before start's. |
| IntervalCalculator.BreakdownWholeMonths | src/pyfates/_core/actions/interval_calculator.py:47-59 | The breakdown the code computes has years ≥ 0 and months in 0..11. It counts the whole calendar months elapsed. |
| IntervalCalculator.InvertedRangeExactly | src/pyfates/_core/actions/interval_calculator.py:40-41 | For every unit, `InvertedRange` occurs exactly when start is later than end. That is the same as start having more elapsed seconds than end. |
| IntervalCalculator.InvalidReplaceExactly | src/pyfates/_core/actions/interval_calculator.py:49 | For an ordered range and any unit, `InvalidReplace` occurs exactly when start's day exceeds the length of end's month. |
| IntervalCalculator.MonthsAndYears | src/pyfates/_core/actions/interval_calculator.py:71-74 | The `months` result m is ≥ 0 and counts the whole calendar months. The `years` result is m div 12 (14 months is 1 year). |
| IntervalCalculator.MonthsCount | src/pyfates/_core/actions/interval_calculator.py:47-59 | `months` = (12·end.year + end.month) − (12·start.year + start.month), minus 1 when end's (day, time) comes before start's. |
| IntervalCalculator.DayBasedUnits | src/pyfates/_core/actions/interval_calculator.py:75-82 | `days` is ≥ 0 and is the floor of the elapsed seconds over 86400. `hours`, `minutes` and `seconds` are 24, 1440 and 86400 times it. |
| IntervalCalculator.EqualEndpoints | src/pyfates/_core/actions/interval_calculator.py:40-84 | Equal endpoints give 0 in every unit, `auto` included. |
| IntervalCalculator.AutoUnit | src/pyfates/_core/actions/interval_calculator.py:62-68 | `auto` picks `years` if years > 0, else `months` if months > 0, else `days`. In calendar terms:<br>- `years` from twelve whole months on;<br>- `months` from one whole month on;<br>- `days` below one whole month. |
| IntervalCalculator.UnsupportedUnitCarriesName | src/pyfates/_core/actions/interval_calculator.py:83-84 | Once the range and the anchor are accepted, the call fails exactly for unit names outside the seven. The failure carries the name. |
| IntervalCalculator.IntervalIntended | src/pyfates/_core/actions/interval_calculator.py:47-59 | Corrected calculation with no anchor. It fails only for an inverted range or an unknown unit, and its results are ≥ 0. |
| IntervalCalculator.IntendedAgreesWhenAnchorExists | src/pyfates/_core/actions/interval_calculator.py:49 | Whenever the anchor of line 49 exists, the corrected calculation equals the source's, for every unit. |
| IntervalCalculator.IntendedDays | src/pyfates/_core/actions/interval_calculator.py:75-76 | The corrected `days` result is the whole elapsed days. |
| IntervalCalculator.IntendedWholeMonths | src/pyfates/_core/actions/interval_calculator.py:47-59 | For every ordered range, the corrected `months` result exists and counts whole calendar months. `years` is that count div 12. |
| IntervalCalculator.MonthEndStartFails | src/pyfates/_core/actions/interval_calculator.py:49 | Take start on the last day of a month and end on the last day of a shorter next month, at the same time. Then the source fails with `InvalidReplace`, and the corrected calculation gives end's day number of days. |
| IntervalCalculator.IntoNextMonthIsOneMonth | src/pyfates/_core/actions/interval_calculator.py:62-74 | From one month into the next, with no step back in (day, time): `months` is 1 and `auto` is 1 (2024-01-01 to 2024-02-29). |
| IntervalCalculator.AnniversaryIsWholeYears | src/pyfates/_core/actions/interval_calculator.py:47-74 | Between the same day and time in two years: `months` = 12·Δyears and `years` = Δyears (2020-01-01 to 2025-01-01 gives 5). |
| IntervalCalculator.LeapDayToMarchIsOneYear | src/pyfates/_core/actions/interval_calculator.py:47-74 | From February 29 to March 1 of the next year: `months` 12, `years` 1, `auto` 1. |
| IntervalCalculator.YearEndToNewYearIsOneDay | src/pyfates/_core/actions/interval_calculator.py:47-76 | From December 31 to January 1 at the same time: `months` 0, and `auto` gives 1 day. |
| IntervalCalculator.LeapDayToCommonFebruaryFails | src/pyfates/_core/actions/interval_calculator.py:49 | From February 29 to February of a later common year, every unit fails with `InvalidReplace`. The corrected calculation succeeds. |
| IntervalCalculator.JanuaryEndExample | src/pyfates/_core/actions/interval_calculator.py:49 | 2023-01-31 to 2023-02-28 in `days`: the source gives `InvalidReplace`, the corrected calculation gives 28. |
| IntervalCalculator.SameDayIsZero | src/pyfates/_core/actions/interval_calculator.py:36-44 | `calculate_interval("2024-01-01", "2024-01-01")` is 0. |
| IntervalCalculator.LaterStartIsInverted | src/pyfates/_core/actions/interval_calculator.py:40-41 | `calculate_interval("2024-01-01", "2023-01-01")` fails with `InvertedRange`. |
| IntervalCalculator.MonthThirteenIsInvalidFormat | src/pyfates/_core/actions/interval_calculator.py:36 | A start of "2024-13-01" fails with `InvalidFormat` for every end and unit. |
| Calendar.Replace | src/pyfates/_core/actions/interval_calculator.py:49 | `replace(year, month)` succeeds exactly when the year is in 1..9999, the month in 1..12, and the day fits the new month. Day and time of day are kept. |
| Calendar.DaysInMonth | src/pyfates/_core/actions/interval_calculator.py:49 | Month lengths are 28..31. A month has 29 days exactly when it is February of a Gregorian leap year. |
| Calendar.SubtractDays | src/pyfates/_core/actions/interval_calculator.py:44 | `(a - b).days` n satisfies n·86400 ≤ elapsed seconds < (n+1)·86400. |
| Calendar.SubtractDaysNonNegative | src/pyfates/_core/actions/interval_calculator.py:44 | If a is not earlier than b, `(a - b).days` ≥ 0. For equal datetimes it is 0. |
| Calendar.ComparisonIsTotal | src/pyfates/_core/actions/interval_calculator.py:40 | `start > end` (`After`, the tuple order `Before` reversed) holds exactly when more seconds have elapsed at start. The order is total: `not start > end` is `start < end` or `start == end`. |
| Calendar.Ordinal | src/pyfates/_core/actions/interval_calculator.py:44 | `toordinal` of a valid date lies after all the days of the earlier years and within its own year. |
| Calendar.TotalSeconds | src/pyfates/_core/actions/interval_calculator.py:44 | The elapsed seconds of a datetime lie within the 86400 seconds of its ordinal day, so subtraction counts whole days by ordinal. |
| Calendar.BeforeIsEarlier | src/pyfates/_core/actions/interval_calculator.py:40 | Python's field-tuple order is the order of elapsed seconds. Datetimes are equal exactly when their elapsed seconds are. |
| Calendar.SubtractDaysSameMonth | src/pyfates/_core/actions/interval_calculator.py:49 | Within one month, a difference is (Δday)·86400 + Δ(time of day). Its `.days` is negative exactly when the (day, time) order is reversed. |
| Calendar.OrdinalSuccessor | src/pyfates/_core/actions/interval_calculator.py:44 | Consecutive calendar days have consecutive ordinals: within a month, across months, and across years. |
| Calendar.OrdinalOfFirstDay | src/pyfates/_core/actions/interval_calculator.py:44 | `toordinal` of 0001-01-01 is 1. |
| Calendar.OrdinalOfNewYear2024 | src/pyfates/_core/actions/interval_calculator.py:44 | `toordinal` of 2024-01-01 is 738886. |
| DateUtils.ParseDate | src/pyfates/utils/date_utils.py:19-38 | `format` defaults to `%Y-%m-%d`. A datetime passes through unchanged. Text that fails to parse gives `InvalidFormat(format, text)`. With the default pattern, success is exactly `strptime` succeeding, and the result is the date `strptime` reads, at midnight. |
| DateUtils.StrptimeDefault | src/pyfates/utils/date_utils.py:36 | A parsed value is at 00:00:00, and the first four characters are its year followed by `-`. |
| DateUtils.MonthField | src/pyfates/utils/date_utils.py:36 | `%m` as CPython's regex matches it before a `-`. A match is a value 1..12 spelled by the one or two characters taken. A match is found whenever the text starts with one digit 1-9 followed by `-`, or with two digits naming 1..12 followed by `-`. |
| DateUtils.DayField | src/pyfates/utils/date_utils.py:36 | `%d` as CPython's regex matches it. A match is found whenever the text starts with a digit 1-9, or with `0` or a space followed by a digit 1-9. A match is a value 1..31. Two characters are taken exactly when they form a day number ≤ 31, or begin with `0` or a space; this is the first alternative that matches. The space form gives the value of its digit, and the others give the value their characters spell. |
| DateUtils.ParseStrictText | src/pyfates/utils/date_utils.py:36 | On `YYYY-MM-DD` text, parsing succeeds exactly when the numbers name a valid Gregorian date with year ≥ 1. The result is that date at midnight. |
| DateUtils.ParseStrictDigits | src/pyfates/utils/date_utils.py:36 | The same as `ParseStrictText`, with the numbers read digit by digit. |
| DateUtils.ParseLeapDayExample | src/pyfates/utils/date_utils.py:36 | "2024-02-29" parses to that day. |
| DateUtils.ParseNewYear2023Example | src/pyfates/utils/date_utils.py:36 | "2023-01-01" parses to that day. |
| DateUtils.ParseNewYear2024Example | src/pyfates/utils/date_utils.py:36 | "2024-01-01" parses to that day. |
| DateUtils.ParseMonthThirteenExample | src/pyfates/utils/date_utils.py:36 | "2024-13-01" is refused. |
| DateUtils.ParseCommonYearLeapDayExample | src/pyfates/utils/date_utils.py:36 | "2023-02-29" is refused. |
| DateUtils.ParseFebruaryThirtiethExample | src/pyfates/utils/date_utils.py:36 | "2023-02-30" is refused. |
| DateUtils.ParseOneDigitFieldsExample | src/pyfates/utils/date_utils.py:36 | "2024-1-5" parses, because `%m` and `%d` accept one digit. |
| DateUtils.ParseLeftoverDigitExample | src/pyfates/utils/date_utils.py:36 | "2024-01-150" is refused: `%d` takes "15" and "0" remains unconverted. |
| DateUtils.FormatDate | src/pyfates/utils/date_utils.py:40-67 | `style` defaults to `default`. A non-datetime gives `NotADateTime`, checked first. An unknown style gives `UnsupportedStyle(style)`. The four known styles always succeed. |
| DateUtils.Pad2 | src/pyfates/utils/date_utils.py:67 | `%m`, `%d`, `%H`, `%M` and `%S` render exactly two digits that spell the value. |
| DateUtils.DecimalReadsBack | src/pyfates/utils/date_utils.py:67 | The `%Y` digits read back as the year. |
| DateUtils.DecimalOfNumber | src/pyfates/utils/date_utils.py:67 | Digits without a superfluous leading zero are the `%Y` rendering of their value. |
| DateUtils.DirectiveText | src/pyfates/utils/date_utils.py:67 | Exactly `%Y %m %d %H %M %S` are rendered as directives. Each renders digits; all but `%Y` render exactly two. |
| DateUtils.StrftimeCopiesLiterals | src/pyfates/utils/date_utils.py:67 | `strftime` copies a pattern without `%` unchanged. |
| DateUtils.StrftimeAppend | src/pyfates/utils/date_utils.py:67 | `strftime` of a concatenation is the concatenation of the renderings, when the split does not cut a directive. |
| DateUtils.DefaultLayout | src/pyfates/utils/date_utils.py:58 | `default` renders year, `-`, two-digit month, `-`, two-digit day. |
| DateUtils.IsoLayout | src/pyfates/utils/date_utils.py:59 | `iso` renders the `default` text followed by `THH:MM:SS`. |
| DateUtils.TimeOfDayLayout | src/pyfates/utils/date_utils.py:59 | The `T%H:%M:%S` tail renders `T`, then hour, minute and second, each two digits separated by `:`. |
| DateUtils.UsLayout | src/pyfates/utils/date_utils.py:60 | `us` renders month `/` day `/` year. |
| DateUtils.BrLayout | src/pyfates/utils/date_utils.py:61 | `br` renders day `/` month `/` year. |
| DateUtils.FormatDefaultFields | src/pyfates/utils/date_utils.py:67 | For years ≥ 1000, `default` gives 10 characters with `-` at positions 4 and 7. Positions 0-3, 5-6 and 8-9 spell year, month and day. |
| DateUtils.FormatIsoFields | src/pyfates/utils/date_utils.py:67 | For years ≥ 1000, `iso` gives 19 characters: the `default` text, then `T`, with hour, minute and second at 11-12, 14-15 and 17-18. |
| DateUtils.FormatUsFields | src/pyfates/utils/date_utils.py:67 | For years ≥ 1000, `us` gives 10 characters with `/` at 2 and 5. Month, day and year are at 0-1, 3-4 and 6-9. |
| DateUtils.FormatBrFields | src/pyfates/utils/date_utils.py:67 | For years ≥ 1000, `br` gives 10 characters with `/` at 2 and 5. Day, month and year are at 0-1, 3-4 and 6-9. |
| DateUtils.ParseOfFormat | src/pyfates/utils/date_utils.py:19-67 | For years ≥ 1000, parsing the `default` rendering gives back the same date at midnight. |
| DateUtils.FormatOfParse | src/pyfates/utils/date_utils.py:19-67 | Well-formed `YYYY-MM-DD` text with a year ≥ 1000 that parses renders back to exactly that text in the `default` style. |

## Left out

- Microseconds, `tzinfo` and `fold` are not modelled. A datetime here has one-second resolution and is naive. Neither source file creates or inspects these fields, but a datetime passed in with microseconds would take part in the `>` comparison and in `.days`.
- Python's `\d` also matches non-ASCII decimal digits. The model accepts only ASCII `0`-`9`.
- `strptime` with a pattern other than `%Y-%m-%d` is library code outside this model. `ParseDate` takes it as the parameter `otherPattern`. The calculator never uses another pattern.
- `strptime`'s handling of whitespace and case in other patterns is not modelled. It plays no part for `%Y-%m-%d`.
- `parse_date` given a value that is neither text nor a datetime: `strptime` raises `TypeError`, which this code does not catch. The model has no such value. A `date` that is not a `datetime` is not modelled either.
- The wording of error messages is not modelled. Each error carries only the data its message interpolates.
- `strftime` directives other than `%Y %m %d %H %M %S` are not modelled. The style table uses no others.
- Decimal: `%Y` for years below 1000 is rendered without padding. Whether Python pads such years depends on the platform and on the CPython version, and that variation is not modelled.
- DateUtils.ParseOfFormat: stated only for years 1000..9999, because an unpadded `%Y` below 1000 cannot be read back by `strptime`'s four-digit `%Y`.
- DateUtils.FormatOfParse: stated only for ten-character `YYYY-MM-DD` text with a year ≥ 1000. Text with one-digit fields (`2024-1-5`) parses but renders back padded (`2024-01-05`), so the round trip does not hold for arbitrary text matching the pattern.

## Findings

| source | as written | input that shows it | evidently intended | confidence | as-written member | corrected member |
|---|---|---|---|---|---|---|
| src/pyfates/_core/actions/interval_calculator.py:49 | `start.replace(year=end.year, month=end.month)` raises `ValueError` when start's day does not exist in end's month, even though the rest of the calculation only needs to know whether end's (day, time) comes before start's. | `calculate_interval("2023-01-31", "2023-02-28", "days")`; also `("2024-02-29", "2025-02-28")` in any unit | 28 days. The docstring (interval_calculator.py:32-33) reserves `ValueError` for an unsupported unit and invalid date inputs. So a valid ordered range is meant to give a number: borrow a month exactly when end's (day, time) precedes start's. | not executed | IntervalCalculator.MonthEndStartFails | IntervalCalculator.IntervalIntended |
