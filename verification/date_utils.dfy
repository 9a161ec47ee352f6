/** The date adapter: `parse_date` turns text in the pattern `%Y-%m-%d` into a datetime at
    midnight (a value that already is a datetime passes through), and `format_date` renders a
    datetime in one of four named styles. */
module DateUtils {
  import opened Results
  import opened Calendar

  /** The pattern `parse_date` uses unless told otherwise. */
  const DefaultFormat := "%Y-%m-%d"

  /** The style names `format_date` accepts and the strftime pattern of each. */
  const Styles: map<string, string> := map[
    "default" := "%Y-%m-%d",
    "iso" := "%Y-%m-%dT%H:%M:%S",
    "us" := "%m/%d/%Y",
    "br" := "%d/%m/%Y"
  ]

  /** What the adapter is handed: text, or a value that already is a datetime. */
  datatype DateValue = Text(text: string) | Parsed(dt: DateTime)

  // ---------------------------------------------------------------------------
  // Decimal digits

  predicate IsDigit(c: char) {
    '0' <= c <= '9'
  }

  predicate AllDigits(s: string) {
    forall i :: 0 <= i < |s| ==> IsDigit(s[i])
  }

  function DigitValue(c: char): (n: int)
    requires IsDigit(c)
    ensures 0 <= n <= 9
  {
    c as int - '0' as int
  }

  function DigitChar(n: int): (c: char)
    requires 0 <= n <= 9
    ensures IsDigit(c) && DigitValue(c) == n
  {
    ('0' as int + n) as char
  }

  function Pow10(k: nat): (p: nat)
    ensures p >= 1
  {
    if k == 0 then 1 else 10 * Pow10(k - 1)
  }

  /** The value of a run of decimal digits, most significant first. */
  function Number(s: string): (n: nat)
    requires AllDigits(s)
    ensures n < Pow10(|s|)
  {
    if s == [] then 0
    else
      assert AllDigits(s[..|s| - 1]);
      Number(s[..|s| - 1]) * 10 + DigitValue(s[|s| - 1])
  }

  /** Characters `i..j` of `s` are the decimal digits of `n`. */
  predicate Spells(s: string, i: int, j: int, n: int) {
    0 <= i <= j <= |s| && AllDigits(s[i..j]) && Number(s[i..j]) == n
  }

  /** Decimal rendering without padding; four digits for the years 1000..9999. */
  function Decimal(n: nat): (s: string)
    ensures 1 <= |s| && AllDigits(s)
  {
    if n < 10 then [DigitChar(n)] else Decimal(n / 10) + [DigitChar(n % 10)]
  }

  /** Two-digit zero-padded rendering, as `%m`, `%d`, `%H`, `%M` and `%S` give. */
  function Pad2(n: int): (s: string)
    requires 0 <= n <= 99
    ensures |s| == 2 && Spells(s, 0, 2, n)
  {
    var s := [DigitChar(n / 10), DigitChar(n % 10)];
    assert s[..1] == [s[0]] && s[..1][..0] == [];
    s
  }

  lemma {:induction false} DecimalReadsBack(n: nat)
    ensures Number(Decimal(n)) == n
    ensures n >= 10 ==> |Decimal(n)| == |Decimal(n / 10)| + 1
    decreases n
  {
    var s := Decimal(n);
    if n < 10 {
      assert s[..0] == [];
    } else {
      DecimalReadsBack(n / 10);
      assert s[..|s| - 1] == Decimal(n / 10);
    }
  }

  /** A run of digits without a superfluous leading zero is the decimal rendering of its value. */
  lemma {:induction false} DecimalOfNumber(s: string)
    requires 1 <= |s| && AllDigits(s) && Number(s) >= Pow10(|s| - 1)
    ensures Decimal(Number(s)) == s
    decreases |s|
  {
    var p, c := s[..|s| - 1], s[|s| - 1];
    assert AllDigits(p);
    var n := Number(s);
    assert n == Number(p) * 10 + DigitValue(c);
    if |s| == 1 {
      assert p == [];
      assert Decimal(n) == [DigitChar(DigitValue(c))];
      assert DigitChar(DigitValue(c)) == c;
    } else {
      assert Number(p) >= Pow10(|p| - 1);
      assert n / 10 == Number(p) && n % 10 == DigitValue(c);
      DecimalOfNumber(p);
      assert DigitChar(DigitValue(c)) == c;
      assert s == p + [c];
    }
  }

  lemma NumberOfTwo(s: string)
    requires |s| == 2 && AllDigits(s)
    ensures Number(s) == 10 * DigitValue(s[0]) + DigitValue(s[1])
  {
    assert s[..1] == [s[0]] && s[..1][..0] == [];
  }

  lemma YearDigits(y: int)
    requires 1000 <= y <= 9999
    ensures |Decimal(y)| == 4 && Spells(Decimal(y), 0, 4, y)
  {
    DecimalReadsBack(y);
    DecimalReadsBack(y / 10);
    DecimalReadsBack(y / 100);
    assert y / 10 / 10 == y / 100 && y / 100 / 10 == y / 1000;
    assert Decimal(y)[0..4] == Decimal(y);
  }

  // ---------------------------------------------------------------------------
  // parse_date

  /** A matched directive: its value and the number of characters it took. */
  datatype Field = Field(value: int, width: nat)

  /** `%m` and the `-` after it. CPython's regex for `%m` is `1[0-2]|0[1-9]|[1-9]`; the three
      alternatives are tried in that order, and since at most one of them can be followed by
      `-`, backtracking picks exactly the one below. */
  function MonthField(r: string): (f: Option<Field>)
    ensures f.Some? ==> && 1 <= f.value.value <= 12 && 1 <= f.value.width <= 2
                        && f.value.width < |r| && r[f.value.width] == '-'
                        && Spells(r, 0, f.value.width, f.value.value)
    ensures (|r| >= 2 && '1' <= r[0] <= '9' && r[1] == '-') ||
            (|r| >= 3 && IsDigit(r[0]) && IsDigit(r[1]) && r[2] == '-' && 1 <= 10 * DigitValue(r[0]) + DigitValue(r[1]) <= 12)
            ==> f.Some?
  {
    if |r| >= 3 && r[0] == '1' && '0' <= r[1] <= '2' && r[2] == '-' then
      NumberOfTwo(r[..2]);
      Some(Field(10 + DigitValue(r[1]), 2))
    else if |r| >= 3 && r[0] == '0' && '1' <= r[1] <= '9' && r[2] == '-' then
      NumberOfTwo(r[..2]);
      Some(Field(DigitValue(r[1]), 2))
    else if |r| >= 2 && '1' <= r[0] <= '9' && r[1] == '-' then
      assert r[..1][..0] == [];
      Some(Field(DigitValue(r[0]), 1))
    else
      None
  }

  /** `%d`, the last directive of the pattern. CPython's regex for it is
      `3[01]|[12]\d|0[1-9]|[1-9]| [1-9]`; nothing follows it in the pattern, so the first
      alternative that matches is the one taken, whether or not text remains after it. */
  function DayField(r: string): (f: Option<Field>)
    ensures f.Some? ==> 1 <= f.value.value <= 31 && 1 <= f.value.width <= 2 && f.value.width <= |r|
    ensures f.Some? && r[0] != ' ' ==> Spells(r, 0, f.value.width, f.value.value)
    ensures f.Some? ==> (f.value.width == 2 <==>
              |r| >= 2 && (r[0] == ' ' || r[0] == '0' ||
                           (IsDigit(r[0]) && IsDigit(r[1]) && 10 * DigitValue(r[0]) + DigitValue(r[1]) <= 31)))
    ensures f.Some? && r[0] == ' ' ==> |r| >= 2 && '1' <= r[1] <= '9' && f.value.value == DigitValue(r[1])
    ensures (|r| >= 1 && '1' <= r[0] <= '9') || (|r| >= 2 && (r[0] == '0' || r[0] == ' ') && '1' <= r[1] <= '9') ==> f.Some?
  {
    if |r| >= 2 && r[0] == '3' && '0' <= r[1] <= '1' then
      NumberOfTwo(r[..2]);
      Some(Field(30 + DigitValue(r[1]), 2))
    else if |r| >= 2 && '1' <= r[0] <= '2' && IsDigit(r[1]) then
      NumberOfTwo(r[..2]);
      Some(Field(10 * DigitValue(r[0]) + DigitValue(r[1]), 2))
    else if |r| >= 2 && r[0] == '0' && '1' <= r[1] <= '9' then
      NumberOfTwo(r[..2]);
      Some(Field(DigitValue(r[1]), 2))
    else if |r| >= 1 && '1' <= r[0] <= '9' then
      assert r[..1][..0] == [];
      Some(Field(DigitValue(r[0]), 1))
    else if |r| >= 2 && r[0] == ' ' && '1' <= r[1] <= '9' then
      Some(Field(DigitValue(r[1]), 2))
    else
      None
  }

  /** `datetime.strptime(text, "%Y-%m-%d")`, with `None` where it raises `ValueError`: the
      regex must match from the start (`%Y` is four digits), nothing may remain after the
      match, and the datetime constructor must accept the fields. */
  function StrptimeDefault(t: string): (r: Option<DateTime>)
    ensures r.Some? ==> r.value.hour == 0 && r.value.minute == 0 && r.value.second == 0
    ensures r.Some? ==> |t| >= 5 && Spells(t, 0, 4, r.value.year) && t[4] == '-'
  {
    if |t| < 5 || !AllDigits(t[..4]) || t[4] != '-' then None
    else
      var year := Number(t[..4]);
      match MonthField(t[5..])
      case None => None
      case Some(m) =>
        var rest := t[5 + m.width + 1..];
        match DayField(rest)
        case None => None
        case Some(d) =>
          if d.width != |rest| then None
          else if !(MinYear <= year <= MaxYear) || d.value > DaysInMonth(year, m.value) then None
          else Some(RawDateTime(year, m.value, d.value, 0, 0, 0))
  }

  /** `parse_date(input, format)`. A datetime is returned as it is, whatever the pattern; text
      is handed to `strptime`, whose failure becomes `InvalidFormat` carrying the pattern and
      the text. `strptime` for patterns other than `%Y-%m-%d` is library code outside this
      model and is supplied as `otherPattern`. */
  function ParseDate(input: DateValue, otherPattern: (string, string) -> Option<DateTime>, format: string := DefaultFormat): (r: Result<DateTime, Err>)
    ensures input.Parsed? ==> r == Success(input.dt)
    ensures input.Text? && r.Failure? ==> r.error == InvalidFormat(format, input.text)
    ensures input.Text? && format == DefaultFormat ==>
              (r.Success? <==> StrptimeDefault(input.text).Some?)
              && (r.Success? ==> r.value == StrptimeDefault(input.text).value)
              && (r.Success? ==> r.value.hour == 0 && r.value.minute == 0 && r.value.second == 0)
  {
    match input
    case Parsed(dt) => Success(dt)
    case Text(t) =>
      var parsed := if format == DefaultFormat then StrptimeDefault(t) else otherPattern(t, format);
      match parsed
      case Some(dt) => Success(dt)
      case None => Failure(InvalidFormat(format, t))
  }

  /** Text of exactly the shape `YYYY-MM-DD`: ten characters, digits except two hyphens. */
  predicate StrictText(t: string) {
    |t| == 10 && AllDigits(t[..4]) && t[4] == '-' && AllDigits(t[5..7]) && t[7] == '-' && AllDigits(t[8..])
  }

  /** On text of the shape `YYYY-MM-DD`, parsing succeeds exactly when the three numbers name
      a date of the proleptic Gregorian calendar, and gives that date at 00:00:00. */
  lemma ParseStrictText(t: string)
    requires StrictText(t)
    ensures var y, m, d := Number(t[..4]), Number(t[5..7]), Number(t[8..]);
            && (StrptimeDefault(t).Some? <==> MinYear <= y && 1 <= m <= 12 && 1 <= d <= DaysInMonth(y, m))
            && (StrptimeDefault(t).Some? ==> StrptimeDefault(t).value == RawDateTime(y, m, d, 0, 0, 0))
  {
    NumberOfTwo(t[5..7]);
    NumberOfTwo(t[8..]);
    var r := t[5..];
    assert r[0] == t[5] && r[1] == t[6] && r[2] == t[7];
    var mf := MonthField(r);
    if mf.Some? {
      assert mf.value.width == 2;
      var rest := t[8..];
      assert t[5 + mf.value.width + 1..] == rest;
      assert rest[0] == t[8] && rest[1] == t[9];
    }
  }

  // ---------------------------------------------------------------------------
  // format_date

  /** The text one strftime directive stands for; `None` for a letter outside the six the
      style table uses. */
  function Directive(d: DateTime, c: char): Option<string> {
    match c
    case 'Y' => Some(Decimal(d.year))
    case 'm' => Some(Pad2(d.month))
    case 'd' => Some(Pad2(d.day))
    case 'H' => Some(Pad2(d.hour))
    case 'M' => Some(Pad2(d.minute))
    case 'S' => Some(Pad2(d.second))
    case _ => None
  }

  /** `d.strftime(pattern)` for patterns made of literal characters and the directives above. */
  function Strftime(d: DateTime, pattern: string): string
    decreases |pattern|
  {
    if pattern == [] then []
    else if pattern[0] == '%' && |pattern| >= 2 && Directive(d, pattern[1]).Some? then
      Directive(d, pattern[1]).value + Strftime(d, pattern[2..])
    else
      [pattern[0]] + Strftime(d, pattern[1..])
  }

  /** The six directives render digits: two of them, except for the year. */
  lemma DirectiveText(d: DateTime, c: char)
    ensures Directive(d, c).Some? <==> c in "YmdHMS"
    ensures Directive(d, c).Some? ==> var v := Directive(d, c).value;
              1 <= |v| && AllDigits(v) && (c != 'Y' ==> |v| == 2)
  {
  }

  /** A pattern without `%` is copied as it is. */
  lemma {:induction false} StrftimeCopiesLiterals(d: DateTime, p: string)
    requires forall i :: 0 <= i < |p| ==> p[i] != '%'
    ensures Strftime(d, p) == p
    decreases |p|
  {
    if p != [] {
      assert forall i :: 0 <= i < |p[1..]| ==> p[1..][i] != '%';
      StrftimeCopiesLiterals(d, p[1..]);
      assert p == [p[0]] + p[1..];
    }
  }

  /** `format_date(date, style)`: the type check comes first, then the style lookup. */
  function FormatDate(value: DateValue, style: string := "default"): (r: Result<string, Err>)
    ensures value.Text? ==> r == Failure(NotADateTime)
    ensures value.Parsed? && style !in Styles ==> r == Failure(UnsupportedStyle(style))
    ensures value.Parsed? && style in Styles ==> r.Success?
  {
    match value
    case Text(_) => Failure(NotADateTime)
    case Parsed(d) =>
      if style !in Styles then Failure(UnsupportedStyle(style))
      else Success(Strftime(d, Styles[style]))
  }

  /** A directive the table knows, at position `k` of the pattern, becomes its text. */
  lemma DirectiveStep(d: DateTime, p: string, k: int, v: string)
    requires 0 <= k && k + 1 < |p| && p[k] == '%' && Directive(d, p[k + 1]) == Some(v)
    ensures Strftime(d, p[k..]) == v + Strftime(d, p[k + 2..])
  {
    assert p[k..][0] == p[k] && p[k..][1] == p[k + 1] && p[k..][2..] == p[k + 2..];
  }

  /** Any other character at position `k` is copied. */
  lemma LiteralStep(d: DateTime, p: string, k: int)
    requires 0 <= k < |p| && p[k] != '%'
    ensures Strftime(d, p[k..]) == [p[k]] + Strftime(d, p[k + 1..])
  {
    assert p[k..][0] == p[k] && p[k..][1..] == p[k + 1..];
  }

  lemma RegroupFive(a: string, x: char, b: string, y: char, c: string)
    ensures a + ([x] + (b + ([y] + c))) == a + [x] + b + [y] + c
  {
  }

  /** A directive followed by a separator character. */
  lemma FieldThenSeparator(d: DateTime, p: string, k: int, v: string)
    requires 0 <= k && k + 2 < |p| && p[k] == '%' && Directive(d, p[k + 1]) == Some(v) && p[k + 2] != '%'
    ensures Strftime(d, p[k..]) == v + ([p[k + 2]] + Strftime(d, p[k + 3..]))
  {
    DirectiveStep(d, p, k, v);
    LiteralStep(d, p, k + 2);
  }

  /** The shape every style has: three directives separated by two literal characters. */
  lemma ThreeDirectives(d: DateTime, p: string, k: nat, a: string, x: char, b: string, y: char, c: string)
    requires |p| == k + 8 && p[k] == '%' && p[k + 2] == x && p[k + 3] == '%' && p[k + 5] == y && p[k + 6] == '%'
    requires x != '%' && y != '%'
    requires Directive(d, p[k + 1]) == Some(a) && Directive(d, p[k + 4]) == Some(b) && Directive(d, p[k + 7]) == Some(c)
    ensures Strftime(d, p[k..]) == a + [x] + b + [y] + c
  {
    assert p[k + 8..] == [];
    assert Strftime(d, p[k + 6..]) == c by { DirectiveStep(d, p, k + 6, c); }
    assert Strftime(d, p[k + 3..]) == b + ([y] + c) by { FieldThenSeparator(d, p, k + 3, b); }
    assert Strftime(d, p[k..]) == a + ([x] + (b + ([y] + c))) by { FieldThenSeparator(d, p, k, a); }
    RegroupFive(a, x, b, y, c);
  }

  /** The `default` style: `YYYY-MM-DD`. */
  lemma DefaultLayout(d: DateTime)
    ensures FormatDate(Parsed(d), "default") == Success(Decimal(d.year) + "-" + Pad2(d.month) + "-" + Pad2(d.day))
  {
    assert Styles["default"][0..] == Styles["default"];
    ThreeDirectives(d, Styles["default"], 0, Decimal(d.year), '-', Pad2(d.month), '-', Pad2(d.day));
  }

  /** `THH:MM:SS`. */
  function TimeOfDay(d: DateTime): string {
    "T" + (Pad2(d.hour) + ":" + Pad2(d.minute) + ":" + Pad2(d.second))
  }

  lemma TimeOfDayLayout(d: DateTime)
    ensures Strftime(d, "T%H:%M:%S") == TimeOfDay(d)
  {
    var p := "T%H:%M:%S";
    var h, mi, sec := Pad2(d.hour), Pad2(d.minute), Pad2(d.second);
    assert Strftime(d, p) == ['T'] + (h + ":" + mi + ":" + sec) by {
      LiteralStep(d, p, 0);
      assert p[0..] == p;
      ThreeDirectives(d, p, 1, h, ':', mi, ':', sec);
    }
  }

  /** Rendering distributes over concatenation when the split does not cut a directive. */
  lemma {:induction false} StrftimeAppend(d: DateTime, p: string, q: string)
    requires p == [] || p[|p| - 1] != '%'
    ensures Strftime(d, p + q) == Strftime(d, p) + Strftime(d, q)
    decreases |p|
  {
    if p == [] {
      assert p + q == q;
    } else if p[0] == '%' && |p| >= 2 && Directive(d, p[1]).Some? {
      var v := Directive(d, p[1]).value;
      assert Strftime(d, p + q) == v + Strftime(d, p[2..] + q) by {
        var pq := p + q;
        assert pq[0] == '%' && pq[1] == p[1] && pq[2..] == p[2..] + q;
      }
      StrftimeAppend(d, p[2..], q);
      assert v + (Strftime(d, p[2..]) + Strftime(d, q)) == (v + Strftime(d, p[2..])) + Strftime(d, q);
    } else {
      assert Strftime(d, p + q) == [p[0]] + Strftime(d, p[1..] + q) by {
        var pq := p + q;
        assert pq[0] == p[0] && pq[1..] == p[1..] + q;
        assert |p| >= 2 ==> pq[1] == p[1];
        assert |p| == 1 ==> p[0] != '%';
      }
      StrftimeAppend(d, p[1..], q);
      assert [p[0]] + (Strftime(d, p[1..]) + Strftime(d, q)) == ([p[0]] + Strftime(d, p[1..])) + Strftime(d, q);
    }
  }

  /** The `iso` style: the `default` rendering, then `THH:MM:SS`. */
  lemma IsoLayout(d: DateTime)
    ensures FormatDate(Parsed(d), "iso") == Success(FormatDate(Parsed(d), "default").value + TimeOfDay(d))
  {
    assert Styles["iso"] == "%Y-%m-%d" + "T%H:%M:%S" && Styles["default"] == "%Y-%m-%d";
    StrftimeAppend(d, "%Y-%m-%d", "T%H:%M:%S");
    TimeOfDayLayout(d);
  }

  /** The `us` style: `MM/DD/YYYY`. */
  lemma UsLayout(d: DateTime)
    ensures FormatDate(Parsed(d), "us") == Success(Pad2(d.month) + "/" + Pad2(d.day) + "/" + Decimal(d.year))
  {
    assert Styles["us"][0..] == Styles["us"];
    ThreeDirectives(d, Styles["us"], 0, Pad2(d.month), '/', Pad2(d.day), '/', Decimal(d.year));
  }

  /** The `br` style: `DD/MM/YYYY`. */
  lemma BrLayout(d: DateTime)
    ensures FormatDate(Parsed(d), "br") == Success(Pad2(d.day) + "/" + Pad2(d.month) + "/" + Decimal(d.year))
  {
    assert Styles["br"][0..] == Styles["br"];
    ThreeDirectives(d, Styles["br"], 0, Pad2(d.day), '/', Pad2(d.month), '/', Decimal(d.year));
  }

  // ---------------------------------------------------------------------------
  // What each style renders, read back field by field (years 1000..9999)

  lemma Pad2OfNumber(s: string)
    requires |s| == 2 && AllDigits(s)
    ensures Number(s) <= 99 && Pad2(Number(s)) == s
  {
    NumberOfTwo(s);
    var n := Number(s);
    assert n / 10 == DigitValue(s[0]) && n % 10 == DigitValue(s[1]);
    assert DigitChar(DigitValue(s[0])) == s[0] && DigitChar(DigitValue(s[1])) == s[1];
  }

  /** A text put together from three digit fields and two one-character separators spells
      each field's number at that field's place. */
  lemma ThreeFields(s: string, a: string, x: char, b: string, y: char, c: string, na: int, nb: int, nc: int)
    requires s == a + [x] + b + [y] + c
    requires Spells(a, 0, |a|, na) && Spells(b, 0, |b|, nb) && Spells(c, 0, |c|, nc)
    ensures |s| == |a| + |b| + |c| + 2 && s[|a|] == x && s[|a| + 1 + |b|] == y
    ensures Spells(s, 0, |a|, na) && Spells(s, |a| + 1, |a| + 1 + |b|, nb) && Spells(s, |a| + |b| + 2, |s|, nc)
  {
    assert s[0..|a|] == a[0..|a|];
    assert s[|a| + 1..|a| + 1 + |b|] == b[0..|b|];
    assert s[|a| + |b| + 2..|s|] == c[0..|c|];
  }

  /** `default` renders `YYYY-MM-DD`: ten characters whose fields read back as the date. */
  lemma FormatDefaultFields(d: DateTime)
    requires d.year >= 1000
    ensures FormatDate(Parsed(d), "default").Success?
    ensures var s := FormatDate(Parsed(d), "default").value;
            && |s| == 10 && s[4] == '-' && s[7] == '-'
            && Spells(s, 0, 4, d.year) && Spells(s, 5, 7, d.month) && Spells(s, 8, 10, d.day)
  {
    var s := FormatDate(Parsed(d), "default").value;
    DefaultLayout(d);
    assert |Decimal(d.year)| == 4 && Spells(Decimal(d.year), 0, 4, d.year) by { YearDigits(d.year); }
    ThreeFields(s, Decimal(d.year), '-', Pad2(d.month), '-', Pad2(d.day), d.year, d.month, d.day);
  }

  lemma TimeOfDayFields(d: DateTime)
    ensures var t := TimeOfDay(d);
            && |t| == 9 && t[0] == 'T' && t[3] == ':' && t[6] == ':'
            && Spells(t, 1, 3, d.hour) && Spells(t, 4, 6, d.minute) && Spells(t, 7, 9, d.second)
  {
    var t := TimeOfDay(d);
    var H, M, S := Pad2(d.hour), Pad2(d.minute), Pad2(d.second);
    assert t == ['T'] + H + [':'] + M + [':'] + S;
    assert t[1..3] == H && t[4..6] == M && t[7..9] == S;
    assert H[0..2] == H && M[0..2] == M && S[0..2] == S;
  }

  lemma SpellsAfter(pre: string, t: string, i: int, j: int, n: int)
    requires Spells(t, i, j, n)
    ensures Spells(pre + t, |pre| + i, |pre| + j, n)
  {
    assert (pre + t)[|pre| + i..|pre| + j] == t[i..j];
  }

  /** `iso` renders `YYYY-MM-DDTHH:MM:SS`: the `default` text, then the time of day. */
  lemma FormatIsoFields(d: DateTime)
    requires d.year >= 1000
    ensures FormatDate(Parsed(d), "iso").Success?
    ensures var s := FormatDate(Parsed(d), "iso").value;
            && |s| == 19 && s[..10] == FormatDate(Parsed(d), "default").value
            && s[10] == 'T' && s[13] == ':' && s[16] == ':'
            && Spells(s, 11, 13, d.hour) && Spells(s, 14, 16, d.minute) && Spells(s, 17, 19, d.second)
  {
    var date := FormatDate(Parsed(d), "default").value;
    var t := TimeOfDay(d);
    var s := FormatDate(Parsed(d), "iso").value;
    assert s == date + t by {
      IsoLayout(d);
    }
    assert |date| == 10 by {
      FormatDefaultFields(d);
    }
    TimeOfDayFields(d);
    assert Spells(s, 11, 13, d.hour) by {
      SpellsAfter(date, t, 1, 3, d.hour);
    }
    assert Spells(s, 14, 16, d.minute) by {
      SpellsAfter(date, t, 4, 6, d.minute);
    }
    assert Spells(s, 17, 19, d.second) by {
      SpellsAfter(date, t, 7, 9, d.second);
    }
    assert s[..10] == date;
  }

  /** `us` renders `MM/DD/YYYY`. */
  lemma FormatUsFields(d: DateTime)
    requires d.year >= 1000
    ensures FormatDate(Parsed(d), "us").Success?
    ensures var s := FormatDate(Parsed(d), "us").value;
            && |s| == 10 && s[2] == '/' && s[5] == '/'
            && Spells(s, 0, 2, d.month) && Spells(s, 3, 5, d.day) && Spells(s, 6, 10, d.year)
  {
    var s := FormatDate(Parsed(d), "us").value;
    UsLayout(d);
    assert |Decimal(d.year)| == 4 && Spells(Decimal(d.year), 0, 4, d.year) by { YearDigits(d.year); }
    ThreeFields(s, Pad2(d.month), '/', Pad2(d.day), '/', Decimal(d.year), d.month, d.day, d.year);
  }

  /** `br` renders `DD/MM/YYYY`. */
  lemma FormatBrFields(d: DateTime)
    requires d.year >= 1000
    ensures FormatDate(Parsed(d), "br").Success?
    ensures var s := FormatDate(Parsed(d), "br").value;
            && |s| == 10 && s[2] == '/' && s[5] == '/'
            && Spells(s, 0, 2, d.day) && Spells(s, 3, 5, d.month) && Spells(s, 6, 10, d.year)
  {
    var s := FormatDate(Parsed(d), "br").value;
    BrLayout(d);
    assert |Decimal(d.year)| == 4 && Spells(Decimal(d.year), 0, 4, d.year) by { YearDigits(d.year); }
    ThreeFields(s, Pad2(d.day), '/', Pad2(d.month), '/', Decimal(d.year), d.day, d.month, d.year);
  }

  // ---------------------------------------------------------------------------
  // Round trips between parse_date and format_date(·, "default")

  /** Rendering a datetime in the `default` style and parsing the text back gives the same
      date at midnight. */
  lemma ParseOfFormat(d: DateTime, otherPattern: (string, string) -> Option<DateTime>)
    requires d.year >= 1000
    ensures FormatDate(Parsed(d), "default").Success?
    ensures ParseDate(Text(FormatDate(Parsed(d), "default").value), otherPattern)
            == Success(d.(hour := 0, minute := 0, second := 0))
  {
    var s := FormatDate(Parsed(d), "default").value;
    FormatDefaultFields(d);
    assert s[..4] == s[0..4] && s[8..] == s[8..10];
    ParseStrictText(s);
  }

  /** Parsing well-formed `YYYY-MM-DD` text (a year from 1000 on) and rendering the result in
      the `default` style gives the text back. */
  lemma FormatOfParse(t: string, otherPattern: (string, string) -> Option<DateTime>)
    requires StrictText(t) && Number(t[..4]) >= 1000
    requires ParseDate(Text(t), otherPattern).Success?
    ensures FormatDate(Parsed(ParseDate(Text(t), otherPattern).value), "default") == Success(t)
  {
    var d := ParseDate(Text(t), otherPattern).value;
    ParseStrictText(t);
    DefaultLayout(d);
    assert Pow10(3) == 1000;
    DecimalOfNumber(t[..4]);
    Pad2OfNumber(t[5..7]);
    Pad2OfNumber(t[8..]);
    assert t == t[..4] + "-" + t[5..7] + "-" + t[8..];
  }

  lemma NumberOfFour(s: string)
    requires |s| == 4 && AllDigits(s)
    ensures Number(s) == 1000 * DigitValue(s[0]) + 100 * DigitValue(s[1]) + 10 * DigitValue(s[2]) + DigitValue(s[3])
  {
    assert s[..3][..2] == s[..2];
    NumberOfTwo(s[..2]);
  }

  /** `ParseStrictText` with the numbers read off the ten characters directly. */
  lemma ParseStrictDigits(t: string)
    requires |t| == 10 && t[4] == '-' && t[7] == '-'
    requires IsDigit(t[0]) && IsDigit(t[1]) && IsDigit(t[2]) && IsDigit(t[3])
    requires IsDigit(t[5]) && IsDigit(t[6]) && IsDigit(t[8]) && IsDigit(t[9])
    ensures var y := 1000 * DigitValue(t[0]) + 100 * DigitValue(t[1]) + 10 * DigitValue(t[2]) + DigitValue(t[3]);
            var m := 10 * DigitValue(t[5]) + DigitValue(t[6]);
            var d := 10 * DigitValue(t[8]) + DigitValue(t[9]);
            && (StrptimeDefault(t).Some? <==> MinYear <= y && 1 <= m <= 12 && 1 <= d <= DaysInMonth(y, m))
            && (StrptimeDefault(t).Some? ==> StrptimeDefault(t).value == RawDateTime(y, m, d, 0, 0, 0))
  {
    assert StrictText(t) by {
      assert t[..4] == [t[0], t[1], t[2], t[3]] && t[5..7] == [t[5], t[6]] && t[8..] == [t[8], t[9]];
    }
    assert t[..4][0] == t[0] && t[..4][1] == t[1] && t[..4][2] == t[2] && t[..4][3] == t[3];
    NumberOfFour(t[..4]);
    NumberOfTwo(t[5..7]);
    NumberOfTwo(t[8..]);
    ParseStrictText(t);
  }

  /** A leap day parses to midnight of that day. */
  lemma ParseLeapDayExample()
    ensures StrptimeDefault("2024-02-29") == Some(RawDateTime(2024, 2, 29, 0, 0, 0))
  {
    ParseStrictDigits("2024-02-29");
  }

  /** New Year's Day 2023 and 2024. */
  lemma ParseNewYear2023Example()
    ensures StrptimeDefault("2023-01-01") == Some(RawDateTime(2023, 1, 1, 0, 0, 0))
  {
    ParseStrictDigits("2023-01-01");
  }

  lemma ParseNewYear2024Example()
    ensures StrptimeDefault("2024-01-01") == Some(RawDateTime(2024, 1, 1, 0, 0, 0))
  {
    ParseStrictDigits("2024-01-01");
  }

  /** A thirteenth month is refused. */
  lemma ParseMonthThirteenExample()
    ensures StrptimeDefault("2024-13-01") == None
  {
    ParseStrictDigits("2024-13-01");
  }

  /** February 29 of a common year is refused. */
  lemma ParseCommonYearLeapDayExample()
    ensures StrptimeDefault("2023-02-29") == None
  {
    ParseStrictDigits("2023-02-29");
  }

  /** February 30 is refused. */
  lemma ParseFebruaryThirtiethExample()
    ensures StrptimeDefault("2023-02-30") == None
  {
    ParseStrictDigits("2023-02-30");
  }

  /** `%m` and `%d` also take a single digit. */
  lemma ParseOneDigitFieldsExample()
    ensures StrptimeDefault("2024-1-5") == Some(RawDateTime(2024, 1, 5, 0, 0, 0))
  {
    var t := "2024-1-5";
    NumberOfFour(t[..4]);
    assert t[5..] == "1-5" && MonthField("1-5") == Some(Field(1, 1));
    assert t[7..] == "5" && DayField("5") == Some(Field(5, 1));
  }

  /** Text left over after the day is refused: `%d` takes two digits, and the third remains. */
  lemma ParseLeftoverDigitExample()
    ensures StrptimeDefault("2024-01-150") == None
  {
    var u := "2024-01-150";
    assert u[5..] == "01-150" && MonthField("01-150") == Some(Field(1, 2));
    assert u[8..] == "150" && DayField("150") == Some(Field(15, 2));
  }
}
