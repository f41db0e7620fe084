/**
 * The parts of Python's `strftime` and `strptime` that the time conversions
 * rely on.
 *
 * Rendering: numeric directives are rendered from the timestamp's own fields
 * (zero-padded); directives that need locale or time-zone data (weekday and
 * month names, the locale's date and time layouts, AM/PM, the UTC offset and
 * zone name, week numbers) come from an abstract `Locale` whose output per
 * directive is bounded by that directive's maximum width. The maximum-length
 * computation of a format (`get_datetime_fmt_len`) is proved to bound every
 * rendering.
 *
 * Parsing: a format-directed reader of fixed-width digit fields (`%Y`, `%m`,
 * `%d`, `%H`, `%M`, `%S`, `%j`) and literal characters, with the
 * "does not match format" and "unconverted data remains" failures.
 */
module TimeFormat {
  import opened Wrappers
  import opened Digits
  import opened Calendar

  /** The failures of the time conversions (all raised as `ValueError` but the last). */
  datatype TimeError =
    | NotAString               // "YYDDD must be a string"
    | FormatMismatch           // "time data ... does not match format ..."
    | UnconvertedData(rest: string) // "unconverted data remains: <rest>"
    | BadDirective             // a `%` directive the reader does not know, or a stray `%`
    | InvalidLiteral           // `int()` of a string that is not an integer
    | OutOfRange               // a date or time field outside what `datetime` accepts
    | NotATimestamp            // `AttributeError`: the argument has no hour/minute/... fields

  // ---------------------------------------------------------------- rendering

  /** Directives rendered from the timestamp's own fields, always at the same width. */
  predicate IsNumericDirective(c: char) {
    c in "YymdHMSIjf%"
  }

  /** Directives whose rendering depends on locale, time zone or week arithmetic. */
  predicate IsLocaleDirective(c: char) {
    c in "aAbBcxXpzZUWw"
  }

  predicate IsDirective(c: char) {
    IsNumericDirective(c) || IsLocaleDirective(c)
  }

  /** The widest rendering of each directive. */
  function MaxWidth(c: char): nat
    requires IsDirective(c)
  {
    match c
    case 'Y' => 4
    case 'j' => 3
    case 'f' => 6
    case '%' => 1
    case 'w' => 1
    case 'a' => 3
    case 'b' => 3
    case 'A' => 9
    case 'B' => 9
    case 'c' => 24
    case 'x' => 8
    case 'X' => 8
    case 'z' => 5
    case 'Z' => 5
    case _ => 2
  }

  /** A source of locale- and zone-dependent renderings, one string per directive and timestamp. */
  type Locale = (char, Timestamp) -> string

  ghost predicate LocaleWithinWidths(loc: Locale) {
    forall c, t :: IsLocaleDirective(c) ==> |loc(c, t)| <= MaxWidth(c)
  }

  /** The locale used where only numeric directives are rendered. */
  function NoLocale(c: char, t: Timestamp): string {
    ""
  }

  /** The number a numeric directive other than `%%` shows. */
  function NumericValue(c: char, t: Timestamp): (v: nat)
    requires IsNumericDirective(c) && c != '%' && Valid(t) && InRange(t)
    ensures v < Pow10(MaxWidth(c))
  {
    Pow10Small();
    if c == 'Y' then t.year
    else if c == 'y' then t.year % 100
    else if c == 'm' then t.month
    else if c == 'd' then t.day
    else if c == 'H' then t.hour
    else if c == 'M' then t.minute
    else if c == 'S' then t.second
    else if c == 'I' then (t.hour + 11) % 12 + 1
    else if c == 'j' then DayOfYear(DateOf(t))
    else t.microsecond
  }

  function RenderNumeric(c: char, t: Timestamp): (s: string)
    requires IsNumericDirective(c) && Valid(t) && InRange(t)
    ensures |s| == MaxWidth(c)
  {
    if c == '%' then "%"
    else
      PadWidth(NumericValue(c, t), MaxWidth(c));
      Pad(NumericValue(c, t), MaxWidth(c))
  }

  /** True when the format starts with a directive that strftime expands. */
  predicate StartsWithDirective(fmt: string) {
    |fmt| >= 2 && fmt[0] == '%' && IsDirective(fmt[1])
  }

  /** The text one directive expands to. */
  function Expand(c: char, t: Timestamp, loc: Locale): string
    requires IsDirective(c) && Valid(t) && InRange(t)
  {
    if IsNumericDirective(c) then RenderNumeric(c, t) else loc(c, t)
  }

  /**
   * `t.strftime(fmt)` for the directives listed above. A `%` pair outside
   * that list (`%G`, `%e`, `%F`, `%T` and the other platform extensions) is
   * rendered as its two literal characters here, which the platform's
   * strftime does not do.
   */
  function Render(fmt: string, t: Timestamp, loc: Locale): string
    requires Valid(t) && InRange(t)
    decreases |fmt|
  {
    if fmt == [] then []
    else if StartsWithDirective(fmt) then
      Expand(fmt[1], t, loc) + Render(fmt[2..], t, loc)
    else [fmt[0]] + Render(fmt[1..], t, loc)
  }

  /**
   * `get_datetime_fmt_len(fmt)`: the literal characters of the format plus the
   * widest rendering of each directive in it.
   */
  function FormatLength(fmt: string): (n: nat)
    ensures '%' !in fmt ==> n == |fmt|
    decreases |fmt|
  {
    if fmt == [] then 0
    else if StartsWithDirective(fmt) then MaxWidth(fmt[1]) + FormatLength(fmt[2..])
    else
      assert '%' !in fmt ==> '%' !in fmt[1..];
      1 + FormatLength(fmt[1..])
  }

  /** Every directive of the format renders at a width that does not depend on locale or value. */
  predicate NumericOnly(fmt: string)
    decreases |fmt|
  {
    if fmt == [] then true
    else if StartsWithDirective(fmt) then IsNumericDirective(fmt[1]) && NumericOnly(fmt[2..])
    else NumericOnly(fmt[1..])
  }

  /** The maximum length is never exceeded, for any timestamp and any locale within the widths. */
  lemma {:induction false} RenderedLengthBound(fmt: string, t: Timestamp, loc: Locale)
    requires Valid(t) && InRange(t) && LocaleWithinWidths(loc)
    ensures |Render(fmt, t, loc)| <= FormatLength(fmt)
    decreases |fmt|
  {
    if fmt == [] {
    } else if StartsWithDirective(fmt) {
      RenderedLengthBound(fmt[2..], t, loc);
    } else {
      RenderedLengthBound(fmt[1..], t, loc);
    }
  }

  /** For a format of fixed-width directives the maximum length is the rendered length. */
  lemma {:induction false} RenderedLengthExact(fmt: string, t: Timestamp, loc: Locale)
    requires Valid(t) && InRange(t) && NumericOnly(fmt)
    ensures |Render(fmt, t, loc)| == FormatLength(fmt)
    decreases |fmt|
  {
    if fmt == [] {
    } else if StartsWithDirective(fmt) {
      RenderedLengthExact(fmt[2..], t, loc);
    } else {
      RenderedLengthExact(fmt[1..], t, loc);
    }
  }

  /** A format without `%` renders as itself. */
  lemma {:induction false} RenderWithoutDirectives(fmt: string, t: Timestamp, loc: Locale)
    requires Valid(t) && InRange(t) && '%' !in fmt
    ensures Render(fmt, t, loc) == fmt
    decreases |fmt|
  {
    if fmt != [] {
      assert '%' !in fmt[1..];
      RenderWithoutDirectives(fmt[1..], t, loc);
    }
  }

  /** The format does not end in a `%` that would pair with whatever follows it. */
  predicate Closed(fmt: string)
    decreases |fmt|
  {
    if fmt == [] then true
    else if StartsWithDirective(fmt) then Closed(fmt[2..])
    else (|fmt| >= 2 || fmt[0] != '%') && Closed(fmt[1..])
  }

  /** Literal text is closed. */
  lemma {:induction false} LiteralClosed(fmt: string)
    requires '%' !in fmt
    ensures Closed(fmt)
    decreases |fmt|
  {
    if fmt != [] {
      assert '%' !in fmt[1..];
      LiteralClosed(fmt[1..]);
    }
  }

  /** Literal text has no directive of variable width. */
  lemma {:induction false} LiteralNumericOnly(fmt: string)
    requires '%' !in fmt
    ensures NumericOnly(fmt)
    decreases |fmt|
  {
    if fmt != [] {
      assert '%' !in fmt[1..];
      LiteralNumericOnly(fmt[1..]);
    }
  }

  /** A closed format followed by a closed format is closed. */
  lemma {:induction false} ClosedAppend(f1: string, f2: string)
    requires Closed(f1) && Closed(f2)
    ensures Closed(f1 + f2)
    decreases |f1|
  {
    if f1 == [] {
      assert f1 + f2 == f2;
    } else if StartsWithDirective(f1) {
      assert (f1 + f2)[2..] == f1[2..] + f2;
      ClosedAppend(f1[2..], f2);
    } else {
      assert (f1 + f2)[1..] == f1[1..] + f2;
      ClosedAppend(f1[1..], f2);
    }
  }

  /** Rendering a closed format followed by another renders each in turn. */
  lemma {:induction false} RenderAppend(f1: string, f2: string, t: Timestamp, loc: Locale)
    requires Valid(t) && InRange(t) && Closed(f1)
    ensures Render(f1 + f2, t, loc) == Render(f1, t, loc) + Render(f2, t, loc)
    decreases |f1|
  {
    if f1 == [] {
      assert f1 + f2 == f2;
    } else if StartsWithDirective(f1) {
      RenderAppend(f1[2..], f2, t, loc);
      RenderAppendDirective(f1, f2, t, loc);
    } else {
      RenderAppend(f1[1..], f2, t, loc);
      RenderAppendLiteral(f1, f2, t, loc);
    }
  }

  /** A directive at the head of the first format is rendered first. */
  lemma RenderAppendDirective(f1: string, f2: string, t: Timestamp, loc: Locale)
    requires Valid(t) && InRange(t) && StartsWithDirective(f1)
    requires Render(f1[2..] + f2, t, loc) == Render(f1[2..], t, loc) + Render(f2, t, loc)
    ensures Render(f1 + f2, t, loc) == Render(f1, t, loc) + Render(f2, t, loc)
  {
    var x, r1, r2 := Expand(f1[1], t, loc), Render(f1[2..], t, loc), Render(f2, t, loc);
    SplitAfter(f1, f2, 2);
    RenderDirectiveHead(f1 + f2, t, loc);
    RenderDirectiveHead(f1, t, loc);
    AppendAssoc(x, r1, r2);
  }

  /** A literal character at the head of the first format is copied first. */
  lemma RenderAppendLiteral(f1: string, f2: string, t: Timestamp, loc: Locale)
    requires Valid(t) && InRange(t) && f1 != [] && !StartsWithDirective(f1) && (|f1| >= 2 || f1[0] != '%')
    requires Render(f1[1..] + f2, t, loc) == Render(f1[1..], t, loc) + Render(f2, t, loc)
    ensures Render(f1 + f2, t, loc) == Render(f1, t, loc) + Render(f2, t, loc)
  {
    var r1, r2 := Render(f1[1..], t, loc), Render(f2, t, loc);
    SplitAfter(f1, f2, 1);
    RenderLiteralHead(f1 + f2, t, loc);
    RenderLiteralHead(f1, t, loc);
    AppendAssoc([f1[0]], r1, r2);
  }

  /** A format that starts with a directive renders it first. */
  lemma RenderDirectiveHead(fmt: string, t: Timestamp, loc: Locale)
    requires Valid(t) && InRange(t) && StartsWithDirective(fmt)
    ensures Render(fmt, t, loc) == Expand(fmt[1], t, loc) + Render(fmt[2..], t, loc)
  {
  }

  /** A format that starts with anything else copies its first character. */
  lemma RenderLiteralHead(fmt: string, t: Timestamp, loc: Locale)
    requires Valid(t) && InRange(t) && fmt != [] && !StartsWithDirective(fmt)
    ensures Render(fmt, t, loc) == [fmt[0]] + Render(fmt[1..], t, loc)
  {
  }

  /** The first `k` characters of `a` are those of `a + b`, and what follows them is the rest of `a`, then `b`. */
  lemma SplitAfter(a: string, b: string, k: nat)
    requires k <= |a|
    ensures (a + b)[..k] == a[..k] && (a + b)[k..] == a[k..] + b
    ensures k >= 2 ==> StartsWithDirective(a + b) == StartsWithDirective(a)
    ensures k >= 1 && !StartsWithDirective(a) && (|a| >= 2 || a[0] != '%') ==> !StartsWithDirective(a + b)
  {
  }

  lemma AppendAssoc(a: string, b: string, c: string)
    ensures a + (b + c) == (a + b) + c
  {
  }

  /** The maximum length of a closed format followed by another is the sum of the two. */
  lemma {:induction false} FormatLengthAppend(f1: string, f2: string)
    requires Closed(f1)
    ensures FormatLength(f1 + f2) == FormatLength(f1) + FormatLength(f2)
    ensures NumericOnly(f1 + f2) == (NumericOnly(f1) && NumericOnly(f2))
    decreases |f1|
  {
    if f1 == [] {
      assert f1 + f2 == f2;
    } else if StartsWithDirective(f1) {
      assert (f1 + f2)[2..] == f1[2..] + f2;
      FormatLengthAppend(f1[2..], f2);
    } else {
      assert (f1 + f2)[1..] == f1[1..] + f2;
      FormatLengthAppend(f1[1..], f2);
    }
  }

  // ------------------------------------------------------------------ parsing

  /** The fields strptime has read so far; unset fields keep strptime's defaults. */
  datatype Fields = Fields(year: int, month: int, day: int,
                           hour: int, minute: int, second: int, julian: Option<int>)

  /** January 1, 1900 at midnight: what strptime assumes for fields the format lacks. */
  const DefaultFields: Fields := Fields(1900, 1, 1, 0, 0, 0, None)

  /** The digit fields the reader knows. */
  predicate IsFieldDirective(c: char) {
    c in "YmdHMSj"
  }

  function FieldWidth(c: char): nat
    requires IsFieldDirective(c)
  {
    if c == 'Y' then 4 else if c == 'j' then 3 else 2
  }

  /** The values strptime's pattern for each field accepts. */
  predicate FieldValueAccepted(c: char, v: int)
    requires IsFieldDirective(c)
  {
    match c
    case 'Y' => 0 <= v <= 9999
    case 'm' => 1 <= v <= 12
    case 'd' => 1 <= v <= 31
    case 'H' => 0 <= v <= 23
    case 'M' => 0 <= v <= 59
    case 'S' => 0 <= v <= 61
    case 'j' => 1 <= v <= 366
  }

  predicate FieldsAccepted(f: Fields) {
    && 0 <= f.year <= 9999 && 1 <= f.month <= 12 && 1 <= f.day <= 31
    && 0 <= f.hour <= 23 && 0 <= f.minute <= 59 && 0 <= f.second <= 61
    && (f.julian.Some? ==> 1 <= f.julian.value <= 366)
  }

  function SetField(f: Fields, c: char, v: int): (g: Fields)
    requires IsFieldDirective(c) && FieldValueAccepted(c, v) && FieldsAccepted(f)
    ensures FieldsAccepted(g)
  {
    match c
    case 'Y' => f.(year := v)
    case 'm' => f.(month := v)
    case 'd' => f.(day := v)
    case 'H' => f.(hour := v)
    case 'M' => f.(minute := v)
    case 'S' => f.(second := v)
    case 'j' => f.(julian := Some(v))
  }

  /** Every `%` of the format starts a directive the reader knows (or is `%%`). */
  predicate ReadableFormat(fmt: string)
    decreases |fmt|
  {
    if fmt == [] then true
    else if fmt[0] == '%' then
      |fmt| >= 2 && (fmt[1] == '%' || IsFieldDirective(fmt[1])) && ReadableFormat(fmt[2..])
    else ReadableFormat(fmt[1..])
  }

  /**
   * Matches a readable format against the start of `s`; on success yields the
   * fields read and the text after the match.
   */
  function Scan(fmt: string, s: string, f: Fields): (r: Result<(Fields, string), TimeError>)
    requires ReadableFormat(fmt) && FieldsAccepted(f)
    ensures r.Success? ==> FieldsAccepted(r.value.0)
    ensures r.Success? ==> |r.value.1| <= |s| && r.value.1 == s[|s| - |r.value.1|..]
    ensures r.Failure? ==> r.error == FormatMismatch
    decreases |fmt|
  {
    if fmt == [] then Success((f, s))
    else if fmt[0] == '%' && fmt[1] == '%' then
      if |s| >= 1 && s[0] == '%' then Scan(fmt[2..], s[1..], f) else Failure(FormatMismatch)
    else if fmt[0] == '%' then
      var c, w := fmt[1], FieldWidth(fmt[1]);
      if |s| >= w && AllDigits(s[..w]) && FieldValueAccepted(c, ValueOf(s[..w])) then
        Scan(fmt[2..], s[w..], SetField(f, c, ValueOf(s[..w])))
      else Failure(FormatMismatch)
    else if |s| >= 1 && s[0] == fmt[0] then Scan(fmt[1..], s[1..], f)
    else Failure(FormatMismatch)
  }

  /** The timestamp strptime builds from the fields it read, or the field that `datetime` refuses. */
  function FieldsToTimestamp(f: Fields): (r: Result<Timestamp, TimeError>)
    requires FieldsAccepted(f)
    ensures r.Success? ==> Valid(r.value) && InRange(r.value) && r.value.microsecond == 0
    ensures r.Success? ==> r.value.hour == f.hour && r.value.minute == f.minute && r.value.second == f.second
    ensures r.Failure? ==> r.error == OutOfRange
  {
    if f.year < MinYear || f.second > 59 then Failure(OutOfRange)
    else if f.julian.Some? then
      // A day of the year counts on from January 1 and may run into the next year.
      var d := DateAt(f.year, f.julian.value);
      if d.year > MaxYear then Failure(OutOfRange)
      else Success(Timestamp(d.year, d.month, d.day, f.hour, f.minute, f.second, 0))
    else if f.day > DaysInMonth(f.year, f.month) then Failure(OutOfRange)
    else Success(Timestamp(f.year, f.month, f.day, f.hour, f.minute, f.second, 0))
  }

  /** `datetime.strptime(s, fmt)` for the digit-field formats. */
  function Strptime(fmt: string, s: string): (r: Result<Timestamp, TimeError>)
    ensures r.Success? ==> Valid(r.value) && InRange(r.value) && r.value.microsecond == 0
    ensures r.Failure? && r.error.UnconvertedData? ==>
              0 < |r.error.rest| <= |s| && r.error.rest == s[|s| - |r.error.rest|..]
  {
    if !ReadableFormat(fmt) then Failure(BadDirective)
    else
      match Scan(fmt, s, DefaultFields)
      case Failure(e) => Failure(e)
      case Success((f, rest)) =>
        if rest != [] then Failure(UnconvertedData(rest)) else FieldsToTimestamp(f)
  }

  /** A fraction of a second as text: a point and at least one digit. */
  predicate FractionTail(u: string) {
    |u| >= 2 && u[0] == '.' && AllDigits(u[1..])
  }

  /**
   * `strptime` as the date and time conversion calls it: when the only
   * complaint is an unconverted fraction of a second, the fraction is cut off
   * and the rest is parsed again; any other unconverted text is refused.
   */
  function StrptimeIgnoringTrailing(fmt: string, s: string): (r: Result<Timestamp, TimeError>)
    ensures r.Success? ==> Valid(r.value) && InRange(r.value) && r.value.microsecond == 0
  {
    match Strptime(fmt, s)
    case Failure(UnconvertedData(rest)) =>
      if FractionTail(rest) then Strptime(fmt, s[..|s| - |rest|]) else Failure(UnconvertedData(rest))
    case r => r
  }

  /** The reader on a format that starts with `%%`: it takes a `%` from the text. */
  lemma ScanPercentHead(fmt: string, s: string, f: Fields)
    requires ReadableFormat(fmt) && FieldsAccepted(f) && |fmt| >= 2 && fmt[0] == '%' && fmt[1] == '%'
    ensures ReadableFormat(fmt[2..])
    ensures |s| >= 1 && s[0] == '%' ==> Scan(fmt, s, f) == Scan(fmt[2..], s[1..], f)
    ensures !(|s| >= 1 && s[0] == '%') ==> Scan(fmt, s, f) == Failure(FormatMismatch)
  {
  }

  /** The reader on a format that starts with a digit field: it takes that many digits from the text. */
  lemma ScanFieldHead(fmt: string, s: string, f: Fields)
    requires ReadableFormat(fmt) && FieldsAccepted(f) && |fmt| >= 2 && fmt[0] == '%' && fmt[1] != '%'
    ensures IsFieldDirective(fmt[1]) && ReadableFormat(fmt[2..])
    ensures var w := FieldWidth(fmt[1]);
            |s| >= w && AllDigits(s[..w]) && FieldValueAccepted(fmt[1], ValueOf(s[..w]))
            ==> FieldsAccepted(SetField(f, fmt[1], ValueOf(s[..w])))
                && Scan(fmt, s, f) == Scan(fmt[2..], s[w..], SetField(f, fmt[1], ValueOf(s[..w])))
    ensures var w := FieldWidth(fmt[1]);
            !(|s| >= w && AllDigits(s[..w]) && FieldValueAccepted(fmt[1], ValueOf(s[..w])))
            ==> Scan(fmt, s, f) == Failure(FormatMismatch)
  {
  }

  /** The reader on a format that starts with a literal character: it takes that character from the text. */
  lemma ScanLiteralHead(fmt: string, s: string, f: Fields)
    requires ReadableFormat(fmt) && FieldsAccepted(f) && fmt != [] && fmt[0] != '%'
    ensures ReadableFormat(fmt[1..])
    ensures |s| >= 1 && s[0] == fmt[0] ==> Scan(fmt, s, f) == Scan(fmt[1..], s[1..], f)
    ensures !(|s| >= 1 && s[0] == fmt[0]) ==> Scan(fmt, s, f) == Failure(FormatMismatch)
  {
  }

  /** What a matching prefix leaves over does not change what the reader reads from the prefix. */
  lemma {:induction false} ScanExtend(fmt: string, p: string, u: string, f: Fields)
    requires ReadableFormat(fmt) && FieldsAccepted(f)
    requires Scan(fmt, p, f).Success? && Scan(fmt, p, f).value.1 == []
    ensures Scan(fmt, p + u, f) == Success((Scan(fmt, p, f).value.0, u))
    decreases |fmt|
  {
    if fmt == [] {
      assert Scan(fmt, p, f) == Success((f, p));
    } else if fmt[0] == '%' && fmt[1] == '%' {
      ScanPercentHead(fmt, p, f);
      ScanPercentHead(fmt, p + u, f);
      SplitAfter(p, u, 1);
      ScanExtend(fmt[2..], p[1..], u, f);
    } else if fmt[0] == '%' {
      var w := FieldWidth(fmt[1]);
      ScanFieldHead(fmt, p, f);
      ScanFieldHead(fmt, p + u, f);
      SplitAfter(p, u, w);
      ScanExtend(fmt[2..], p[w..], u, SetField(f, fmt[1], ValueOf(p[..w])));
    } else {
      ScanLiteralHead(fmt, p, f);
      ScanLiteralHead(fmt, p + u, f);
      SplitAfter(p, u, 1);
      ScanExtend(fmt[1..], p[1..], u, f);
    }
  }

  /** A fraction of a second after a complete match is dropped by the conversion's retry. */
  lemma TrailingTextIgnored(fmt: string, p: string, u: string)
    requires ReadableFormat(fmt)
    requires Scan(fmt, p, DefaultFields).Success? && Scan(fmt, p, DefaultFields).value.1 == []
    requires u == [] || FractionTail(u)
    ensures StrptimeIgnoringTrailing(fmt, p + u) == Strptime(fmt, p)
  {
    ScanExtend(fmt, p, u, DefaultFields);
    var f := Scan(fmt, p, DefaultFields).value.0;
    StrptimeOfScan(fmt, p, f, []);
    if u == [] {
      assert p + u == p;
    } else {
      StrptimeOfScan(fmt, p + u, f, u);
      TrailingCut(fmt, p + u, u);
      assert (p + u)[..|p + u| - |u|] == p;
    }
  }

  /** Any other text after a complete match is refused as unconverted. */
  lemma TrailingTextRefused(fmt: string, p: string, u: string)
    requires ReadableFormat(fmt)
    requires Scan(fmt, p, DefaultFields).Success? && Scan(fmt, p, DefaultFields).value.1 == []
    requires u != [] && !FractionTail(u)
    ensures StrptimeIgnoringTrailing(fmt, p + u) == Failure(UnconvertedData(u))
  {
    ScanExtend(fmt, p, u, DefaultFields);
    StrptimeOfScan(fmt, p + u, Scan(fmt, p, DefaultFields).value.0, u);
  }

  /** What the conversion makes of what the reader returns. */
  lemma StrptimeOfScan(fmt: string, s: string, f: Fields, rest: string)
    requires ReadableFormat(fmt) && Scan(fmt, s, DefaultFields) == Success((f, rest))
    ensures Strptime(fmt, s) == if rest != [] then Failure(UnconvertedData(rest)) else FieldsToTimestamp(f)
  {
  }

  /** An unconverted fraction of a second is cut off and the text before it converted again. */
  lemma TrailingCut(fmt: string, s: string, rest: string)
    requires Strptime(fmt, s) == Failure(UnconvertedData(rest)) && FractionTail(rest)
    ensures StrptimeIgnoringTrailing(fmt, s) == Strptime(fmt, s[..|s| - |rest|])
  {
  }

  /** The fields the reader collects from a rendering of `t` under `fmt`. */
  function Collect(fmt: string, t: Timestamp, f: Fields): Fields
    requires ReadableFormat(fmt) && Valid(t)
    decreases |fmt|
  {
    if fmt == [] then f
    else if fmt[0] == '%' && fmt[1] == '%' then Collect(fmt[2..], t, f)
    else if fmt[0] == '%' then Collect(fmt[2..], t, SetFieldOf(f, fmt[1], t))
    else Collect(fmt[1..], t, f)
  }

  /** Field `c` of the timestamp, as the reader stores it. */
  function SetFieldOf(f: Fields, c: char, t: Timestamp): Fields
    requires IsFieldDirective(c) && Valid(t)
  {
    match c
    case 'Y' => f.(year := t.year)
    case 'm' => f.(month := t.month)
    case 'd' => f.(day := t.day)
    case 'H' => f.(hour := t.hour)
    case 'M' => f.(minute := t.minute)
    case 'S' => f.(second := t.second)
    case 'j' => f.(julian := Some(DayOfYear(DateOf(t))))
  }

  /** A digit field of the reader is a numeric directive of the renderer, and reads back its value. */
  lemma FieldOfRendering(c: char, t: Timestamp, f: Fields)
    requires IsFieldDirective(c) && Valid(t) && InRange(t) && FieldsAccepted(f)
    ensures IsNumericDirective(c) && c != '%' && FieldWidth(c) == MaxWidth(c)
    ensures FieldValueAccepted(c, NumericValue(c, t))
    ensures SetField(f, c, NumericValue(c, t)) == SetFieldOf(f, c, t)
  {
  }

  /** The reader takes a zero-padded field of the right width and moves on. */
  lemma ScanField(fmt: string, field: string, tail: string, f: Fields, v: int)
    requires ReadableFormat(fmt) && FieldsAccepted(f)
    requires |fmt| >= 2 && fmt[0] == '%' && IsFieldDirective(fmt[1])
    requires |field| == FieldWidth(fmt[1]) && AllDigits(field) && ValueOf(field) == v
    requires FieldValueAccepted(fmt[1], v)
    ensures Scan(fmt, field + tail, f) == Scan(fmt[2..], tail, SetField(f, fmt[1], v))
  {
    var s := field + tail;
    assert s[..|field|] == field;
    assert fmt[1] != '%';
    assert s[|field|..] == tail;
  }

  /** Reading back a rendering recovers the rendered fields and leaves what follows. */
  lemma {:induction false} ScanRender(fmt: string, t: Timestamp, loc: Locale, u: string, f: Fields)
    requires ReadableFormat(fmt) && Valid(t) && InRange(t) && FieldsAccepted(f)
    ensures FieldsAccepted(Collect(fmt, t, f))
    ensures Scan(fmt, Render(fmt, t, loc) + u, f) == Success((Collect(fmt, t, f), u))
    decreases |fmt|
  {
    if fmt == [] {
      assert Render(fmt, t, loc) + u == u;
    } else if fmt[0] == '%' && fmt[1] == '%' {
      var rest := Render(fmt[2..], t, loc);
      RenderDirectiveHead(fmt, t, loc);
      AppendAssoc("%", rest, u);
      ScanPercentHead(fmt, Render(fmt, t, loc) + u, f);
      assert ("%" + (rest + u))[1..] == rest + u;
      ScanRender(fmt[2..], t, loc, u, f);
    } else if fmt[0] == '%' {
      var c := fmt[1];
      ScanFieldHead(fmt, [], f);
      FieldOfRendering(c, t, f);
      var v := NumericValue(c, t);
      var field := RenderNumeric(c, t);
      var rest := Render(fmt[2..], t, loc);
      RenderDirectiveHead(fmt, t, loc);
      AppendAssoc(field, rest, u);
      ScanField(fmt, field, rest + u, f, v);
      ScanRender(fmt[2..], t, loc, u, SetFieldOf(f, c, t));
    } else {
      var rest := Render(fmt[1..], t, loc);
      RenderLiteralHead(fmt, t, loc);
      AppendAssoc([fmt[0]], rest, u);
      ScanLiteralHead(fmt, Render(fmt, t, loc) + u, f);
      assert ([fmt[0]] + (rest + u))[1..] == rest + u;
      ScanRender(fmt[1..], t, loc, u, f);
    }
  }

  /** Every readable format is closed. */
  lemma {:induction false} ReadableClosed(fmt: string)
    requires ReadableFormat(fmt)
    ensures Closed(fmt)
    decreases |fmt|
  {
    if fmt != [] {
      if fmt[0] == '%' {
        ReadableClosed(fmt[2..]);
      } else {
        ReadableClosed(fmt[1..]);
      }
    }
  }

  /** Reading a readable format followed by another reads the first, then the second. */
  lemma {:induction false} CollectAppend(f1: string, f2: string, t: Timestamp, f: Fields)
    requires ReadableFormat(f1) && ReadableFormat(f2) && Valid(t)
    ensures ReadableFormat(f1 + f2)
    ensures Collect(f1 + f2, t, f) == Collect(f2, t, Collect(f1, t, f))
    decreases |f1|
  {
    if f1 == [] {
      assert f1 + f2 == f2;
    } else if f1[0] == '%' {
      assert (f1 + f2)[2..] == f1[2..] + f2;
      CollectAppend(f1[2..], f2, t, if f1[1] == '%' then f else SetFieldOf(f, f1[1], t));
    } else {
      assert (f1 + f2)[1..] == f1[1..] + f2;
      CollectAppend(f1[1..], f2, t, f);
    }
  }

  /** Literal text is readable, renders as itself and reads no field. */
  lemma {:induction false} LiteralFormat(fmt: string, t: Timestamp, f: Fields)
    requires '%' !in fmt && Valid(t)
    ensures ReadableFormat(fmt) && Collect(fmt, t, f) == f
    decreases |fmt|
  {
    if fmt != [] {
      assert '%' !in fmt[1..];
      LiteralFormat(fmt[1..], t, f);
    }
  }

  /** A single digit-field directive reads its field. */
  lemma FieldFormat(c: char, t: Timestamp, f: Fields)
    requires IsFieldDirective(c) && Valid(t)
    ensures ReadableFormat(['%', c]) && Collect(['%', c], t, f) == SetFieldOf(f, c, t)
  {
    assert ['%', c][2..] == [];
  }

  /**
   * Reading back a rendering, with or without a fraction of a second after it,
   * gives the timestamp the rendered fields make.
   */
  lemma ReadRendering(fmt: string, t: Timestamp, loc: Locale, u: string)
    requires ReadableFormat(fmt) && Valid(t) && InRange(t)
    requires u == [] || FractionTail(u)
    ensures FieldsAccepted(Collect(fmt, t, DefaultFields))
    ensures StrptimeIgnoringTrailing(fmt, Render(fmt, t, loc) + u)
         == FieldsToTimestamp(Collect(fmt, t, DefaultFields))
  {
    var p := Render(fmt, t, loc);
    ScanRender(fmt, t, loc, [], DefaultFields);
    assert p + [] == p;
    TrailingTextIgnored(fmt, p, u);
  }
}
