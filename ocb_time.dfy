/**
 * ocbpy's `ocb_time`: turning the many ways a time can be given (a date and a
 * time of day, a year and seconds of year, a YYDDD code with a time of day or
 * seconds of day) into one timestamp, the hour of day of a timestamp, the
 * linear conversions between degrees, hours and radians, and the local solar
 * time of a longitude and its inverse.
 */
module OcbTime {
  import opened Wrappers
  import opened Digits
  import opened Calendar
  import opened TimeFormat
  import opened Text
  import opened Elementwise

  // ------------------------------------------------ seconds to microseconds

  /** `numpy.modf`'s whole part: the number with its fraction dropped, toward zero. */
  function Trunc(x: real): (n: int)
    ensures 0.0 <= x ==> 0 <= n && n as real <= x < n as real + 1.0
    ensures x < 0.0 ==> n <= 0 && n as real - 1.0 < x <= n as real
  {
    if x >= 0.0 then x.Floor else -((-x).Floor)
  }

  /** Python's `round`: the nearest integer, and the even one of two equally near. */
  function RoundHalfEven(x: real): (n: int)
    ensures n as real - 0.5 <= x <= n as real + 0.5
    ensures (x == n as real - 0.5 || x == n as real + 0.5) ==> n % 2 == 0
  {
    var f := x.Floor;
    var d := x - f as real;
    if d < 0.5 then f
    else if d > 0.5 then f + 1
    else if f % 2 == 0 then f
    else f + 1
  }

  /** An integer rounds to itself. */
  lemma RoundHalfEvenOfInt(k: int)
    ensures RoundHalfEven(k as real) == k
  {
  }

  /**
   * The microseconds of `datetime.timedelta(seconds = s)`: the whole seconds,
   * then the fraction rounded to the nearest microsecond, ties to even.
   */
  function SecondsToMicros(s: real): (us: int)
    ensures us as real - 0.5 <= s * 1000000.0 <= us as real + 0.5
  {
    var whole := Trunc(s);
    whole * MicrosPerSecond + RoundHalfEven((s - whole as real) * 1000000.0)
  }

  /** A whole number of microseconds, given as seconds, converts back exactly. */
  lemma SecondsToMicrosOfMicros(k: int)
    ensures SecondsToMicros(k as real / 1000000.0) == k
  {
    var s := k as real / 1000000.0;
    var whole := Trunc(s);
    assert (s - whole as real) * 1000000.0 == (k - whole * MicrosPerSecond) as real;
    RoundHalfEvenOfInt(k - whole * MicrosPerSecond);
  }

  /** Whole seconds added to a non-negative offset add exactly their microseconds. */
  lemma SecondsToMicrosShift(k: nat, s: real)
    requires s >= 0.0
    ensures SecondsToMicros(k as real + s) == k * MicrosPerSecond + SecondsToMicros(s)
  {
    var x := k as real + s;
    var n := Trunc(s);
    assert (k + n) as real <= x < (k + n) as real + 1.0;
    assert Trunc(x) == k + n;
    assert x - (k + n) as real == s - n as real;
  }

  /** A timestamp, or the failure `datetime` raises for a year it cannot hold. */
  function Checked(t: Timestamp): (r: Result<Timestamp, TimeError>)
    ensures r.Success? <==> InRange(t)
    ensures r.Success? ==> r.value == t
    ensures r.Failure? ==> r.error == OutOfRange
  {
    if InRange(t) then Success(t) else Failure(OutOfRange)
  }

  /** January 1 of the year, at midnight. */
  function NewYear(y: int): (t: Timestamp)
    ensures Valid(t) && DateOf(t) == Date(y, 1, 1) && MicroOfDay(t) == 0
  {
    Midnight(Date(y, 1, 1))
  }

  // ------------------------------------------------------------------ YYDDD

  /** The `yyddd` argument: text, or a number (which is refused). */
  datatype YydddArg = YydddText(text: string) | YydddNumber(number: int)

  /**
   * `yyddd_to_date`: the year is 1900 plus the integer before the last three
   * characters, the day of the year is the number the last three digits make;
   * the result is midnight of that day.
   */
  function YydddToDate(arg: YydddArg): (r: Result<Timestamp, TimeError>)
    ensures arg.YydddNumber? ==> r == Failure(NotAString)
    ensures arg.YydddText? && |arg.text| <= 3 ==> r == Failure(InvalidLiteral)
    ensures r.Success? ==> Valid(r.value) && InRange(r.value) && MicroOfDay(r.value) == 0
    ensures r.Success? ==> 1000 <= r.value.year
  {
    match arg
    case YydddNumber(_) => Failure(NotAString)
    case YydddText(s) =>
      var cut := if |s| >= 3 then |s| - 3 else 0;
      YydddOfParts(ParseInt(s[..cut]), s[cut..])
  }

  /** A YYDDD code once its year part has been read: no integer there is refused, else the day part is read in that year. */
  function YydddOfParts(yy: Option<int>, ddd: string): Result<Timestamp, TimeError> {
    match yy
    case None => Failure(InvalidLiteral)
    case Some(y) => DayOfYearToDate(1900 + y, ddd)
  }

  /**
   * Midnight of day `ddd` (three digits, 1 to 366) of a four-digit year; a day
   * past the end of the year runs into the next one.
   */
  function DayOfYearToDate(year: int, ddd: string): (r: Result<Timestamp, TimeError>)
    ensures r.Success? ==> Valid(r.value) && InRange(r.value) && MicroOfDay(r.value) == 0
    ensures r.Success? ==> year <= r.value.year
    ensures !(1000 <= year <= MaxYear) ==> r == Failure(FormatMismatch)
  {
    if !(1000 <= year <= MaxYear) || !AllDigits(ddd) || !(1 <= ValueOf(ddd) <= 366) then
      Failure(FormatMismatch)
    else
      var n := ValueOf(ddd);
      var d := if n <= DaysInYear(year) then DateOfDayOfYear(year, n) else Date(year + 1, 1, 1);
      if d.year > MaxYear then Failure(OutOfRange) else Success(Midnight(d))
  }

  /** The YYDDD code of a date from 1900 on: the years since 1900 (two digits at least), then the day of the year. */
  function EncodeYyddd(d: Date): (s: string)
    requires ValidDate(d) && 1900 <= d.year
    ensures |s| >= 5 && AllDigits(s)
  {
    var yy, ddd := Pad(d.year - 1900, 2), Pad(DayOfYear(d), 3);
    AllDigitsAppend(yy, ddd);
    yy + ddd
  }

  /** A number of at least 10^w is written with more than `w` digits. */
  lemma DecimalAtLeast(n: nat, w: nat)
    requires Pow10(w) <= n
    ensures |Decimal(n)| > w
  {
    Pow10Monotone(|Decimal(n)|, w);
  }

  lemma {:induction false} Pow10Monotone(a: nat, b: nat)
    ensures a <= b ==> Pow10(a) <= Pow10(b)
    decreases b
  {
    if a < b {
      Pow10Monotone(a, b - 1);
    }
  }

  /** Decoding the YYDDD code of a date gives midnight of that date. */
  lemma YydddRoundTrip(d: Date)
    requires ValidDate(d) && 1900 <= d.year <= MaxYear
    ensures YydddToDate(YydddText(EncodeYyddd(d))) == Success(Midnight(d))
  {
    var s := EncodeYyddd(d);
    YydddParts(d, s);
    YydddTextOfDate(s, d);
  }

  /** Text whose year part and day part name a date decodes to that date. */
  lemma YydddTextOfDate(s: string, d: Date)
    requires ValidDate(d) && 1000 <= d.year <= MaxYear && |s| >= 3
    requires ParseInt(s[..|s| - 3]) == Some(d.year - 1900)
    requires AllDigits(s[|s| - 3..]) && ValueOf(s[|s| - 3..]) == DayOfYear(d)
    ensures YydddToDate(YydddText(s)) == Success(Midnight(d))
  {
    var yy, ddd, v := s[..|s| - 3], s[|s| - 3..], d.year - 1900;
    YydddTextParts(s, yy, ddd);
    YydddOfPartsSome(v, d.year, ddd);
    DayOfYearRoundTrip(d, d.year, ddd);
  }

  lemma YydddOfPartsSome(v: int, year: int, ddd: string)
    requires year == 1900 + v
    ensures YydddOfParts(Some(v), ddd) == DayOfYearToDate(year, ddd)
  {
  }

  /** Text of at least three characters is decoded from its last three characters and what comes before them. */
  lemma YydddTextParts(s: string, yy: string, ddd: string)
    requires |s| >= 3 && yy == s[..|s| - 3] && ddd == s[|s| - 3..]
    ensures YydddToDate(YydddText(s)) == YydddOfParts(ParseInt(yy), ddd)
  {
  }

  lemma DayOfYearRoundTrip(d: Date, year: int, ddd: string)
    requires ValidDate(d) && 1000 <= d.year <= MaxYear && year == d.year
    requires AllDigits(ddd) && ValueOf(ddd) == DayOfYear(d)
    ensures DayOfYearToDate(year, ddd) == Success(Midnight(d))
  {
    DateOfDayOfYearRoundTrip(d);
  }

  /** The two parts of the YYDDD code of a date: the years since 1900 and the day of the year. */
  lemma YydddParts(d: Date, s: string)
    requires ValidDate(d) && 1900 <= d.year && s == EncodeYyddd(d)
    ensures |s| >= 3 && ParseInt(s[..|s| - 3]) == Some(d.year - 1900)
    ensures AllDigits(s[|s| - 3..]) && ValueOf(s[|s| - 3..]) == DayOfYear(d)
  {
    var yy, ddd := Pad(d.year - 1900, 2), Pad(DayOfYear(d), 3);
    Pow10Small();
    PadWidth(DayOfYear(d), 3);
    assert s[..|s| - 3] == yy && s[|s| - 3..] == ddd;
    ParseIntPad(d.year - 1900, 2);
  }

  // ------------------------------------------------------- seconds of year

  /**
   * `year_soy_to_datetime`: January 1 of the year plus the seconds of the
   * year; an offset outside the year is refused.
   */
  function YearSoyToDatetime(year: int, soy: real): (r: Result<Timestamp, TimeError>)
    ensures !(MinYear <= year <= MaxYear) ==> r == Failure(OutOfRange)
    ensures (MinYear <= year <= MaxYear && (soy < 0.0 || soy >= (DaysInYear(year) * 86400) as real))
            ==> r == Failure(FormatMismatch)
    ensures r.Success? ==> Valid(r.value) && InRange(r.value)
    ensures r.Success? ==> Instant(r.value) == Instant(NewYear(year)) + SecondsToMicros(soy)
  {
    if !(MinYear <= year <= MaxYear) then Failure(OutOfRange)
    else if soy < 0.0 || soy >= (DaysInYear(year) * 86400) as real then Failure(FormatMismatch)
    else Checked(AddMicros(NewYear(year), SecondsToMicros(soy)))
  }

  // ---------------------------------------------------------------- formats

  /** The default format of `convert_time`, and its date and time halves. */
  const DefaultFormat: string := "%Y-%m-%d %H:%M:%S"
  const DateFormat: string := "%Y-%m-%d"

  /** A single fixed-width directive: its maximum length is its width. */
  lemma DirectiveLength(c: char)
    requires IsNumericDirective(c)
    ensures Closed(['%', c]) && NumericOnly(['%', c]) && FormatLength(['%', c]) == MaxWidth(c)
  {
    assert ['%', c][2..] == [];
  }

  /** A fixed-width directive and literal text in front of a format add their widths to its maximum length. */
  lemma DirectiveThenLength(a: char, lit: string, rest: string)
    requires IsNumericDirective(a) && '%' !in lit && Closed(rest)
    ensures Closed(['%', a] + lit + rest)
    ensures NumericOnly(['%', a] + lit + rest) == NumericOnly(rest)
    ensures FormatLength(['%', a] + lit + rest) == MaxWidth(a) + |lit| + FormatLength(rest)
  {
    var pa := ['%', a];
    AppendAssoc(pa, lit, rest);
    assert pa[2..] == [];
    ClosedDirectiveThen(a, lit, rest);
    LiteralClosed(lit);
    LiteralNumericOnly(lit);
    FormatLengthAppend(lit, rest);
    FormatLengthAppend(pa, lit + rest);
  }

  /** Three fixed-width directives with literal separators: the maximum length is their widths and the separators. */
  lemma ThreeLength(a: char, s1: string, b: char, s2: string, c: char)
    requires IsNumericDirective(a) && IsNumericDirective(b) && IsNumericDirective(c)
    requires '%' !in s1 && '%' !in s2
    ensures Closed(['%', a] + s1 + ['%', b] + s2 + ['%', c])
    ensures NumericOnly(['%', a] + s1 + ['%', b] + s2 + ['%', c])
    ensures FormatLength(['%', a] + s1 + ['%', b] + s2 + ['%', c])
         == MaxWidth(a) + |s1| + MaxWidth(b) + |s2| + MaxWidth(c)
  {
    var pa, pb, pc := ['%', a], ['%', b], ['%', c];
    var rest := pb + s2 + pc;
    DirectiveLength(c);
    DirectiveThenLength(b, s2, pc);
    DirectiveThenLength(a, s1, rest);
    Reassociate(pa, s1, pb, s2, pc);
  }

  lemma Reassociate(pa: string, s1: string, pb: string, s2: string, pc: string)
    ensures pa + s1 + pb + s2 + pc == pa + s1 + (pb + s2 + pc)
  {
  }

  lemma RightNest(pa: string, s1: string, pb: string, s2: string, pc: string)
    ensures pa + s1 + pb + s2 + pc == pa + (s1 + (pb + (s2 + pc)))
  {
  }

  /** A date format `%Y<a>%m<b>%d` with literal separators. */
  function DateShape(a: string, b: string): string {
    "%Y" + a + "%m" + b + "%d"
  }

  /** A time format `%H<a>%M<b>%S` with literal separators. */
  function TimeShape(a: string, b: string): string {
    "%H" + a + "%M" + b + "%S"
  }

  /** A single directive renders as that directive. */
  lemma RenderDirective(c: char, t: Timestamp, loc: Locale)
    requires IsNumericDirective(c) && Valid(t) && InRange(t)
    ensures Closed(['%', c]) && Render(['%', c], t, loc) == RenderNumeric(c, t)
  {
    assert ['%', c][2..] == [];
  }

  /** A directive and literal text in front of a format render in front of its rendering. */
  lemma RenderDirectiveThen(a: char, lit: string, rest: string, t: Timestamp, loc: Locale)
    requires IsNumericDirective(a) && '%' !in lit && Valid(t) && InRange(t)
    ensures Render(['%', a] + lit + rest, t, loc) == RenderNumeric(a, t) + lit + Render(rest, t, loc)
  {
    var pa := ['%', a];
    AppendAssoc(pa, lit, rest);
    RenderDirective(a, t, loc);
    RenderWithoutDirectives(lit, t, loc);
    LiteralClosed(lit);
    RenderAppend(lit, rest, t, loc);
    RenderAppend(pa, lit + rest, t, loc);
  }

  /** A directive and literal text in front of a closed format keep it closed. */
  lemma ClosedDirectiveThen(a: char, lit: string, rest: string)
    requires IsDirective(a) && '%' !in lit && Closed(rest)
    ensures Closed(['%', a] + lit + rest)
  {
    var pa := ['%', a];
    AppendAssoc(pa, lit, rest);
    assert pa[2..] == [];
    LiteralClosed(lit);
    ClosedAppend(lit, rest);
    ClosedAppend(pa, lit + rest);
  }

  /** How a format of three directives with literal separators renders. */
  lemma RenderThree(a: char, s1: string, b: char, s2: string, c: char, t: Timestamp, loc: Locale)
    requires IsNumericDirective(a) && IsNumericDirective(b) && IsNumericDirective(c)
    requires '%' !in s1 && '%' !in s2 && Valid(t) && InRange(t)
    ensures Render(['%', a] + s1 + ['%', b] + s2 + ['%', c], t, loc)
         == RenderNumeric(a, t) + s1 + RenderNumeric(b, t) + s2 + RenderNumeric(c, t)
  {
    var pa, pb, pc := ['%', a], ['%', b], ['%', c];
    var rest := pb + s2 + pc;
    Reassociate(pa, s1, pb, s2, pc);
    RenderDirective(c, t, loc);
    RenderDirectiveThen(b, s2, pc, t, loc);
    RenderDirectiveThen(a, s1, rest, t, loc);
    Reassociate(RenderNumeric(a, t), s1, RenderNumeric(b, t), s2, RenderNumeric(c, t));
  }

  /** How a format of three digit fields with literal separators reads. */
  lemma CollectThree(a: char, s1: string, b: char, s2: string, c: char, t: Timestamp, f: Fields)
    requires IsFieldDirective(a) && IsFieldDirective(b) && IsFieldDirective(c)
    requires '%' !in s1 && '%' !in s2 && Valid(t)
    ensures ReadableFormat(['%', a] + s1 + ['%', b] + s2 + ['%', c])
    ensures Collect(['%', a] + s1 + ['%', b] + s2 + ['%', c], t, f)
         == SetFieldOf(SetFieldOf(SetFieldOf(f, a, t), b, t), c, t)
  {
    var pa, pb, pc := ['%', a], ['%', b], ['%', c];
    RightNest(pa, s1, pb, s2, pc);
    var fa := SetFieldOf(f, a, t);
    var fb := SetFieldOf(fa, b, t);
    FieldFormat(a, t, f);
    FieldFormat(b, t, fa);
    FieldFormat(c, t, fb);
    LiteralFormat(s1, t, fa);
    LiteralFormat(s2, t, fb);
    CollectAppend(s2, pc, t, fb);
    CollectAppend(pb, s2 + pc, t, fa);
    CollectAppend(s1, pb + (s2 + pc), t, fa);
    CollectAppend(pa, s1 + (pb + (s2 + pc)), t, f);
  }

  /** The fields a rendering of the whole timestamp, to the second, gives the reader. */
  function FieldsOf(t: Timestamp): Fields {
    Fields(t.year, t.month, t.day, t.hour, t.minute, t.second, None)
  }

  /** The timestamp with its fraction of a second dropped. */
  function WholeSecond(t: Timestamp): Timestamp {
    t.(microsecond := 0)
  }

  /** Reading every field of a timestamp back gives it to the second. */
  lemma FieldsOfTimestamp(t: Timestamp)
    requires Valid(t) && InRange(t)
    ensures FieldsAccepted(FieldsOf(t))
    ensures FieldsToTimestamp(FieldsOf(t)) == Success(WholeSecond(t))
  {
  }

  /** A date format and a time format joined by a space. */
  function DateTimeShape(a: string, b: string, c: string, e: string): string {
    DateShape(a, b) + " " + TimeShape(c, e)
  }

  /** A date format renders its three fields. */
  lemma DateShapeRender(a: string, b: string, t: Timestamp, loc: Locale)
    requires '%' !in a && '%' !in b && Valid(t) && InRange(t)
    ensures Render(DateShape(a, b), t, loc)
         == RenderNumeric('Y', t) + a + RenderNumeric('m', t) + b + RenderNumeric('d', t)
  {
    RenderThree('Y', a, 'm', b, 'd', t, loc);
  }

  /** A date format reads its three fields back. */
  lemma DateShapeReads(a: string, b: string, t: Timestamp, f: Fields)
    requires '%' !in a && '%' !in b && Valid(t)
    ensures ReadableFormat(DateShape(a, b)) && Closed(DateShape(a, b))
    ensures Collect(DateShape(a, b), t, f) == f.(year := t.year, month := t.month, day := t.day)
  {
    CollectThree('Y', a, 'm', b, 'd', t, f);
    ReadableClosed(DateShape(a, b));
  }

  /** A time format renders its three fields. */
  lemma TimeShapeRender(a: string, b: string, t: Timestamp, loc: Locale)
    requires '%' !in a && '%' !in b && Valid(t) && InRange(t)
    ensures Render(TimeShape(a, b), t, loc)
         == RenderNumeric('H', t) + a + RenderNumeric('M', t) + b + RenderNumeric('S', t)
  {
    RenderThree('H', a, 'M', b, 'S', t, loc);
  }

  /** A time format reads its three fields back. */
  lemma TimeShapeReads(a: string, b: string, t: Timestamp, f: Fields)
    requires '%' !in a && '%' !in b && Valid(t)
    ensures ReadableFormat(TimeShape(a, b)) && Closed(TimeShape(a, b))
    ensures Collect(TimeShape(a, b), t, f) == f.(hour := t.hour, minute := t.minute, second := t.second)
  {
    CollectThree('H', a, 'M', b, 'S', t, f);
    ReadableClosed(TimeShape(a, b));
  }

  /** A date and time format renders as the date part, a space and the time part. */
  lemma DateTimeShapeRender(a: string, b: string, c: string, e: string, t: Timestamp, loc: Locale)
    requires '%' !in a && '%' !in b && '%' !in c && '%' !in e && Valid(t) && InRange(t)
    ensures Render(DateTimeShape(a, b, c, e), t, loc)
         == Render(DateShape(a, b), t, loc) + " " + Render(TimeShape(c, e), t, loc)
  {
    var df, tf := DateShape(a, b), TimeShape(c, e);
    DateShapeReads(a, b, t, DefaultFields);
    AppendAssoc(df, " ", tf);
    LiteralClosed(" ");
    RenderWithoutDirectives(" ", t, loc);
    RenderAppend(" ", tf, t, loc);
    RenderAppend(df, " " + tf, t, loc);
  }

  /** A date and time format reads every field of the timestamp back. */
  lemma DateTimeShapeReads(a: string, b: string, c: string, e: string, t: Timestamp)
    requires '%' !in a && '%' !in b && '%' !in c && '%' !in e && Valid(t)
    ensures ReadableFormat(DateTimeShape(a, b, c, e))
    ensures Collect(DateTimeShape(a, b, c, e), t, DefaultFields) == FieldsOf(t)
  {
    var df, tf := DateShape(a, b), TimeShape(c, e);
    DateShapeReads(a, b, t, DefaultFields);
    var f := Collect(df, t, DefaultFields);
    TimeShapeReads(c, e, t, f);
    AppendAssoc(df, " ", tf);
    LiteralFormat(" ", t, f);
    CollectAppend(" ", tf, t, f);
    CollectAppend(df, " " + tf, t, DefaultFields);
  }

  /** Reading a date rendered under a date format gives midnight of that date. */
  lemma ReadDate(a: string, b: string, t: Timestamp)
    requires '%' !in a && '%' !in b && Valid(t) && InRange(t)
    ensures StrptimeIgnoringTrailing(DateShape(a, b), Render(DateShape(a, b), t, NoLocale))
         == Success(Midnight(DateOf(t)))
  {
    DateShapeReads(a, b, t, DefaultFields);
    ReadRendering(DateShape(a, b), t, NoLocale, []);
    assert Render(DateShape(a, b), t, NoLocale) + [] == Render(DateShape(a, b), t, NoLocale);
  }

  /** The date part of a rendering depends on the date alone. */
  lemma RenderDateOnly(a: string, b: string, t: Timestamp, loc: Locale)
    requires '%' !in a && '%' !in b && Valid(t) && InRange(t)
    ensures Render(DateShape(a, b), t, loc) == Render(DateShape(a, b), Midnight(DateOf(t)), loc)
  {
    var m := Midnight(DateOf(t));
    DateShapeRender(a, b, t, loc);
    DateShapeRender(a, b, m, loc);
    DateFieldsOnly(t, m);
  }

  /** Two timestamps on the same date render the same year, month and day. */
  lemma DateFieldsOnly(t: Timestamp, m: Timestamp)
    requires Valid(t) && InRange(t) && Valid(m) && InRange(m) && DateOf(t) == DateOf(m)
    ensures RenderNumeric('Y', t) == RenderNumeric('Y', m)
    ensures RenderNumeric('m', t) == RenderNumeric('m', m)
    ensures RenderNumeric('d', t) == RenderNumeric('d', m)
  {
    assert NumericValue('Y', t) == NumericValue('Y', m);
    assert NumericValue('m', t) == NumericValue('m', m);
    assert NumericValue('d', t) == NumericValue('d', m);
  }

  // ----------------------------------------------------------- convert_time

  /** The arguments of `convert_time`; each may be left out. */
  datatype TimeSpec = TimeSpec(year: Option<int> := None, soy: Option<real> := None,
                               yyddd: Option<YydddArg> := None, sod: Option<real> := None,
                               date: Option<string> := None, tod: Option<string> := None,
                               datetimeFmt: string := DefaultFormat)

  /** The format up to the first occurrence of `pattern`, when it occurs after the start. */
  function CutBefore(fmt: string, pattern: string): (r: Option<string>)
    ensures r.Some? ==> 0 < |r.value| && r.value < fmt && OccursAt(fmt, pattern, |r.value|)
    ensures r.None? <==> Find(fmt, pattern).None? || Find(fmt, pattern) == Some(0)
  {
    match Find(fmt, pattern)
    case Some(i) => if i > 0 then Some(fmt[..i]) else None
    case None => None
  }

  /**
   * The date part of a format, for a date given without a time of day: the
   * format cut before the first of ` %H:%M:%S`, ` %H:%M`, ` %H` found after its start.
   */
  function WithoutTimeOfDay(fmt: string): (f: string)
    ensures f <= fmt
  {
    match CutBefore(fmt, " %H:%M:%S")
    case Some(f) => f
    case None =>
      match CutBefore(fmt, " %H:%M")
      case Some(f) => f
      case None =>
        match CutBefore(fmt, " %H")
        case Some(f) => f
        case None => fmt
  }

  /**
   * The format used once a YYDDD code has been written out as `%Y-%m-%d`: kept
   * when it already reads such a date, otherwise with `YYDDD` (in any case)
   * replaced by `%Y-%m-%d`, otherwise with `%Y-%m-%d ` put in front.
   */
  function FormatForYyddd(fmt: string): (f: string)
    ensures Find(fmt, DateFormat).Some? ==> f == fmt
    ensures Find(f, DateFormat).Some?
  {
    if Find(fmt, DateFormat).Some? then fmt
    else
      match Find(Upper(fmt), "YYDDD")
      case Some(i) =>
        var f := fmt[..i] + DateFormat + fmt[i + 5..];
        assert f[i..i + |DateFormat|] == DateFormat;
        assert OccursAt(f, DateFormat, i);
        f
      case None =>
        var f := DateFormat + " " + fmt;
        assert f[0..|DateFormat|] == DateFormat;
        assert OccursAt(f, DateFormat, 0);
        f
  }

  /** A format that starts with `YYDDD` and has no dash gets `%Y-%m-%d` in its place. */
  lemma FormatForYydddReplaces(fmt: string, rest: string)
    requires fmt == "YYDDD" + rest && '-' !in rest
    ensures FormatForYyddd(fmt) == DateFormat + rest
  {
    assert DateFormat[2] == '-' && '-' !in fmt;
    FindAbsent(fmt, DateFormat, 2);
    var u := Upper(fmt);
    assert u[..5] == "YYDDD";
    assert OccursAt(u, "YYDDD", 0);
    FindAt(u, "YYDDD", 0);
    assert fmt[5..] == rest;
  }

  /** A format with neither a dash nor a `y` gets `%Y-%m-%d ` in front. */
  lemma FormatForYydddPrepends(fmt: string)
    requires '-' !in fmt && 'y' !in fmt && 'Y' !in fmt
    ensures FormatForYyddd(fmt) == DateFormat + " " + fmt
  {
    assert DateFormat[2] == '-';
    FindAbsent(fmt, DateFormat, 2);
    var u := Upper(fmt);
    assert forall i :: 0 <= i < |u| ==> u[i] != 'Y';
    FindAbsent(u, "YYDDD", 0);
  }

  /**
   * A date text with a time of day, or with seconds of the day added to its
   * midnight, read with the format; text left after a complete match is
   * ignored.
   */
  function FromDateAndTime(date: string, tod: Option<string>, sod: Option<real>, fmt: string)
    : (r: Result<Timestamp, TimeError>)
    ensures r.Success? ==> Valid(r.value) && InRange(r.value)
    ensures tod.None? && sod.None? ==> r == StrptimeIgnoringTrailing(WithoutTimeOfDay(fmt), date)
  {
    var t :- if tod.Some? then StrptimeIgnoringTrailing(fmt, date + " " + tod.value)
             else StrptimeIgnoringTrailing(WithoutTimeOfDay(fmt), date);
    if sod.Some? then Checked(AddMicros(t, SecondsToMicros(sod.value))) else Success(t)
  }

  /**
   * `convert_time`: a YYDDD code first, then a date, then a year with seconds
   * of year; anything else does not match a format.
   */
  function ConvertTime(spec: TimeSpec): (r: Result<Timestamp, TimeError>)
    ensures spec.yyddd.Some? && spec.yyddd.value.YydddNumber? ==> r == Failure(NotAString)
    ensures spec.yyddd.None? && spec.date.None? && (spec.year.None? || spec.soy.None?)
            ==> r == Failure(FormatMismatch)
    ensures r.Success? ==> Valid(r.value) && InRange(r.value)
  {
    if spec.yyddd.Some? then
      var midnight :- YydddToDate(spec.yyddd.value);
      FromDateAndTime(Render(DateFormat, midnight, NoLocale), spec.tod, spec.sod,
                      FormatForYyddd(spec.datetimeFmt))
    else if spec.date.Some? then
      FromDateAndTime(spec.date.value, spec.tod, spec.sod, spec.datetimeFmt)
    else if spec.year.Some? && spec.soy.Some? then
      YearSoyToDatetime(spec.year.value, spec.soy.value)
    else Failure(FormatMismatch)
  }

  // ------------------------------------------- agreement between the inputs

  /** Without a YYDDD code, a date is converted with its time of day or seconds of day. */
  lemma ConvertDate(spec: TimeSpec)
    requires spec.yyddd.None? && spec.date.Some?
    ensures ConvertTime(spec) == FromDateAndTime(spec.date.value, spec.tod, spec.sod, spec.datetimeFmt)
  {
  }

  /** The text a date and a time of day make is the rendering under the joined format. */
  lemma JoinedRendering(a: string, b: string, c: string, e: string, t: Timestamp, u: string)
    requires '%' !in a && '%' !in b && '%' !in c && '%' !in e && Valid(t) && InRange(t)
    ensures Render(DateShape(a, b), t, NoLocale) + " " + (Render(TimeShape(c, e), t, NoLocale) + u)
         == Render(DateTimeShape(a, b, c, e), t, NoLocale) + u
  {
    DateTimeShapeRender(a, b, c, e, t, NoLocale);
    AppendTail(Render(DateShape(a, b), t, NoLocale), " ", Render(TimeShape(c, e), t, NoLocale), u);
  }

  lemma AppendTail(x: string, y: string, z: string, u: string)
    ensures x + y + (z + u) == x + y + z + u
  {
  }

  /** A date and time rendered under a date and time format read back to the second, a trailing fraction of a second ignored. */
  lemma ReadDateTime(a: string, b: string, c: string, e: string, t: Timestamp, u: string)
    requires '%' !in a && '%' !in b && '%' !in c && '%' !in e && Valid(t) && InRange(t)
    requires u == [] || FractionTail(u)
    ensures StrptimeIgnoringTrailing(DateTimeShape(a, b, c, e),
              Render(DateShape(a, b), t, NoLocale) + " " + (Render(TimeShape(c, e), t, NoLocale) + u))
         == Success(WholeSecond(t))
  {
    JoinedRendering(a, b, c, e, t, u);
    DateTimeShapeReads(a, b, c, e, t);
    ReadRendering(DateTimeShape(a, b, c, e), t, NoLocale, u);
    FieldsOfTimestamp(t);
  }

  /**
   * A date and a time of day rendered under a date format and a time format
   * convert back, under the joined format, to the timestamp to the second;
   * a fraction of a second after the time of day is ignored.
   */
  lemma DateTodRoundTrip(a: string, b: string, c: string, e: string, t: Timestamp, u: string)
    requires '%' !in a && '%' !in b && '%' !in c && '%' !in e && Valid(t) && InRange(t)
    requires u == [] || FractionTail(u)
    ensures ConvertTime(TimeSpec(date := Some(Render(DateShape(a, b), t, NoLocale)),
                                 tod := Some(Render(TimeShape(c, e), t, NoLocale) + u),
                                 datetimeFmt := DateTimeShape(a, b, c, e)))
         == Success(WholeSecond(t))
  {
    var spec := TimeSpec(date := Some(Render(DateShape(a, b), t, NoLocale)),
                         tod := Some(Render(TimeShape(c, e), t, NoLocale) + u),
                         datetimeFmt := DateTimeShape(a, b, c, e));
    ConvertDate(spec);
    ReadDateTime(a, b, c, e, t, u);
  }

  /** Any other text after a rendered time of day is refused as unconverted. */
  lemma DateTodTailRefused(a: string, b: string, c: string, e: string, t: Timestamp, u: string)
    requires '%' !in a && '%' !in b && '%' !in c && '%' !in e && Valid(t) && InRange(t)
    requires u != [] && !FractionTail(u)
    ensures ConvertTime(TimeSpec(date := Some(Render(DateShape(a, b), t, NoLocale)),
                                 tod := Some(Render(TimeShape(c, e), t, NoLocale) + u),
                                 datetimeFmt := DateTimeShape(a, b, c, e)))
         == Failure(UnconvertedData(u))
  {
    var fmt := DateTimeShape(a, b, c, e);
    var p := Render(fmt, t, NoLocale);
    JoinedRendering(a, b, c, e, t, u);
    DateTimeShapeReads(a, b, c, e, t);
    ScanRender(fmt, t, NoLocale, [], DefaultFields);
    assert p + [] == p;
    TrailingTextRefused(fmt, p, u);
  }

  /**
   * A YYDDD code converts as the date it names, written `%Y-%m-%d`, under the
   * format adjusted for it, with the same time of day or seconds of day.
   */
  lemma YydddAsDate(d: Date, spec: TimeSpec)
    requires ValidDate(d) && 1900 <= d.year <= MaxYear
    requires spec.yyddd == Some(YydddText(EncodeYyddd(d)))
    ensures ConvertTime(spec)
         == ConvertTime(spec.(yyddd := None, date := Some(Render(DateFormat, Midnight(d), NoLocale)),
                              datetimeFmt := FormatForYyddd(spec.datetimeFmt)))
  {
    YydddRoundTrip(d);
  }

  /** Microsecond 0 of a day is its midnight. */
  lemma AtMidnight(d: Date)
    requires ValidDate(d)
    ensures AtMicroOfDay(d, 0) == Midnight(d)
  {
    MicroOfDayInjective(AtMicroOfDay(d, 0), Midnight(d));
  }

  /** Whole days from January 1 reach midnight of the day with that day of the year. */
  lemma DaysFromNewYear(y: int, n: int)
    requires 1 <= n <= DaysInYear(y)
    ensures AddMicros(NewYear(y), (n - 1) * MicrosPerDay) == AtMicroOfDay(DateOfDayOfYear(y, n), 0)
  {
    InstantInjective(AddMicros(NewYear(y), (n - 1) * MicrosPerDay), AtMicroOfDay(DateOfDayOfYear(y, n), 0));
  }

  lemma MidnightOfDayOfYear(d: Date)
    requires ValidDate(d)
    ensures AtMicroOfDay(DateOfDayOfYear(d.year, DayOfYear(d)), 0) == Midnight(d)
  {
    DateOfDayOfYearRoundTrip(d);
    AtMidnight(d);
  }

  /** The whole days before a date, added to January 1, reach that date's midnight. */
  lemma NewYearPlusDays(d: Date)
    requires ValidDate(d)
    ensures AddMicros(NewYear(d.year), (DayOfYear(d) - 1) * MicrosPerDay) == Midnight(d)
  {
    DaysFromNewYear(d.year, DayOfYear(d));
    MidnightOfDayOfYear(d);
  }

  /** Seconds within the year are added to January 1. */
  lemma YearSoyWithinYear(y: int, soy: real)
    requires MinYear <= y <= MaxYear && 0.0 <= soy < (DaysInYear(y) * 86400) as real
    ensures YearSoyToDatetime(y, soy) == Checked(AddMicros(NewYear(y), SecondsToMicros(soy)))
  {
  }

  /** The seconds before a day of the year, plus seconds of that day, lie within the year. */
  lemma SecondsBeforeDay(d: Date, s: real)
    requires ValidDate(d) && 0.0 <= s < 86400.0
    ensures 0.0 <= ((DayOfYear(d) - 1) * 86400) as real + s < (DaysInYear(d.year) * 86400) as real
    ensures SecondsToMicros(((DayOfYear(d) - 1) * 86400) as real + s)
         == (DayOfYear(d) - 1) * MicrosPerDay + SecondsToMicros(s)
  {
    var k := (DayOfYear(d) - 1) * 86400;
    SecondsToMicrosShift(k, s);
  }

  /** Seconds of the year that reach a moment through an intermediate timestamp are added in two steps. */
  lemma YearSoyThrough(y: int, soy: real, m: Timestamp, days: int, us: int)
    requires MinYear <= y <= MaxYear && 0.0 <= soy < (DaysInYear(y) * 86400) as real
    requires AddMicros(NewYear(y), days) == m && SecondsToMicros(soy) == days + us
    ensures YearSoyToDatetime(y, soy) == Checked(AddMicros(m, us))
  {
    YearSoyWithinYear(y, soy);
    AddMicrosThrough(NewYear(y), m, days, us, SecondsToMicros(soy));
  }

  /** The seconds of a day added to its midnight are the seconds of its year added to January 1. */
  lemma YearSoyOfDay(d: Date, s: real)
    requires ValidDate(d) && MinYear <= d.year <= MaxYear && 0.0 <= s < 86400.0
    ensures YearSoyToDatetime(d.year, ((DayOfYear(d) - 1) * 86400) as real + s)
         == Checked(AddMicros(Midnight(d), SecondsToMicros(s)))
  {
    var soy, m, us, days := ((DayOfYear(d) - 1) * 86400) as real + s, Midnight(d), SecondsToMicros(s),
                            (DayOfYear(d) - 1) * MicrosPerDay;
    assert 0.0 <= soy < (DaysInYear(d.year) * 86400) as real && SecondsToMicros(soy) == days + us by {
      SecondsBeforeDay(d, s);
    }
    assert AddMicros(NewYear(d.year), days) == m by {
      NewYearPlusDays(d);
    }
    YearSoyThrough(d.year, soy, m, days, us);
  }

  /** The default format: `%Y-%m-%d %H:%M:%S`, a date part and a time part joined by a space. */
  lemma DefaultFormatShape()
    ensures DateFormat == DateShape("-", "-")
    ensures DefaultFormat == DateTimeShape("-", "-", ":", ":")
  {
  }

  /** Without a time of day, the default format reads the date alone. */
  lemma DefaultFormatDatePart()
    ensures WithoutTimeOfDay(DefaultFormat) == DateFormat
  {
    var pattern := " %H:%M:%S";
    assert DefaultFormat[8..8 + |pattern|] == pattern;
    FindAt(DefaultFormat, pattern, 8);
    assert DefaultFormat[..8] == DateFormat;
  }

  /** The default format already reads a `%Y-%m-%d` date. */
  lemma DefaultFormatForYyddd()
    ensures FormatForYyddd(DefaultFormat) == DefaultFormat
  {
    assert DefaultFormat[0..|DateFormat|] == DateFormat;
    FindAt(DefaultFormat, DateFormat, 0);
  }

  /** A date written under the default format, with seconds of the day, is its midnight plus those seconds. */
  lemma DateSod(d: Date, s: real)
    requires ValidDate(d) && MinYear <= d.year <= MaxYear
    ensures ConvertTime(TimeSpec(date := Some(Render(DateFormat, Midnight(d), NoLocale)), sod := Some(s)))
         == Checked(AddMicros(Midnight(d), SecondsToMicros(s)))
  {
    var m := Midnight(d);
    var spec := TimeSpec(date := Some(Render(DateFormat, m, NoLocale)), sod := Some(s));
    ConvertDate(spec);
    DefaultFormatShape();
    DefaultFormatDatePart();
    ReadDate("-", "-", m);
  }

  /** A year with seconds of the year is read by `year_soy_to_datetime`. */
  lemma ConvertYearSoy(y: int, soy: real, r: Result<Timestamp, TimeError>)
    requires YearSoyToDatetime(y, soy) == r
    ensures ConvertTime(TimeSpec(year := Some(y), soy := Some(soy))) == r
  {
  }

  /** A date written under the default format, with seconds of the day, agrees with the year and seconds of year. */
  lemma DateSodMatchesYearSoy(d: Date, s: real, soy: real)
    requires ValidDate(d) && MinYear <= d.year <= MaxYear && 0.0 <= s < 86400.0
    requires soy == ((DayOfYear(d) - 1) * 86400) as real + s
    ensures ConvertTime(TimeSpec(date := Some(Render(DateFormat, Midnight(d), NoLocale)), sod := Some(s)))
         == ConvertTime(TimeSpec(year := Some(d.year), soy := Some(soy)))
  {
    DateSod(d, s);
    ConvertYearSoyOfDay(d, s, soy);
  }

  /** The year and seconds of year of a day's moment convert to that moment. */
  lemma ConvertYearSoyOfDay(d: Date, s: real, soy: real)
    requires ValidDate(d) && MinYear <= d.year <= MaxYear && 0.0 <= s < 86400.0
    requires soy == ((DayOfYear(d) - 1) * 86400) as real + s
    ensures ConvertTime(TimeSpec(year := Some(d.year), soy := Some(soy)))
         == Checked(AddMicros(Midnight(d), SecondsToMicros(s)))
  {
    var m, us, days := Midnight(d), SecondsToMicros(s), (DayOfYear(d) - 1) * MicrosPerDay;
    assert 0.0 <= soy < (DaysInYear(d.year) * 86400) as real && SecondsToMicros(soy) == days + us by {
      SecondsBeforeDay(d, s);
    }
    assert AddMicros(NewYear(d.year), days) == m by {
      NewYearPlusDays(d);
    }
    ConvertYearSoyThrough(d.year, soy, m, days, us);
  }

  lemma ConvertYearSoyThrough(y: int, soy: real, m: Timestamp, days: int, us: int)
    requires MinYear <= y <= MaxYear && 0.0 <= soy < (DaysInYear(y) * 86400) as real
    requires AddMicros(NewYear(y), days) == m && SecondsToMicros(soy) == days + us
    ensures ConvertTime(TimeSpec(year := Some(y), soy := Some(soy))) == Checked(AddMicros(m, us))
  {
    YearSoyThrough(y, soy, m, days, us);
    ConvertYearSoy(y, soy, Checked(AddMicros(m, us)));
  }

  /** A YYDDD code with seconds of the day agrees with the year and seconds of year. */
  lemma YydddSodMatchesYearSoy(d: Date, s: real, soy: real)
    requires ValidDate(d) && 1900 <= d.year <= MaxYear && 0.0 <= s < 86400.0
    requires soy == ((DayOfYear(d) - 1) * 86400) as real + s
    ensures ConvertTime(TimeSpec(yyddd := Some(YydddText(EncodeYyddd(d))), sod := Some(s)))
         == ConvertTime(TimeSpec(year := Some(d.year), soy := Some(soy)))
  {
    var spec := TimeSpec(yyddd := Some(YydddText(EncodeYyddd(d))), sod := Some(s));
    YydddAsDate(d, spec);
    DefaultFormatForYyddd();
    DateSodMatchesYearSoy(d, s, soy);
    assert spec.(yyddd := None, date := Some(Render(DateFormat, Midnight(d), NoLocale)),
                 datetimeFmt := FormatForYyddd(spec.datetimeFmt))
        == TimeSpec(date := Some(Render(DateFormat, Midnight(d), NoLocale)), sod := Some(s));
  }

  // ------------------------------------------------------------ hour of day

  /** The argument of `datetime2hr`: a timestamp, or a plain number, which has no time fields. */
  datatype HourArg = HourOfTimestamp(t: Timestamp) | HourOfNumber(x: real)

  /** The hour of the day, with the minutes, seconds and microseconds as its fraction. */
  function DatetimeToHours(t: Timestamp): (h: real)
    ensures h * 3600000000.0 == MicroOfDay(t) as real
  {
    t.hour as real + t.minute as real / 60.0 + t.second as real / 3600.0
      + t.microsecond as real / 3600000000.0
  }

  /** The hour of a valid timestamp lies in [0, 24). */
  lemma DatetimeToHoursRange(t: Timestamp)
    requires Valid(t)
    ensures 0.0 <= DatetimeToHours(t) < 24.0
  {
    MicroOfDayBounds(t);
  }

  /** Timestamps of one day with the same hour are the same timestamp. */
  lemma DatetimeToHoursInjective(t1: Timestamp, t2: Timestamp)
    requires Valid(t1) && Valid(t2) && DateOf(t1) == DateOf(t2)
    requires DatetimeToHours(t1) == DatetimeToHours(t2)
    ensures t1 == t2
  {
    MicroOfDayInjective(t1, t2);
  }

  /** `datetime2hr`: the hour of a timestamp; a number has no time fields and is refused. */
  function Datetime2Hr(arg: HourArg): (r: Result<real, TimeError>)
    ensures r.Failure? <==> arg.HourOfNumber?
    ensures r.Failure? ==> r.error == NotATimestamp
    ensures r.Success? ==> r.value * 3600000000.0 == MicroOfDay(arg.t) as real
  {
    match arg
    case HourOfTimestamp(t) => Success(DatetimeToHours(t))
    case HourOfNumber(_) => Failure(NotATimestamp)
  }

  // ------------------------------------------------------- unit conversions

  type PositiveReal = r: real | r > 0.0 witness 1.0

  /** The ratio of a circle to its diameter; the conversions need only that it is positive. */
  const Pi: PositiveReal

  /** `deg2hr`: 15 degrees of longitude to the hour. */
  function Deg2Hr(x: real): (h: real)
    ensures h * 15.0 == x
  {
    x / 15.0
  }

  /** `hr2deg`: an hour is 15 degrees. */
  function Hr2Deg(h: real): (x: real)
    ensures x / 15.0 == h
  {
    h * 15.0
  }

  /** `hr2rad`: 24 hours make 2π radians. */
  function Hr2Rad(h: real): (r: real)
    ensures r * 12.0 == h * Pi
  {
    h * Pi / 12.0
  }

  /** `rad2hr`: 2π radians make 24 hours. */
  function Rad2Hr(r: real): (h: real)
    ensures h * Pi == r * 12.0
  {
    r * 12.0 / Pi
  }

  /** `numpy.radians`: 180 degrees make π radians. */
  function Radians(x: real): (r: real)
    ensures r * 180.0 == x * Pi
  {
    x * Pi / 180.0
  }

  /** Degrees to hours and back, and hours to degrees and back, are the identity. */
  lemma DegreeHourRoundTrip(x: real)
    ensures Hr2Deg(Deg2Hr(x)) == x && Deg2Hr(Hr2Deg(x)) == x
  {
  }

  /** Hours to radians and back, and radians to hours and back, are the identity. */
  lemma RadianHourRoundTrip(x: real)
    ensures Rad2Hr(Hr2Rad(x)) == x && Hr2Rad(Rad2Hr(x)) == x
  {
  }

  /** An hour in radians is its longitude in radians, and back. */
  lemma HoursAsRadians(h: real)
    ensures Hr2Rad(h) == Radians(Hr2Deg(h))
    ensures Rad2Hr(Radians(Hr2Deg(h))) == h
  {
  }

  /** `numpy.linspace(0, top, n)`: `n` evenly spaced values from 0 to `top` inclusive. */
  function Linspace(top: real, n: nat): (xs: seq<real>)
    requires n >= 2
    ensures |xs| == n && xs[0] == 0.0 && xs[n - 1] == top
    ensures forall i :: 0 <= i < n ==> xs[i] * (n - 1) as real == i as real * top
  {
    seq(n, i requires 0 <= i < n => i as real * top / (n - 1) as real)
  }

  /** A conversion that multiplies by a constant maps an evenly spaced grid onto the scaled grid. */
  lemma ScaledLinspace(f: real -> real, k: real, top: real, scaled: real, n: nat)
    requires n >= 2 && (forall x :: f(x) == x * k) && scaled == top * k
    ensures Map(f, Linspace(top, n)) == Linspace(scaled, n)
  {
    var xs, ys := Map(f, Linspace(top, n)), Linspace(scaled, n);
    forall i | 0 <= i < n
      ensures xs[i] == ys[i]
    {
      var x := Linspace(top, n)[i];
      ScaledPoint(x, ys[i], i as real, top, k, scaled, (n - 1) as real);
    }
  }

  /** The scaled image of a grid point is the point of the scaled grid. */
  lemma ScaledPoint(x: real, y: real, j: real, top: real, k: real, scaled: real, m: real)
    requires m > 0.0 && x * m == j * top && y * m == j * scaled && scaled == top * k
    ensures x * k == y
  {
    assert (x * k) * m == (x * m) * k;
    assert (x * k - y) * m == 0.0;
  }

  /** An evenly spaced longitude grid from 0 to 360 degrees converts to the hour grid from 0 to 24 with as many points. */
  lemma Deg2HrGrid(n: nat)
    requires n >= 2
    ensures Map(Deg2Hr, Linspace(360.0, n)) == Linspace(24.0, n)
  {
    ScaledLinspace(Deg2Hr, 1.0 / 15.0, 360.0, 24.0, n);
  }

  /** The hour grid converts back to the longitude grid. */
  lemma Hr2DegGrid(n: nat)
    requires n >= 2
    ensures Map(Hr2Deg, Linspace(24.0, n)) == Linspace(360.0, n)
  {
    ScaledLinspace(Hr2Deg, 15.0, 24.0, 360.0, n);
  }

  /** Hours to radians multiplies by π/12, so 24 hours make 2π. */
  lemma Hr2RadScale()
    ensures forall h :: Hr2Rad(h) == h * (Pi / 12.0)
    ensures 2.0 * Pi == 24.0 * (Pi / 12.0)
  {
  }

  /** Degrees to radians multiplies by π/180, so 360 degrees make 2π. */
  lemma RadiansScale()
    ensures forall x :: Radians(x) == x * (Pi / 180.0)
    ensures 2.0 * Pi == 360.0 * (Pi / 180.0)
  {
  }

  /** Radians to hours multiplies by 12/π, so 2π makes 24 hours. */
  lemma Rad2HrScale()
    ensures forall r :: Rad2Hr(r) == r * (12.0 / Pi)
    ensures 24.0 == (2.0 * Pi) * (12.0 / Pi)
  {
  }

  /** The hour grid in radians is the longitude grid in radians: both run from 0 to 2π. */
  lemma Hr2RadGrid(n: nat)
    requires n >= 2
    ensures Map(Hr2Rad, Linspace(24.0, n)) == Linspace(2.0 * Pi, n)
    ensures Map(Radians, Linspace(360.0, n)) == Linspace(2.0 * Pi, n)
  {
    HourGridRadians(n);
    DegreeGridRadians(n);
  }

  lemma HourGridRadians(n: nat)
    requires n >= 2
    ensures Map(Hr2Rad, Linspace(24.0, n)) == Linspace(2.0 * Pi, n)
  {
    Hr2RadScale();
    ScaledLinspace(Hr2Rad, Pi / 12.0, 24.0, 2.0 * Pi, n);
  }

  lemma DegreeGridRadians(n: nat)
    requires n >= 2
    ensures Map(Radians, Linspace(360.0, n)) == Linspace(2.0 * Pi, n)
  {
    RadiansScale();
    ScaledLinspace(Radians, Pi / 180.0, 360.0, 2.0 * Pi, n);
  }

  /** The longitude grid in radians converts to the hour grid. */
  lemma Rad2HrGrid(n: nat)
    requires n >= 2
    ensures Map(Rad2Hr, Map(Radians, Linspace(360.0, n))) == Linspace(24.0, n)
  {
    Hr2RadGrid(n);
    Rad2HrScale();
    ScaledLinspace(Rad2Hr, 12.0 / Pi, 2.0 * Pi, 24.0, n);
  }

  // ------------------------------------------------------------- wrapping

  /** A real that is a whole number. */
  predicate IsWhole(x: real) {
    x == x.Floor as real
  }

  /** `x` brought into [0, 24) by whole days. */
  function WrapHours(x: real): (r: real)
    ensures 0.0 <= r < 24.0 && IsWhole((x - r) / 24.0)
  {
    x - 24.0 * (x / 24.0).Floor as real
  }

  /** `x` brought into (-180, 180] by whole turns. */
  function WrapLongitude(x: real): (r: real)
    ensures -180.0 < r <= 180.0 && IsWhole((x - r) / 360.0)
  {
    var k := ((180.0 - x) / 360.0).Floor;
    assert (180.0 - x) / 360.0 - 1.0 < k as real <= (180.0 - x) / 360.0;
    var r := x + 360.0 * k as real;
    assert (x - r) / 360.0 == (-k) as real;
    r
  }

  /** Two reals in a window narrower than `w` that differ by a whole multiple of `w` are equal. */
  lemma WholeMultipleInWindow(a: real, b: real, lo: real, w: real)
    requires w > 0.0 && lo <= a < lo + w && lo <= b < lo + w
    requires IsWhole((a - b) / w)
    ensures a == b
  {
    var q := (a - b) / w;
    var k := q.Floor;
    assert (k as real) * w == a - b;
    WholeMultipleSize(k, w, a - b);
  }

  /** The only whole multiple `m` of a positive `w` strictly between `-w` and `w` is zero. */
  lemma WholeMultipleSize(k: int, w: real, m: real)
    requires w > 0.0 && m == (k as real) * w
    ensures -w < m < w ==> m == 0.0
  {
    if k >= 1 {
      assert m == w + ((k - 1) as real) * w;
    } else if k <= -1 {
      assert m == -w + ((k + 1) as real) * w;
    }
  }

  /** The value in [0, 24) a whole number of days from `x` is its wrapped hour. */
  lemma WrapHoursUnique(x: real, r: real)
    requires 0.0 <= r < 24.0 && IsWhole((x - r) / 24.0)
    ensures r == WrapHours(x)
  {
    var w := WrapHours(x);
    var m, n := ((x - r) / 24.0).Floor, ((x - w) / 24.0).Floor;
    assert (w - r) / 24.0 == (m - n) as real;
    WholeMultipleInWindow(w, r, 0.0, 24.0);
  }

  /** The value in (-180, 180] a whole number of turns from `x` is its wrapped longitude. */
  lemma WrapLongitudeUnique(x: real, r: real)
    requires -180.0 < r <= 180.0 && IsWhole((x - r) / 360.0)
    ensures r == WrapLongitude(x)
  {
    var w := WrapLongitude(x);
    var m, n := ((x - r) / 360.0).Floor, ((x - w) / 360.0).Floor;
    assert (r - w) / 360.0 == (n - m) as real;
    WholeMultipleInWindow(-r, -w, -180.0, 360.0);
  }

  /** Adding `k` whole multiples of `w` keeps a difference a whole multiple of `w`. */
  lemma WholeShift(d: real, w: real, k: int)
    requires w > 0.0 && IsWhole(d / w)
    ensures IsWhole((d + w * k as real) / w)
  {
    var q, q2 := d / w, (d + w * k as real) / w;
    assert q2 * w == q * w + w * k as real;
    assert (q2 - q - k as real) * w == 0.0;
    assert q2 == (q.Floor + k) as real;
  }

  /** Whole days do not change the wrapped hour. */
  lemma WrapHoursPeriodic(x: real, k: int)
    ensures WrapHours(x + 24.0 * k as real) == WrapHours(x)
  {
    var r, y := WrapHours(x), x + 24.0 * k as real;
    WholeShift(x - r, 24.0, k);
    assert y - r == (x - r) + 24.0 * k as real;
    WrapHoursUnique(y, r);
  }

  /** Whole turns do not change the wrapped longitude. */
  lemma WrapLongitudePeriodic(x: real, k: int)
    ensures WrapLongitude(x + 360.0 * k as real) == WrapLongitude(x)
  {
    var r, y := WrapLongitude(x), x + 360.0 * k as real;
    WholeShift(x - r, 360.0, k);
    assert y - r == (x - r) + 360.0 * k as real;
    WrapLongitudeUnique(y, r);
  }

  /** Within a day of [0, 24), wrapping adds or subtracts 24 once. */
  lemma WrapHoursOnce(x: real)
    requires -24.0 <= x < 48.0
    ensures WrapHours(x) == if x >= 24.0 then x - 24.0 else if x < 0.0 then x + 24.0 else x
  {
    var r := if x >= 24.0 then x - 24.0 else if x < 0.0 then x + 24.0 else x;
    assert (x - r) / 24.0 == (if x >= 24.0 then 1 else if x < 0.0 then -1 else 0) as real;
    WrapHoursUnique(x, r);
  }

  /** Within a turn of (-180, 180], wrapping adds or subtracts 360 once. */
  lemma WrapLongitudeOnce(x: real)
    requires -540.0 < x <= 540.0
    ensures WrapLongitude(x) == if x > 180.0 then x - 360.0 else if x <= -180.0 then x + 360.0 else x
  {
    var r := if x > 180.0 then x - 360.0 else if x <= -180.0 then x + 360.0 else x;
    assert (x - r) / 360.0 == (if x > 180.0 then 1 else if x <= -180.0 then -1 else 0) as real;
    WrapLongitudeUnique(x, r);
  }

  // ------------------------------------------------------- solar local time

  /** `glon2slt`: the hour of the timestamp plus the longitude in hours, wrapped into [0, 24). */
  function Glon2Slt(lon: real, t: Timestamp): (lt: real)
    ensures 0.0 <= lt < 24.0
    ensures IsWhole((DatetimeToHours(t) + Deg2Hr(lon) - lt) / 24.0)
  {
    WrapHours(DatetimeToHours(t) + Deg2Hr(lon))
  }

  /** `slt2glon`: the local time less the hour of the timestamp, in degrees, wrapped into (-180, 180]. */
  function Slt2Glon(lt: real, t: Timestamp): (lon: real)
    ensures -180.0 < lon <= 180.0
    ensures IsWhole((Hr2Deg(lt - DatetimeToHours(t)) - lon) / 360.0)
  {
    WrapLongitude(Hr2Deg(lt - DatetimeToHours(t)))
  }

  /** Local time back to longitude gives the longitude, wrapped. */
  lemma Slt2GlonOfGlon2Slt(lon: real, t: Timestamp)
    ensures Slt2Glon(Glon2Slt(lon, t), t) == WrapLongitude(lon)
  {
    var h := DatetimeToHours(t);
    var lt := Glon2Slt(lon, t);
    var k := ((h + Deg2Hr(lon) - lt) / 24.0).Floor;
    assert Hr2Deg(lt - h) == lon + 360.0 * (-k) as real;
    WrapLongitudePeriodic(lon, -k);
  }

  /** Longitude back to local time gives the local time, wrapped. */
  lemma Glon2SltOfSlt2Glon(lt: real, t: Timestamp)
    ensures Glon2Slt(Slt2Glon(lt, t), t) == WrapHours(lt)
  {
    var h := DatetimeToHours(t);
    var lon := Slt2Glon(lt, t);
    var k := ((Hr2Deg(lt - h) - lon) / 360.0).Floor;
    assert h + Deg2Hr(lon) == lt + 24.0 * (-k) as real;
    WrapHoursPeriodic(lt, -k);
  }

  /** A longitude and the same longitude whole turns away have the same local time. */
  lemma Glon2SltPeriodic(lon: real, t: Timestamp, k: int)
    ensures Glon2Slt(lon + 360.0 * k as real, t) == Glon2Slt(lon, t)
  {
    var h := DatetimeToHours(t);
    assert h + Deg2Hr(lon + 360.0 * k as real) == h + Deg2Hr(lon) + 24.0 * k as real;
    WrapHoursPeriodic(h + Deg2Hr(lon), k);
  }

  /** `glon2slt` on a list or array of longitudes, element by element. */
  function Glon2SltAll(lons: seq<real>, t: Timestamp): (lts: seq<real>)
    ensures |lts| == |lons|
    ensures forall i :: 0 <= i < |lons| ==> lts[i] == Glon2Slt(lons[i], t)
  {
    Map(lon => Glon2Slt(lon, t), lons)
  }

  /** `slt2glon` on a list or array of local times, element by element. */
  function Slt2GlonAll(lts: seq<real>, t: Timestamp): (lons: seq<real>)
    ensures |lons| == |lts|
    ensures forall i :: 0 <= i < |lts| ==> lons[i] == Slt2Glon(lts[i], t)
  {
    Map(lt => Slt2Glon(lt, t), lts)
  }
}
