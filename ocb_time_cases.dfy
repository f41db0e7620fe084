/**
 * The cases the time tests pin: every way of naming 2001-01-01 00:00:00
 * converts to it, the refused inputs are refused, and the unit, hour and
 * wrap conversions give the listed values.
 */
module OcbTimeCases {
  import opened Wrappers
  import opened Digits
  import opened Calendar
  import opened TimeFormat
  import opened OcbTime

  /** The timestamp most tests expect: 2001-01-01 00:00:00. */
  const NewYear2001: Timestamp := Timestamp(2001, 1, 1, 0, 0, 0, 0)

  /** The zero-padded decimal strings the fields of that timestamp take. */
  lemma PadValues()
    ensures Pad(2001, 4) == "2001" && Pad(1, 2) == "01" && Pad(0, 2) == "00"
  {
    Pad2001();
    PadOneDigit(1);
    PadOneDigit(0);
  }

  /** The year 2001 pads to its four digits; a proof step for the cases below. */
  lemma Pad2001()
    ensures Pad(2001, 4) == "2001"
  {
    assert Decimal(2) == "2";
    assert Decimal(20) == "20";
    assert Decimal(200) == "200";
    assert Decimal(2001) == "2001";
  }

  lemma PadOneDigit(n: nat)
    requires n < 10
    ensures Pad(n, 2) == ['0', DigitChar(n)]
  {
    assert Decimal(n) == [DigitChar(n)];
    assert Zeros(1) == "0";
  }

  /** The fields of 2001-01-01 00:00:00 as strftime writes them. */
  lemma FieldsOfNewYear2001()
    ensures Valid(NewYear2001) && InRange(NewYear2001)
    ensures RenderNumeric('Y', NewYear2001) == "2001"
    ensures RenderNumeric('m', NewYear2001) == "01" && RenderNumeric('d', NewYear2001) == "01"
    ensures RenderNumeric('H', NewYear2001) == "00" && RenderNumeric('M', NewYear2001) == "00"
    ensures RenderNumeric('S', NewYear2001) == "00"
  {
    PadValues();
    ValidNewYear2001();
    ValuesOf2001();
    WidthsOf2001();
    FieldOf2001('Y', 2001);
    FieldOf2001('m', 1);
    FieldOf2001('d', 1);
    FieldOf2001('H', 0);
    FieldOf2001('M', 0);
    FieldOf2001('S', 0);
  }

  lemma ValidNewYear2001()
    ensures Valid(NewYear2001) && InRange(NewYear2001)
  {
  }

  lemma ValuesOf2001()
    requires Valid(NewYear2001) && InRange(NewYear2001)
    ensures NumericValue('Y', NewYear2001) == 2001
    ensures NumericValue('m', NewYear2001) == 1 && NumericValue('d', NewYear2001) == 1
    ensures NumericValue('H', NewYear2001) == 0 && NumericValue('M', NewYear2001) == 0
    ensures NumericValue('S', NewYear2001) == 0
  {
  }

  lemma WidthsOf2001()
    ensures MaxWidth('Y') == 4 && MaxWidth('m') == 2 && MaxWidth('d') == 2
    ensures MaxWidth('H') == 2 && MaxWidth('M') == 2 && MaxWidth('S') == 2
  {
  }

  lemma FieldOf2001(c: char, v: nat)
    requires c in "YmdHMS" && Valid(NewYear2001) && InRange(NewYear2001)
    requires NumericValue(c, NewYear2001) == v
    ensures RenderNumeric(c, NewYear2001) == Pad(v, MaxWidth(c))
  {
  }

  /** 2001-01-01 written under a date format with the given separators. */
  lemma DateText2001(a: string, b: string)
    requires '%' !in a && '%' !in b
    ensures Render(DateShape(a, b), NewYear2001, NoLocale) == "2001" + a + "01" + b + "01"
  {
    FieldsOfNewYear2001();
    DateShapeRender(a, b, NewYear2001, NoLocale);
  }

  /** Midnight written under a time format with the given separators. */
  lemma TimeText2001(a: string, b: string)
    requires '%' !in a && '%' !in b
    ensures Render(TimeShape(a, b), NewYear2001, NoLocale) == "00" + a + "00" + b + "00"
  {
    FieldsOfNewYear2001();
    TimeShapeRender(a, b, NewYear2001, NoLocale);
  }

  /**
   * A date and a time of day written with any separators, read under the
   * format with those separators, give 2001-01-01 00:00:00; a fraction of a
   * second after the time of day is ignored.
   */
  lemma DateTod2001(a: string, b: string, c: string, e: string, u: string)
    requires '%' !in a && '%' !in b && '%' !in c && '%' !in e
    requires u == [] || FractionTail(u)
    ensures ConvertTime(TimeSpec(date := Some("2001" + a + "01" + b + "01"),
                                 tod := Some("00" + c + "00" + e + "00" + u),
                                 datetimeFmt := DateTimeShape(a, b, c, e)))
         == Success(NewYear2001)
  {
    FieldsOfNewYear2001();
    DateText2001(a, b);
    TimeText2001(c, e);
    DateTodRoundTrip(a, b, c, e, NewYear2001, u);
    assert WholeSecond(NewYear2001) == NewYear2001;
  }

  /** The same, for texts and a format that are spelled that way. */
  lemma DateTodText(date: string, tod: string, fmt: string, a: string, b: string, c: string, e: string, u: string)
    requires '%' !in a && '%' !in b && '%' !in c && '%' !in e && (u == [] || FractionTail(u))
    requires date == "2001" + a + "01" + b + "01" && tod == "00" + c + "00" + e + "00" + u
    requires fmt == DateTimeShape(a, b, c, e)
    ensures ConvertTime(TimeSpec(date := Some(date), tod := Some(tod), datetimeFmt := fmt)) == Success(NewYear2001)
  {
    DateTod2001(a, b, c, e, u);
  }

  /** A date and a time of day under the default format. */
  lemma ConvertDateTod()
    ensures ConvertTime(TimeSpec(date := Some("2001-01-01"), tod := Some("00:00:00"))) == Success(NewYear2001)
  {
    DefaultFormatShape();
    DateTodText("2001-01-01", "00:00:00", DefaultFormat, "-", "-", ":", ":", "");
  }

  /** A fraction of a second after the time of day is left unconverted and ignored. */
  lemma ConvertDateTodUnconverted()
    ensures ConvertTime(TimeSpec(date := Some("2001-01-01"), tod := Some("00:00:00.000001")))
         == Success(NewYear2001)
  {
    DefaultFormatShape();
    DateTodText("2001-01-01", "00:00:00.000001", DefaultFormat, "-", "-", ":", ":", ".000001");
  }

  /** Text after the time of day that is not a fraction of a second is refused. */
  lemma ConvertDateTodTailRefused()
    ensures ConvertTime(TimeSpec(date := Some("2001-01-01"), tod := Some("00:00:00 junk")))
         == Failure(UnconvertedData(" junk"))
  {
    DefaultFormatShape();
    DateTodTailText("2001-01-01", "00:00:00 junk", DefaultFormat, "-", "-", ":", ":", " junk");
  }

  /** A 2001-01-01 date and a midnight time of day followed by other text, spelled out. */
  lemma DateTodTailText(date: string, tod: string, fmt: string, a: string, b: string, c: string, e: string, u: string)
    requires '%' !in a && '%' !in b && '%' !in c && '%' !in e && u != [] && !FractionTail(u)
    requires date == "2001" + a + "01" + b + "01" && tod == "00" + c + "00" + e + "00" + u
    requires fmt == DateTimeShape(a, b, c, e)
    ensures ConvertTime(TimeSpec(date := Some(date), tod := Some(tod), datetimeFmt := fmt)) == Failure(UnconvertedData(u))
  {
    FieldsOfNewYear2001();
    DateText2001(a, b);
    TimeText2001(c, e);
    DateTodTailRefused(a, b, c, e, NewYear2001, u);
  }

  /** A date and a time of day under a format with other separators. */
  lemma ConvertDateTodFormat()
    ensures ConvertTime(TimeSpec(date := Some("2001-01-01"), tod := Some("00-00-00"),
                                 datetimeFmt := "%Y-%m-%d %H-%M-%S"))
         == Success(NewYear2001)
  {
    DateTodText("2001-01-01", "00-00-00", "%Y-%m-%d %H-%M-%S", "-", "-", "-", "-", "");
  }

  /** A time of day without separators, every other argument given as absent. */
  lemma ConvertDateTodPacked()
    ensures ConvertTime(TimeSpec(year := None, soy := None, yyddd := None, sod := None,
                                 date := Some("2001-01-01"), tod := Some("000000"),
                                 datetimeFmt := "%Y-%m-%d %H%M%S"))
         == Success(NewYear2001)
  {
    DateTodText("2001-01-01", "000000", "%Y-%m-%d %H%M%S", "-", "-", "", "", "");
  }

  /** 2001-01-01 written under the date half of the default format. */
  lemma DateFormatText2001()
    ensures Render(DateFormat, NewYear2001, NoLocale) == "2001-01-01"
  {
    DefaultFormatShape();
    SplitDate();
    DateShapeText2001(DateFormat, "2001-01-01");
  }

  lemma DateShapeText2001(fmt: string, text: string)
    requires fmt == DateShape("-", "-") && text == "2001" + "-" + "01" + "-" + "01"
    ensures Render(fmt, NewYear2001, NoLocale) == text
  {
    DateText2001("-", "-");
  }

  /** The date of 2001-01-01, with seconds of the day, under the default format. */
  lemma DateSodText(date: string, sod: real)
    requires date == Render(DateFormat, NewYear2001, NoLocale)
    ensures ConvertTime(TimeSpec(date := Some(date), sod := Some(sod)))
         == Checked(AddMicros(NewYear2001, SecondsToMicros(sod)))
  {
    assert Midnight(Date(2001, 1, 1)) == NewYear2001;
    DateSod(Date(2001, 1, 1), sod);
  }

  /** A date with zero seconds of the day, every other argument given as absent. */
  lemma ConvertDateSod()
    ensures ConvertTime(TimeSpec(year := None, soy := None, yyddd := None, sod := Some(0.0),
                                 date := Some("2001-01-01"), tod := None))
         == Success(NewYear2001)
  {
    DateFormatText2001();
    DateSodText("2001-01-01", 0.0);
    SecondsToMicrosOfMicros(0);
    ValidNewYear2001();
    AddMicrosZero(NewYear2001);
  }

  /** January 1 plus no seconds. */
  lemma YearSoy2001()
    ensures YearSoyToDatetime(2001, 0.0) == Success(NewYear2001)
  {
    SecondsToMicrosOfMicros(0);
    ValidNewYear2001();
    AddMicrosZero(NewYear2001);
    assert NewYear(2001) == NewYear2001;
  }

  /** A year with zero seconds of the year. */
  lemma ConvertYearSoy2001()
    ensures ConvertTime(TimeSpec(year := Some(2001), soy := Some(0.0))) == Success(NewYear2001)
  {
    YearSoy2001();
    ConvertYearSoy(2001, 0.0, Success(NewYear2001));
  }

  // ---------------------------------------------------------------- YYDDD

  /** Years since 1900 written with at least two digits. */
  lemma Pad101()
    ensures Pad(101, 2) == "101"
  {
    assert Decimal(1) == "1";
    assert Decimal(10) == "10";
    assert Decimal(101) == "101";
  }

  /** Day 1 written with three digits. */
  lemma PadDayOne()
    ensures Pad(1, 3) == "001"
  {
    assert Decimal(1) == "1";
    assert Zeros(2) == "00";
  }

  /** January 1 is a calendar date of every year. */
  lemma NewYearValid(y: int)
    ensures ValidDate(Date(y, 1, 1))
  {
  }

  /** January 1 is day 1 of its year. */
  lemma NewYearDay(y: int)
    ensures DayOfYear(Date(y, 1, 1)) == 1
  {
  }

  /** The YYDDD code of January 1: the years since 1900, then day 1. */
  lemma NewYearCode(y: int, code: string)
    requires 1900 <= y && code == Pad(y - 1900, 2) + Pad(1, 3)
    ensures code == EncodeYyddd(Date(y, 1, 1))
  {
    NewYearDay(y);
  }

  /** The test codes split into their year and day parts; a proof step for the cases below. */
  lemma SplitCodes()
    ensures "101001" == "101" + "001" && "01001" == "01" + "001"
  {
  }

  /** `"101001"` is 2001-01-01. */
  lemma YydddToDate2001(code: string)
    requires code == "101001"
    ensures YydddToDate(YydddText(code)) == Success(NewYear2001)
  {
    Code2001(code, 2001);
    NewYearYyddd(code, 2001, NewYear2001);
  }

  /** `"01001"` is 1901-01-01. */
  lemma YydddToDate1901(code: string, m: Timestamp)
    requires code == "01001" && m == Timestamp(1901, 1, 1, 0, 0, 0, 0)
    ensures YydddToDate(YydddText(code)) == Success(m)
  {
    Code1901(code, 1901);
    NewYearYyddd(code, 1901, m);
  }

  /** `"01001"` is the code of January 1 of 1901. */
  lemma Code1901(code: string, y: int)
    requires code == "01001" && y == 1901
    ensures code == Pad(y - 1900, 2) + Pad(1, 3)
  {
    PadOneDigit(1);
    PadDayOne();
    SplitCodes();
  }

  /** The code of January 1 decodes to its midnight. */
  lemma NewYearYyddd(code: string, y: int, m: Timestamp)
    requires 1900 <= y <= MaxYear && code == Pad(y - 1900, 2) + Pad(1, 3) && m == Midnight(Date(y, 1, 1))
    ensures YydddToDate(YydddText(code)) == Success(m)
  {
    NewYearValid(y);
    NewYearCode(y, code);
    YydddCase(code, Date(y, 1, 1), m);
  }

  /** `" 1001"` is 1901-01-01: `int()` ignores the space before the year. */
  lemma YydddSpaced(code: string, m: Timestamp)
    requires code == " 1001" && m == Timestamp(1901, 1, 1, 0, 0, 0, 0)
    ensures YydddToDate(YydddText(code)) == Success(m)
  {
    SpacedYear(" 1", " ", "1");
    CodeParts(code, " 1", "001");
    NewYearOfParts(code, " 1", "001", 1901, m);
  }

  lemma SpacedYear(yy: string, l: string, digits: string)
    requires yy == " 1" && l == " " && digits == "1"
    ensures ParseInt(yy) == Some(1)
  {
    assert yy == l + digits + [] && AllSpaces(l);
    ParseIntSpaces(l, digits, []);
    ParseIntDigits(digits);
  }

  /** `"1_0001"` is 1910-01-01: `int()` reads `"1_0"` as 10. */
  lemma YydddUnderscored(code: string, m: Timestamp)
    requires code == "1_0001" && m == Timestamp(1910, 1, 1, 0, 0, 0, 0)
    ensures YydddToDate(YydddText(code)) == Success(m)
  {
    UnderscoredYear("1_0", "1", "0");
    CodeParts(code, "1_0", "001");
    NewYearOfParts(code, "1_0", "001", 1910, m);
  }

  lemma UnderscoredYear(yy: string, a: string, b: string)
    requires yy == "1_0" && a == "1" && b == "0"
    ensures ParseInt(yy) == Some(10)
  {
    assert yy == a + "_" + b && Grouped(a) && Grouped(b);
    ParseIntUnderscore(a, b);
    assert a + b == "10" && ValueOf("10") == 10;
    ParseIntDigits(a + b);
  }

  /** `"-1001"` is 1899-01-01: a negative year part counts back from 1900. */
  lemma YydddNegative(code: string, m: Timestamp)
    requires code == "-1001" && m == Timestamp(1899, 1, 1, 0, 0, 0, 0)
    ensures YydddToDate(YydddText(code)) == Success(m)
  {
    ParseIntSigned("-1", "1");
    CodeParts(code, "-1", "001");
    NewYearOfParts(code, "-1", "001", 1899, m);
  }

  /** A code is its year part followed by its last three characters. */
  lemma CodeParts(code: string, yy: string, ddd: string)
    requires |code| >= 3 && yy == code[..|code| - 3] && ddd == code[|code| - 3..]
    ensures code == yy + ddd
  {
  }

  /** A code whose year part reads as `y - 1900` and whose day part is `"001"` is January 1 of `y`. */
  lemma NewYearOfParts(code: string, yy: string, ddd: string, y: int, m: Timestamp)
    requires 1000 <= y <= MaxYear && code == yy + ddd && ddd == "001"
    requires ParseInt(yy) == Some(y - 1900) && m == Midnight(Date(y, 1, 1))
    ensures YydddToDate(YydddText(code)) == Success(m)
  {
    NewYearValid(y);
    NewYearDay(y);
    assert code[..|code| - 3] == yy && code[|code| - 3..] == ddd;
    PadDayOne();
    assert ddd == Pad(1, 3);
    YydddTextOfDate(code, Date(y, 1, 1));
  }

  /** The code of a date decodes to the midnight of that date. */
  lemma YydddCase(code: string, d: Date, m: Timestamp)
    requires ValidDate(d) && 1900 <= d.year <= MaxYear && code == EncodeYyddd(d) && m == Midnight(d)
    ensures YydddToDate(YydddText(code)) == Success(m)
  {
    YydddRoundTrip(d);
  }

  /** The code `"101001"` converts as the date 2001-01-01 under the format adjusted for it. */
  lemma Yyddd2001(spec: TimeSpec, code: string, text: string)
    requires code == "101001" && text == "2001-01-01" && spec.yyddd == Some(YydddText(code))
    ensures ConvertTime(spec)
         == ConvertTime(spec.(yyddd := None, date := Some(text), datetimeFmt := FormatForYyddd(spec.datetimeFmt)))
  {
    Code2001(code, 2001);
    Text2001(text, 2001);
    NewYearAsDate(spec, code, 2001, text);
  }

  /** `"101001"` is the code of January 1 of 2001. */
  lemma Code2001(code: string, y: int)
    requires code == "101001" && y == 2001
    ensures code == Pad(y - 1900, 2) + Pad(1, 3)
  {
    Pad101();
    PadDayOne();
    SplitCodes();
  }

  /** `"2001-01-01"` is January 1 of 2001 under the date format. */
  lemma Text2001(text: string, y: int)
    requires text == "2001-01-01" && y == 2001
    ensures text == Render(DateFormat, Midnight(Date(y, 1, 1)), NoLocale)
  {
    DateFormatText2001();
    assert Midnight(Date(y, 1, 1)) == NewYear2001;
  }

  /** The code of January 1 converts as the rendered date of that day. */
  lemma NewYearAsDate(spec: TimeSpec, code: string, y: int, text: string)
    requires 1900 <= y <= MaxYear && code == Pad(y - 1900, 2) + Pad(1, 3)
    requires spec.yyddd == Some(YydddText(code))
    requires text == Render(DateFormat, Midnight(Date(y, 1, 1)), NoLocale)
    ensures ConvertTime(spec)
         == ConvertTime(spec.(yyddd := None, date := Some(text), datetimeFmt := FormatForYyddd(spec.datetimeFmt)))
  {
    NewYearValid(y);
    NewYearCode(y, code);
    YydddAsDate(Date(y, 1, 1), spec);
  }

  /** A YYDDD code and a time of day under the default format. */
  lemma ConvertYydddTod()
    ensures ConvertTime(TimeSpec(yyddd := Some(YydddText("101001")), tod := Some("00:00:00")))
         == Success(NewYear2001)
  {
    Yyddd2001(TimeSpec(yyddd := Some(YydddText("101001")), tod := Some("00:00:00")), "101001", "2001-01-01");
    DefaultFormatForYyddd();
    ConvertDateTod();
  }

  /** The test date split into its fields and separators; a proof step for the cases below. */
  lemma SplitDate()
    ensures "2001-01-01" == "2001" + "-" + "01" + "-" + "01"
  {
  }

  /** The space-separated time and its format split into fields and separators; a proof step for the cases below. */
  lemma SplitSpacedTime()
    ensures "00 00 00" == "00" + " " + "00" + " " + "00" + ""
    ensures "%Y-%m-%d %H %M %S" == DateTimeShape("-", "-", " ", " ")
  {
  }

  /** The code `"101001"` with a midnight time of day, under a format the code turns into a date and time format. */
  lemma YydddTod2001(spec: TimeSpec, c: string, e: string, u: string)
    requires spec.yyddd == Some(YydddText("101001")) && '%' !in c && '%' !in e && (u == [] || FractionTail(u))
    requires spec.year.None? && spec.soy.None? && spec.sod.None?
    requires spec.tod == Some("00" + c + "00" + e + "00" + u)
    requires FormatForYyddd(spec.datetimeFmt) == DateTimeShape("-", "-", c, e)
    ensures ConvertTime(spec) == Success(NewYear2001)
  {
    Yyddd2001(spec, "101001", "2001-01-01");
    SplitDate();
    DateTodText("2001-01-01", spec.tod.value, FormatForYyddd(spec.datetimeFmt), "-", "-", c, e, u);
    assert spec.(yyddd := None, date := Some("2001-01-01"), datetimeFmt := FormatForYyddd(spec.datetimeFmt))
        == TimeSpec(date := Some("2001-01-01"), tod := Some(spec.tod.value),
                    datetimeFmt := FormatForYyddd(spec.datetimeFmt));
  }

  /** A YYDDD code and a time of day under a format that names the code. */
  lemma ConvertYydddTodFormat()
    ensures ConvertTime(TimeSpec(yyddd := Some(YydddText("101001")), tod := Some("00 00 00"),
                                 datetimeFmt := "YYDDD %H %M %S"))
         == Success(NewYear2001)
  {
    FormatForYydddReplaces("YYDDD %H %M %S", " %H %M %S");
    SplitSpacedTime();
    SplitFormats();
    YydddTod2001(TimeSpec(yyddd := Some(YydddText("101001")), tod := Some("00 00 00"),
                          datetimeFmt := "YYDDD %H %M %S"), " ", " ", "");
  }

  /** A YYDDD code and a time of day under a format of the time of day alone. */
  lemma ConvertYydddTodTimeFormat()
    ensures ConvertTime(TimeSpec(yyddd := Some(YydddText("101001")), tod := Some("00 00 00"),
                                 datetimeFmt := "%H %M %S"))
         == Success(NewYear2001)
  {
    FormatForYydddPrepends("%H %M %S");
    SplitSpacedTime();
    SplitFormats();
    YydddTod2001(TimeSpec(yyddd := Some(YydddText("101001")), tod := Some("00 00 00"),
                          datetimeFmt := "%H %M %S"), " ", " ", "");
  }

  /** The test formats split where `convert_time` joins them; a proof step for the cases below. */
  lemma SplitFormats()
    ensures "YYDDD %H %M %S" == "YYDDD" + " %H %M %S"
    ensures DateFormat + " %H %M %S" == "%Y-%m-%d %H %M %S"
    ensures DateFormat + " " + "%H %M %S" == "%Y-%m-%d %H %M %S"
  {
  }

  // ------------------------------------------------------- sub-second and refused inputs

  /** The code `"101001"` with seconds of the day is its midnight plus those seconds. */
  lemma YydddSod2001(sod: real)
    ensures ConvertTime(TimeSpec(yyddd := Some(YydddText("101001")), sod := Some(sod)))
         == Checked(AddMicros(NewYear2001, SecondsToMicros(sod)))
  {
    var spec := TimeSpec(yyddd := Some(YydddText("101001")), sod := Some(sod));
    Yyddd2001(spec, "101001", "2001-01-01");
    DefaultFormatForYyddd();
    DateFormatText2001();
    DateSodText("2001-01-01", sod);
    assert spec.(yyddd := None, date := Some("2001-01-01"), datetimeFmt := FormatForYyddd(spec.datetimeFmt))
        == TimeSpec(date := Some("2001-01-01"), sod := Some(sod));
  }

  /** A YYDDD code with zero seconds of the day. */
  lemma ConvertYydddSod()
    ensures ConvertTime(TimeSpec(yyddd := Some(YydddText("101001")), sod := Some(0.0)))
         == Success(NewYear2001)
  {
    YydddSod2001(0.0);
    SecondsToMicrosOfMicros(0);
    ValidNewYear2001();
    AddMicrosZero(NewYear2001);
  }

  /** A YYDDD code with one microsecond of the day: the microsecond is kept. */
  lemma ConvertYydddSodMicrosecond()
    ensures ConvertTime(TimeSpec(yyddd := Some(YydddText("101001")), sod := Some(0.000001)))
         == Success(Timestamp(2001, 1, 1, 0, 0, 0, 1))
  {
    YydddSod2001(0.000001);
    SecondsToMicrosOfMicros(1);
    ValidNewYear2001();
    AddMicrosWithinDay(NewYear2001, 1);
    MicroOfDayInjective(AtMicroOfDay(DateOf(NewYear2001), 1), Timestamp(2001, 1, 1, 0, 0, 0, 1));
  }

  /** A YYDDD code given as a number is refused, by `convert_time` and by `yyddd_to_date`. */
  lemma YydddNumberRefused()
    ensures ConvertTime(TimeSpec(yyddd := Some(YydddNumber(101001)))) == Failure(NotAString)
    ensures YydddToDate(YydddNumber(101001)) == Failure(NotAString)
  {
  }

  /** Seconds of the year without a year match no input group. */
  lemma SoyWithoutYearRefused()
    ensures ConvertTime(TimeSpec(soy := Some(200.0))) == Failure(FormatMismatch)
  {
  }

  /** Four digits of a year followed by a space do not match the default format, whose year is followed by a dash. */
  lemma YearThenSpace(date: string, tod: string, y: nat)
    requires 1000 <= y <= 9999 && date == Pad(y, 4)
    ensures ConvertTime(TimeSpec(date := Some(date), tod := Some(tod))) == Failure(FormatMismatch)
  {
    var rest := " " + tod;
    AppendAssoc(date, " ", tod);
    ScanYearThenSpace(DefaultFormat, date, rest, y);
    IgnoringTrailingFailure(DefaultFormat, date + rest, FormatMismatch);
  }

  /** The reader takes the year, then finds a space where the default format has a dash. */
  lemma ScanYearThenSpace(fmt: string, date: string, rest: string, y: nat)
    requires fmt == DefaultFormat && 1000 <= y <= 9999 && date == Pad(y, 4)
    requires |rest| >= 1 && rest[0] == ' '
    ensures ReadableFormat(fmt) && Scan(fmt, date + rest, DefaultFields) == Failure(FormatMismatch)
  {
    DefaultFormatHead(fmt);
    YearDigits(date, y);
    ScanField(fmt, date, rest, DefaultFields, y);
    ScanLiteralHead(fmt[2..], rest, SetField(DefaultFields, 'Y', y));
  }

  /** The default format is readable, starts with the year and then a dash. */
  lemma DefaultFormatHead(fmt: string)
    requires fmt == DefaultFormat
    ensures ReadableFormat(fmt) && ReadableFormat(fmt[2..])
    ensures |fmt| >= 3 && fmt[0] == '%' && fmt[1] == 'Y' && fmt[2] == '-'
  {
    DefaultFormatReadable(fmt);
    DefaultFormatPrefix(fmt);
    ReadableYearDash(fmt, fmt[..3]);
  }

  /** The default format starts with `%Y-`; a proof step for the cases below. */
  lemma DefaultFormatPrefix(fmt: string)
    requires fmt == DefaultFormat
    ensures |fmt| >= 3 && fmt[..3] == "%Y-"
  {
  }

  /** A readable format that starts with `%Y-`: the year directive, a dash, and a readable rest. */
  lemma ReadableYearDash(fmt: string, head: string)
    requires ReadableFormat(fmt) && |fmt| >= 3 && head == fmt[..3] && head == "%Y-"
    ensures ReadableFormat(fmt[2..])
    ensures fmt[0] == '%' && fmt[1] == 'Y' && fmt[2] == '-'
  {
    assert fmt[0] == head[0] && fmt[1] == head[1] && fmt[2] == head[2];
  }

  /** The default format is readable. */
  lemma DefaultFormatReadable(fmt: string)
    requires fmt == DefaultFormat
    ensures ReadableFormat(fmt)
  {
    DefaultFormatShape();
    DateTimeShapeReads("-", "-", ":", ":", Midnight(Date(2001, 1, 1)));
  }

  /** A four-digit year written with four digits. */
  lemma YearDigits(date: string, y: nat)
    requires 1000 <= y <= 9999 && date == Pad(y, 4)
    ensures |date| == 4 && AllDigits(date) && ValueOf(date) == y
  {
    Pow10Small();
    PadWidth(y, 4);
  }

  /** A reading that fails other than on trailing text fails the conversion the same way. */
  lemma IgnoringTrailingFailure(fmt: string, s: string, e: TimeError)
    requires ReadableFormat(fmt) && Scan(fmt, s, DefaultFields) == Failure(e) && !e.UnconvertedData?
    ensures StrptimeIgnoringTrailing(fmt, s) == Failure(e)
  {
  }

  /** The year 2000 pads to its four digits; a proof step for the cases below. */
  lemma Pad2000()
    ensures Pad(2000, 4) == "2000"
  {
    assert Decimal(2) == "2";
    assert Decimal(20) == "20";
    assert Decimal(200) == "200";
    assert Decimal(2000) == "2000";
  }

  /** A date of a year alone, with a time of day, does not match the default format. */
  lemma BadDateRefused()
    ensures ConvertTime(TimeSpec(date := Some("2000"), tod := Some("00"))) == Failure(FormatMismatch)
  {
    Pad2000();
    YearThenSpace("2000", "00", 2000);
  }

  // ------------------------------------------------------------ format lengths

  /** Two formats of three fixed-width directives joined by literal text: the maximum length is that of every rendering. */
  lemma JoinedThreeLength(a: char, s1: string, b: char, s2: string, c: char, sep: string,
                          d: char, s3: string, e: char, s4: string, f: char, t: Timestamp, loc: Locale)
    requires IsNumericDirective(a) && IsNumericDirective(b) && IsNumericDirective(c)
    requires IsNumericDirective(d) && IsNumericDirective(e) && IsNumericDirective(f)
    requires '%' !in s1 && '%' !in s2 && '%' !in sep && '%' !in s3 && '%' !in s4
    requires Valid(t) && InRange(t)
    ensures FormatLength((['%', a] + s1 + ['%', b] + s2 + ['%', c]) + (sep + (['%', d] + s3 + ['%', e] + s4 + ['%', f])))
         == MaxWidth(a) + |s1| + MaxWidth(b) + |s2| + MaxWidth(c) + |sep|
            + MaxWidth(d) + |s3| + MaxWidth(e) + |s4| + MaxWidth(f)
    ensures |Render((['%', a] + s1 + ['%', b] + s2 + ['%', c]) + (sep + (['%', d] + s3 + ['%', e] + s4 + ['%', f])), t, loc)|
         == FormatLength((['%', a] + s1 + ['%', b] + s2 + ['%', c]) + (sep + (['%', d] + s3 + ['%', e] + s4 + ['%', f])))
  {
    var date := ['%', a] + s1 + ['%', b] + s2 + ['%', c];
    var tod := ['%', d] + s3 + ['%', e] + s4 + ['%', f];
    ThreeLength(a, s1, b, s2, c);
    ThreeLength(d, s3, e, s4, f);
    LiteralClosed(sep);
    LiteralNumericOnly(sep);
    FormatLengthAppend(sep, tod);
    FormatLengthAppend(date, sep + tod);
    RenderedLengthExact(date + (sep + tod), t, loc);
  }

  /** The format with a two-digit year, `%y-%m-%d %H:%M:%S`. */
  const TwoDigitYearFormat: string := "%y-%m-%d %H:%M:%S"

  lemma SplitTwoDigitYearFormat()
    ensures TwoDigitYearFormat
         == (['%', 'y'] + "-" + ['%', 'm'] + "-" + ['%', 'd']) + (" " + (['%', 'H'] + ":" + ['%', 'M'] + ":" + ['%', 'S']))
  {
  }

  /** `%y-%m-%d %H:%M:%S`: the maximum length is exactly the length of every rendering. */
  lemma TwoDigitYearFormatLength(t: Timestamp, loc: Locale)
    requires Valid(t) && InRange(t)
    ensures FormatLength(TwoDigitYearFormat) == 17
    ensures |Render(TwoDigitYearFormat, t, loc)| == 17
  {
    SplitTwoDigitYearFormat();
    JoinedThreeLength('y', "-", 'm', "-", 'd', " ", 'H', ":", 'M', ":", 'S', t, loc);
    TwoDigitYearWidths();
  }

  lemma TwoDigitYearWidths()
    ensures MaxWidth('y') + |"-"| + MaxWidth('m') + |"-"| + MaxWidth('d') + |" "|
            + MaxWidth('H') + |":"| + MaxWidth('M') + |":"| + MaxWidth('S') == 17
  {
  }

  /** A format without directives: its maximum length is its own length, which is also what it renders to. */
  lemma NoDirectivesLength(t: Timestamp, loc: Locale)
    requires Valid(t) && InRange(t)
    ensures FormatLength("No Directives") == 13
    ensures Render("No Directives", t, loc) == "No Directives"
  {
    RenderWithoutDirectives("No Directives", t, loc);
  }

  // ---- hour of day

  /** Midnight is hour zero, and 01:01:01.000001 is 1 + 1/60 + 1/3600 + 1/3600000000 hours. */
  lemma HourCases(midnight: Timestamp, t: Timestamp)
    requires midnight == NewYear2001 && t == Timestamp(2001, 1, 1, 1, 1, 1, 1)
    ensures Datetime2Hr(HourOfTimestamp(midnight)) == Success(0.0)
    ensures Datetime2Hr(HourOfTimestamp(t)) == Success(3661000001.0 / 3600000000.0)
    ensures Datetime2Hr(HourOfNumber(5.0)) == Failure(NotATimestamp)
  {
  }

  // ---- solar local time

  /** At 01:00 the hour of the day is one. */
  lemma OneOClock(t: Timestamp)
    requires t == Timestamp(2001, 1, 1, 1, 0, 0, 0)
    ensures DatetimeToHours(t) == 1.0
  {
  }

  /** The local time of a longitude at 01:00, when one unwrapped day is enough. */
  lemma Glon2SltAtOne(lon: real, t: Timestamp)
    requires DatetimeToHours(t) == 1.0 && -375.0 <= lon < 705.0
    ensures Glon2Slt(lon, t) == if 1.0 + lon / 15.0 >= 24.0 then lon / 15.0 - 23.0
                                else if 1.0 + lon / 15.0 < 0.0 then lon / 15.0 + 25.0
                                else 1.0 + lon / 15.0
  {
    WrapHoursOnce(1.0 + Deg2Hr(lon));
  }

  /** The longitude of a local time at 01:00, when one unwrapped turn is enough. */
  lemma Slt2GlonAtOne(lt: real, t: Timestamp)
    requires DatetimeToHours(t) == 1.0 && -35.0 < lt <= 37.0
    ensures Slt2Glon(lt, t) == if 15.0 * (lt - 1.0) > 180.0 then 15.0 * (lt - 1.0) - 360.0
                               else if 15.0 * (lt - 1.0) <= -180.0 then 15.0 * (lt - 1.0) + 360.0
                               else 15.0 * (lt - 1.0)
  {
    WrapLongitudeOnce(Hr2Deg(lt - 1.0));
  }

  /** Longitudes 390, 359, 90, -15 and -30 at 01:00 are at local times 3, 14/15, 7, 0 and 23. */
  lemma Glon2SltCases(t: Timestamp, lons: seq<real>)
    requires t == Timestamp(2001, 1, 1, 1, 0, 0, 0) && lons == [390.0, 359.0, 90.0, -15.0, -30.0]
    ensures Glon2SltAll(lons, t) == [3.0, 14.0 / 15.0, 7.0, 0.0, 23.0]
  {
    OneOClock(t);
    Glon2SltAtOne(lons[0], t);
    Glon2SltAtOne(lons[1], t);
    Glon2SltAtOne(lons[2], t);
    Glon2SltAtOne(lons[3], t);
    Glon2SltAtOne(lons[4], t);
  }

  /** Local times 27, 14/15, 7, 0 and -1 at 01:00 are at longitudes 30, -1, 90, -15 and -30. */
  lemma Slt2GlonCases(t: Timestamp, lts: seq<real>)
    requires t == Timestamp(2001, 1, 1, 1, 0, 0, 0) && lts == [27.0, 14.0 / 15.0, 7.0, 0.0, -1.0]
    ensures Slt2GlonAll(lts, t) == [30.0, -1.0, 90.0, -15.0, -30.0]
  {
    OneOClock(t);
    Slt2GlonAtOne(lts[0], t);
    Slt2GlonAtOne(lts[1], t);
    Slt2GlonAtOne(lts[2], t);
    Slt2GlonAtOne(lts[3], t);
    Slt2GlonAtOne(lts[4], t);
  }
}
