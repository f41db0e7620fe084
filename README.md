# ocbpy time normalisation and boundary corrections, in Dafny

This project models two parts of ocbpy, a package that places space-physics
measurements in open-closed field line boundary (OCB) coordinates:

* `ocb_time`: turning the ways a time can be given into one timestamp. The
  accepted inputs are a date with a time of day, a year with seconds of year,
  a YYDDD code with a time of day or seconds of day, and a date with seconds
  of day. The module also covers:
  * the hour of day of a timestamp;
  * the linear conversions between degrees, hours and radians;
  * solar local time from longitude (`glon2slt`) and back (`slt2glon`);
  * the maximum rendered length of a `strftime` format.
* `ocb_correction`: corrections to a measured boundary radius as a function of
  magnetic local time. `circular` adds a constant. `elliptical` and `harmonic`
  evaluate a trigonometric series whose coefficients depend on the instrument
  and the fitting method.

The implementation modules `ocbpy/ocb_time.py` and `ocbpy/ocb_correction.py`
are not part of this model. The model states the behaviour that the package's
tests pin down, `ocbpy/tests/test_ocb_time.py` and
`ocbpy/tests/test_ocb_correction.py`. Each operation is a pure function over
exact integers, reals and strings.

Files:

| file | module | contents |
|---|---|---|
| `wrappers.dfy` | `Wrappers` | `Option` and `Result` |
| `calendar.dfy` | `Calendar` | Gregorian leap years, day of year, ordinals, `Timestamp`, adding microseconds |
| `digits.dfy` | `Digits` | zero-padded decimals and Python's `int()` of a string |
| `text.dfy` | `Text` | substring search, ASCII upper case |
| `time_format.dfy` | `TimeFormat` | `strftime` rendering with per-directive widths, a `strptime` reader for numeric fields |
| `elementwise.dfy` | `Elementwise` | the one map that gives every function its array form |
| `ocb_time.dfy` | `OcbTime` | `yyddd_to_date`, `year_soy_to_datetime`, `convert_time`, `datetime2hr`, unit conversions, wrapping, `glon2slt` and `slt2glon` |
| `ocb_time_cases.dfy` | `OcbTimeCases` | the concrete inputs and results of the time tests |
| `ocb_correction.dfy` | `OcbCorrection` | `circular`, `elliptical`, `harmonic` |

Errors that Python raises are `Failure` values:

| error | Python message |
|---|---|
| `NotAString` | "YYDDD must be a string" |
| `FormatMismatch` | "does not match format"; also reported for a field whose value is out of range, which Python may report as "unconverted data remains" instead (`%j` on `367` reads `36` and leaves `7`); both are `ValueError` |
| `UnconvertedData` | "unconverted data remains", for trailing text other than a fraction of a second |
| `InvalidLiteral` | "invalid literal for int()", for a YYDDD year part that `int()` refuses |
| `UnknownInstrument` / `UnknownMethod` | `ValueError` from the corrections |
| `NotATimestamp` | the `AttributeError` of `datetime2hr(5.0)` |

## Model

| member | source | states |
|---|---|---|
| Calendar.DayOfYear | ocbpy/tests/test_ocb_time.py:135-140 | the day of year of a valid date lies in 1..365 (or 366) and falls within the date's month |
| Calendar.DateOfDayOfYear | ocbpy/tests/test_ocb_time.py:135-140 | day `n` of year `y` is a valid date of that year whose day of year is `n` |
| Calendar.DateOfDayOfYearRoundTrip | ocbpy/tests/test_ocb_time.py:135-140 | taking a date's day of year and converting it back gives the same date |
| Calendar.DayOfYearInjective | ocbpy/tests/test_ocb_time.py:135-140 | two dates of one year with the same day of year are the same date |
| Calendar.AddMicros | ocbpy/tests/test_ocb_time.py:28-31 | adding microseconds to a valid timestamp gives a valid timestamp exactly that many microseconds later |
| Calendar.AddMicrosAdditive | ocbpy/tests/test_ocb_time.py:93-99 | adding `a` then `b` microseconds is the same as adding `a + b` |
| Digits.ParseIntPad | ocbpy/tests/test_ocb_time.py:135-140 | `int()` of a zero-padded decimal is its number, so `"101"` and `"01"` read as 101 and 1 |
| Digits.ParseIntDigits | ocbpy/tests/test_ocb_time.py:135-140 | `int()` of any non-empty run of ASCII digits is the number they make, leading zeros allowed |
| Digits.ParseIntSigned | ocbpy/tests/test_ocb_time.py:135-140 | `int()` of a minus sign followed by a run of digits is the negated number |
| Digits.ParseIntSpaces | ocbpy/tests/test_ocb_time.py:135-140 | white space (`str.isspace`) before and after the text does not change what `int()` gives, success or refusal |
| Digits.ParseIntUnderscore | ocbpy/tests/test_ocb_time.py:135-140 | one underscore between two groups of digits does not change what `int()` gives |
| Digits.ParseIntBlank | ocbpy/tests/test_ocb_time.py:135-140 | `int()` refuses empty or all-white-space text |
| Digits.ParseIntMisplaced | ocbpy/tests/test_ocb_time.py:135-140 | `int()` refuses the examples `_1`, `1_`, `1__0` and `- 1` |
| Digits.ParseIntLeadingUnderscore | ocbpy/tests/test_ocb_time.py:135-140 | `int()` refuses any group of digits with an underscore in front of it |
| Digits.ParseIntTrailingUnderscore | ocbpy/tests/test_ocb_time.py:135-140 | `int()` refuses any group of digits followed by an underscore |
| Digits.ParseIntDoubleUnderscore | ocbpy/tests/test_ocb_time.py:135-140 | `int()` refuses any two groups of digits joined by two underscores |
| Digits.ParseIntSpaceAfterSign | ocbpy/tests/test_ocb_time.py:135-140 | `int()` refuses a sign followed by white space and then digits |
| TimeFormat.FormatLength | ocbpy/tests/test_ocb_time.py:366-377 | the maximum length of a format without `%` is its own length |
| TimeFormat.RenderedLengthBound | ocbpy/tests/test_ocb_time.py:350-364 | for every valid timestamp and every locale within the directive widths, the rendered text is no longer than `get_datetime_fmt_len` |
| TimeFormat.RenderedLengthExact | ocbpy/tests/test_ocb_time.py:379-391 | for a format of fixed-width numeric directives, the rendered length equals the maximum length |
| TimeFormat.ScanRender | ocbpy/tests/test_ocb_time.py:33-55 | the reader reads a rendering of a readable format back: the timestamp's fields, with any trailing text left over |
| TimeFormat.TrailingTextIgnored | ocbpy/tests/test_ocb_time.py:41-47 | once a format matches a prefix exactly, a fraction of a second after it (a point and digits, left as "unconverted data remains") is dropped and the prefix is what gets converted |
| TimeFormat.TrailingTextRefused | ocbpy/tests/test_ocb_time.py:41-47 | once a format matches a prefix exactly, any other text after it is refused as unconverted data |
| TimeFormat.ReadRendering | ocbpy/tests/test_ocb_time.py:33-55 | reading what a readable format rendered, with or without a fraction of a second after it, gives the timestamp to the second |
| OcbTime.SecondsToMicros | ocbpy/tests/test_ocb_time.py:93-99 | seconds become microseconds to the nearest microsecond |
| OcbTime.SecondsToMicrosOfMicros | ocbpy/tests/test_ocb_time.py:93-99 | a whole number of microseconds given in seconds (such as `1e-6`) converts back exactly |
| OcbTime.RoundHalfEven | ocbpy/tests/test_ocb_time.py:93-99 | rounding gives an integer within one half, and the even one on a tie |
| OcbTime.YydddToDate | ocbpy/tests/test_ocb_time.py:135-146 | a number is refused with "YYDDD must be a string"; a code of three characters or fewer is refused; a result is always a valid, in-range midnight |
| OcbTime.YydddTextOfDate | ocbpy/tests/test_ocb_time.py:135-140 | for every date from year 1000 to 9999, a code whose leading part reads under `int()` as `year - 1900` (negative before 1900) and whose last three digits are the day of year decodes to midnight of that date |
| OcbTime.YydddRoundTrip | ocbpy/tests/test_ocb_time.py:135-140 | for every date from 1900, encoding it as YYDDD and decoding gives midnight of that date |
| OcbTime.DayOfYearToDate | ocbpy/tests/test_ocb_time.py:135-140 | a year outside four digits is refused, and a result is a valid midnight no earlier than that year |
| OcbTime.YearSoyToDatetime | ocbpy/tests/test_ocb_time.py:28-31 | an out-of-range year or seconds outside the year are refused; a result is January 1 of the year plus the seconds, to the microsecond |
| OcbTime.YearSoyOfDay | ocbpy/tests/test_ocb_time.py:28-31 | the seconds of year of a day and a time of day give that day at that time |
| OcbTime.ConvertTime | ocbpy/tests/test_ocb_time.py:117-127 | a YYDDD number is refused with "YYDDD must be a string"; without a YYDDD code, a date, or both year and soy, the input "does not match format"; every result is valid and in range |
| OcbTime.ConvertDate | ocbpy/tests/test_ocb_time.py:33-55 | without a YYDDD code, a date is converted with its time of day or seconds of day, whatever year and soy say |
| OcbTime.FromDateAndTime | ocbpy/tests/test_ocb_time.py:101-113 | with neither a time of day nor seconds of day, the date is read with the format cut before its time part |
| OcbTime.ReadDateTime | ocbpy/tests/test_ocb_time.py:41-47 | a rendered date, a space and a rendered time of day, with or without a fraction of a second after it, read back under the joined format give the timestamp to the second |
| OcbTime.DateTodRoundTrip | ocbpy/tests/test_ocb_time.py:33-55 | for every timestamp and every date and time format with literal separators, `convert_time(date, tod, fmt)` of its renderings, the time of day optionally followed by a fraction of a second, gives the timestamp to the second |
| OcbTime.DateTodTailRefused | ocbpy/tests/test_ocb_time.py:41-47 | for the same renderings, any other text after the time of day makes `convert_time` refuse with "unconverted data remains" |
| OcbTime.YydddAsDate | ocbpy/tests/test_ocb_time.py:63-91 | a YYDDD code converts exactly as the date it names does, rendered `%Y-%m-%d`, under the format with `YYDDD` replaced by that date format |
| OcbTime.FormatForYyddd | ocbpy/tests/test_ocb_time.py:70-84 | the format used for a YYDDD input always holds `%Y-%m-%d`, and a format that already holds it is kept |
| OcbTime.FormatForYydddReplaces | ocbpy/tests/test_ocb_time.py:70-76 | `YYDDD` at the head of the format is replaced by `%Y-%m-%d` |
| OcbTime.FormatForYydddPrepends | ocbpy/tests/test_ocb_time.py:78-84 | a time-only format gets `%Y-%m-%d ` in front |
| OcbTime.DateSod | ocbpy/tests/test_ocb_time.py:110-113 | a rendered date with seconds of day is midnight of that date plus those seconds |
| OcbTime.ConvertYearSoyOfDay | ocbpy/tests/test_ocb_time.py:57-61 | `convert_time(year, soy)` of a day's seconds of year is that day plus its seconds of day |
| OcbTime.DateSodMatchesYearSoy | ocbpy/tests/test_ocb_time.py:101-113 | a date with seconds of day and the same instant as year with seconds of year convert to the same timestamp |
| OcbTime.YydddSodMatchesYearSoy | ocbpy/tests/test_ocb_time.py:86-99 | a YYDDD code with seconds of day and the same instant as year with seconds of year convert to the same timestamp |
| OcbTime.DatetimeToHours | ocbpy/tests/test_ocb_time.py:148-156 | the hour of day counts every microsecond of the day: `h * 3.6e9` is the microsecond of the day |
| OcbTime.DatetimeToHoursRange | ocbpy/tests/test_ocb_time.py:148-156 | the hour of day of a valid timestamp lies in [0, 24) |
| OcbTime.DatetimeToHoursInjective | ocbpy/tests/test_ocb_time.py:148-156 | two timestamps of one day with the same hour of day are equal |
| OcbTime.Datetime2Hr | ocbpy/tests/test_ocb_time.py:148-161 | a plain number is refused exactly when given, and a timestamp's result is its exact hour of day |
| OcbTime.Deg2Hr | ocbpy/tests/test_ocb_time.py:176-191 | hours times 15 give the degrees |
| OcbTime.Hr2Deg | ocbpy/tests/test_ocb_time.py:193-200 | degrees divided by 15 give the hours |
| OcbTime.Hr2Rad | ocbpy/tests/test_ocb_time.py:210-225 | radians times 12 equal hours times π |
| OcbTime.Rad2Hr | ocbpy/tests/test_ocb_time.py:227-241 | hours times π equal radians times 12 |
| OcbTime.Radians | ocbpy/tests/test_ocb_time.py:215 | `numpy.radians`: radians times 180 equal degrees times π |
| OcbTime.DegreeHourRoundTrip | ocbpy/tests/test_ocb_time.py:176-200 | degrees to hours and back, and hours to degrees and back, are the identity |
| OcbTime.RadianHourRoundTrip | ocbpy/tests/test_ocb_time.py:210-241 | hours to radians and back, and radians to hours and back, are the identity |
| OcbTime.HoursAsRadians | ocbpy/tests/test_ocb_time.py:210-241 | hours to radians equals hours to degrees then `numpy.radians`, and `rad2hr` undoes it |
| OcbTime.Linspace | ocbpy/tests/test_ocb_time.py:168-169 | `numpy.linspace(0, top, n)`: n points from 0 to top, point `i` at `i * top / (n - 1)` |
| OcbTime.Deg2HrGrid | ocbpy/tests/test_ocb_time.py:176-183 | `deg2hr` maps the degree grid 0..360 point by point onto the hour grid 0..24 |
| OcbTime.Hr2DegGrid | ocbpy/tests/test_ocb_time.py:193-200 | `hr2deg` maps the hour grid 0..24 point by point onto the degree grid 0..360 |
| OcbTime.Hr2RadGrid | ocbpy/tests/test_ocb_time.py:210-217 | `hr2rad` of the hour grid equals `numpy.radians` of the degree grid, point by point |
| OcbTime.Rad2HrGrid | ocbpy/tests/test_ocb_time.py:227-234 | `rad2hr` of `numpy.radians` of the degree grid is the hour grid, point by point |
| OcbTime.WrapHours | ocbpy/tests/test_ocb_time.py:262-264 | a wrapped hour lies in [0, 24) and differs from the input by whole days |
| OcbTime.WrapLongitude | ocbpy/tests/test_ocb_time.py:275-277 | a wrapped longitude lies in (-180, 180] and differs from the input by whole turns |
| OcbTime.WrapHoursUnique | ocbpy/tests/test_ocb_time.py:262-264 | the only value in [0, 24) whole days from `x` is its wrapped hour |
| OcbTime.WrapLongitudeUnique | ocbpy/tests/test_ocb_time.py:275-277 | the only value in (-180, 180] whole turns from `x` is its wrapped longitude |
| OcbTime.WrapHoursPeriodic | ocbpy/tests/test_ocb_time.py:262-264 | whole days do not change the wrapped hour |
| OcbTime.WrapLongitudePeriodic | ocbpy/tests/test_ocb_time.py:275-277 | whole turns do not change the wrapped longitude |
| OcbTime.WrapHoursOnce | ocbpy/tests/test_ocb_time.py:262-264 | for inputs within a day of [0, 24), wrapping subtracts 24 from values of 24 or more and adds 24 to negative ones, as the test's masks do |
| OcbTime.WrapLongitudeOnce | ocbpy/tests/test_ocb_time.py:275-277 | for inputs within a turn of (-180, 180], wrapping subtracts 360 above 180 and adds 360 at or below -180, as the test's masks do |
| OcbTime.Glon2Slt | ocbpy/tests/test_ocb_time.py:259-270 | the local time lies in [0, 24) and differs by whole days from the hour of the timestamp plus the longitude in hours |
| OcbTime.Slt2Glon | ocbpy/tests/test_ocb_time.py:272-282 | the longitude lies in (-180, 180] and differs by whole turns from 15 times the local time less the hour of the timestamp |
| OcbTime.Slt2GlonOfGlon2Slt | ocbpy/tests/test_ocb_time.py:250-282 | converting a longitude to local time and back gives the longitude, wrapped |
| OcbTime.Glon2SltOfSlt2Glon | ocbpy/tests/test_ocb_time.py:250-282 | converting a local time to longitude and back gives the local time, wrapped |
| OcbTime.Glon2SltPeriodic | ocbpy/tests/test_ocb_time.py:250 | longitudes whole turns apart (390 and 30) have the same local time |
| OcbTime.Glon2SltAll | ocbpy/tests/test_ocb_time.py:308-330 | on a list or array: one local time per longitude, element `i` being `glon2slt` of longitude `i` |
| OcbTime.Slt2GlonAll | ocbpy/tests/test_ocb_time.py:284-306 | on a list or array: one longitude per local time, element `i` being `slt2glon` of local time `i` |
| Elementwise.Map | ocbpy/tests/test_ocb_time.py:176-183 | the array form of a function has the input's length, and element `i` is the function of element `i` |
| OcbTimeCases.YearSoy2001 | ocbpy/tests/test_ocb_time.py:28-31 | `year_soy_to_datetime(2001, 0)` is 2001-01-01 00:00:00 |
| OcbTimeCases.ConvertDateTod | ocbpy/tests/test_ocb_time.py:33-39 | `convert_time(date="2001-01-01", tod="00:00:00")` is 2001-01-01 00:00:00 |
| OcbTimeCases.ConvertDateTodUnconverted | ocbpy/tests/test_ocb_time.py:41-47 | `tod="00:00:00.000001"` gives the same whole-second midnight |
| OcbTimeCases.ConvertDateTodFormat | ocbpy/tests/test_ocb_time.py:49-55 | `tod="00-00-00"` with format `%Y-%m-%d %H-%M-%S` gives 2001-01-01 00:00:00 |
| OcbTimeCases.DateTod2001 | ocbpy/tests/test_ocb_time.py:33-55 | a 2001-01-01 date and a midnight time of day with any literal separators, optionally followed by a fraction of a second, give 2001-01-01 00:00:00 |
| OcbTimeCases.ConvertDateTodTailRefused | ocbpy/tests/test_ocb_time.py:41-47 | `tod="00:00:00 junk"` is refused with the unconverted `" junk"`, unlike the fraction of a second |
| OcbTimeCases.ConvertYearSoy2001 | ocbpy/tests/test_ocb_time.py:57-61 | `convert_time(year=2001, soy=0)` is 2001-01-01 00:00:00 |
| OcbTimeCases.ConvertYydddTod | ocbpy/tests/test_ocb_time.py:63-68 | `convert_time(yyddd="101001", tod="00:00:00")` is 2001-01-01 00:00:00 |
| OcbTimeCases.ConvertYydddTodFormat | ocbpy/tests/test_ocb_time.py:70-76 | with format `YYDDD %H %M %S` and `tod="00 00 00"` the result is the same |
| OcbTimeCases.ConvertYydddTodTimeFormat | ocbpy/tests/test_ocb_time.py:78-84 | with the time-only format `%H %M %S` the result is the same |
| OcbTimeCases.YydddTod2001 | ocbpy/tests/test_ocb_time.py:63-84 | the code `101001` with a midnight time of day under any format that the YYDDD rewrite turns into a date-and-time format gives 2001-01-01 00:00:00 |
| OcbTimeCases.YydddSod2001 | ocbpy/tests/test_ocb_time.py:86-99 | the code `101001` with seconds of day is 2001-01-01 plus those seconds, to the microsecond |
| OcbTimeCases.ConvertYydddSod | ocbpy/tests/test_ocb_time.py:86-91 | `convert_time(yyddd="101001", sod=0)` is 2001-01-01 00:00:00 |
| OcbTimeCases.ConvertYydddSodMicrosecond | ocbpy/tests/test_ocb_time.py:93-99 | `sod=1e-6` gives microsecond 1 |
| OcbTimeCases.ConvertDateTodPacked | ocbpy/tests/test_ocb_time.py:101-108 | the keyword input with `tod="000000"` and format `%Y-%m-%d %H%M%S` gives 2001-01-01 00:00:00 |
| OcbTimeCases.DateSodText | ocbpy/tests/test_ocb_time.py:110-113 | the date `2001-01-01` with seconds of day is that midnight plus those seconds |
| OcbTimeCases.ConvertDateSod | ocbpy/tests/test_ocb_time.py:110-113 | the keyword input with `sod=0.0` and date `2001-01-01` gives 2001-01-01 00:00:00 |
| OcbTimeCases.YydddNumberRefused | ocbpy/tests/test_ocb_time.py:117-121 | a YYDDD number is refused with "YYDDD must be a string", by `convert_time` and by `yyddd_to_date` |
| OcbTimeCases.SoyWithoutYearRefused | ocbpy/tests/test_ocb_time.py:123-127 | `convert_time(soy=200)` "does not match format" |
| OcbTimeCases.YearThenSpace | ocbpy/tests/test_ocb_time.py:129-133 | a four-digit year followed by a space and any time of day does not match the default format |
| OcbTimeCases.BadDateRefused | ocbpy/tests/test_ocb_time.py:129-133 | `convert_time(date="2000", tod="00")` "does not match format" |
| OcbTimeCases.YydddToDate2001 | ocbpy/tests/test_ocb_time.py:139 | `yyddd_to_date("101001")` is 2001-01-01 |
| OcbTimeCases.YydddToDate1901 | ocbpy/tests/test_ocb_time.py:140 | `yyddd_to_date("01001")` is 1901-01-01 |
| OcbTimeCases.YydddSpaced | ocbpy/tests/test_ocb_time.py:135-140 | `yyddd_to_date(" 1001")` is 1901-01-01, because `int(" 1")` is 1 |
| OcbTimeCases.YydddUnderscored | ocbpy/tests/test_ocb_time.py:135-140 | `yyddd_to_date("1_0001")` is 1910-01-01, because `int("1_0")` is 10 |
| OcbTimeCases.YydddNegative | ocbpy/tests/test_ocb_time.py:135-140 | `yyddd_to_date("-1001")` is 1899-01-01, because `int("-1")` is -1 |
| OcbTimeCases.HourCases | ocbpy/tests/test_ocb_time.py:148-161 | the hour of midnight is 0, that of 01:01:01.000001 is exactly 3661000001/3600000000, and a number is refused |
| OcbTimeCases.Glon2SltCases | ocbpy/tests/test_ocb_time.py:259-270 | at 01:00 the longitudes 390, 359, 90, -15 and -30 are at local times 3, 14/15, 7, 0 and 23 |
| OcbTimeCases.Slt2GlonCases | ocbpy/tests/test_ocb_time.py:272-282 | at 01:00 the local times 27, 14/15, 7, 0 and -1 are at longitudes 30, -1, 90, -15 and -30 |
| OcbTimeCases.NoDirectivesLength | ocbpy/tests/test_ocb_time.py:366-377 | `No Directives` has maximum length 13 and renders as itself |
| OcbTimeCases.TwoDigitYearFormatLength | ocbpy/tests/test_ocb_time.py:379-391 | `%y-%m-%d %H:%M:%S` has maximum length 17, and every timestamp renders to exactly 17 characters |
| OcbCorrection.CircularSeq | ocbpy/tests/test_ocb_correction.py:143-149 | `circular` on an array is an array of `r_add` of the same length |
| OcbCorrection.CircularConstant | ocbpy/tests/test_ocb_correction.py:101-115 | `circular` does not depend on the local time; it is 0.0 by default and 1.0 with `r_add=1.0` |
| OcbCorrection.ParseMethod | ocbpy/tests/test_ocb_correction.py:55-77 | exactly `default` and `gaussian` are accepted as methods |
| OcbCorrection.SelectSeries | ocbpy/tests/test_ocb_correction.py:29-77 | an unknown instrument is refused first, then an unknown method; a known pair selects the gaussian table exactly for `gaussian` |
| OcbCorrection.Elliptical | ocbpy/tests/test_ocb_correction.py:29-77 | `elliptical` succeeds exactly for a known instrument and a known method, and otherwise names the unknown one |
| OcbCorrection.Harmonic | ocbpy/tests/test_ocb_correction.py:29-77 | `harmonic` succeeds exactly for a known instrument and a known method, and otherwise names the unknown one |
| OcbCorrection.BadKeywordRefused | ocbpy/tests/test_ocb_correction.py:29-77 | both corrections refuse `bad_kwarg` as an instrument and as a method |
| OcbCorrection.CorrectionSeqElementwise | ocbpy/tests/test_ocb_correction.py:135-165 | the array form fails exactly when the selection fails, with the same error; otherwise it has one value per local time, each the scalar correction of that local time |
| OcbCorrection.CorrectionsElementwise | ocbpy/tests/test_ocb_correction.py:101-165 | for `elliptical` and `harmonic`, element `i` of the array result is the scalar result for `mlt[i]`, and the array form fails exactly when the scalar form does |
| OcbCorrection.TurnsInvariant | ocbpy/tests/test_ocb_correction.py:86-91 | whole turns do not change cosine or sine |
| OcbCorrection.HarmonicsPeriodic | ocbpy/tests/test_ocb_correction.py:86-91 | the harmonic terms repeat when the angle goes once round |
| OcbCorrection.CorrectionsPeriodic | ocbpy/tests/test_ocb_correction.py:86-91 | `elliptical` and `harmonic` repeat every 24 hours of local time, since local time enters only as the angle `hr2rad(mlt)` |
| OcbCorrection.CorrectionAtMidnight | ocbpy/tests/test_ocb_correction.py:88-93 | at MLT 0 a correction is the constant term plus the cosine weights of the chosen table |
| OcbCorrection.GaussianSelectsOwnTable | ocbpy/tests/test_ocb_correction.py:174-199 | where the gaussian and default tables differ at MLT 0, `method="gaussian"` is accepted and gives a different correction from the default |

## Left out

- `ocbpy/ocb_time.py` and `ocbpy/ocb_correction.py` are not part of this model. Their behaviour is taken from the package's documentation and tests, not from their code.
- Floating point: values are exact reals and `assertAlmostEqual` becomes equality. The test's `0.9333333333333336` is 14/15, and `1.01694444472` is 3661000001/3600000000.
- Locale- and time-zone-dependent rendering (`%a %A %b %B %c %x %X %p %z %Z` and the week directives) goes through an abstract renderer. Each of these directives is bounded by a per-directive maximum width. No real locale data is modelled.
- `strptime` reads only `%Y %m %d %H %M %S %j` and `%%`, as fixed-width digit fields. Any other directive is refused with `BadDirective`. Field value ranges are checked when the timestamp is built.
- `strptime` matches the literal characters of the format exactly. Python turns white space in the format into a pattern for one or more white-space characters and matches case-insensitively. So `convert_time` with `tod=" 00:00:00"` succeeds in Python but is refused by the model.
- TimeFormat.Render: a `%` pair outside the modelled directives (`%G %u %V %e %F %T %D %R %C %h %k %l %s` and other platform extensions) is rendered as its two literal characters, whereas the platform's strftime expands it. `RenderedLengthBound` is therefore not claimed for formats containing those directives.
- Digits.ParseInt: non-ASCII decimal digits (the other Unicode `Nd` digits, such as Arabic-Indic or full-width ones) are refused, although Python's `int()` accepts them. ASCII digits, `str.isspace` white space around the number, a sign and single underscores between digits are modelled.
- After "unconverted data remains", `convert_time` converts again only when the unconverted text is a fraction of a second: a point followed by at least one digit, the suffix the documentation names. Any other trailing text is refused with `UnconvertedData`.
- Python's type dispatch: "not a string" and "not a timestamp" are explicit constructors (`YydddNumber`, `HourOfNumber`), not arbitrary values.
- numpy broadcasting: a scalar function and its array form (`Elementwise.Map`) are separate functions. Lists and arrays are both `seq<real>`.
- The `skipIf`/`subTest` scaffolding and the Python 2 test variants are not modelled.
- `ocbpy/tests/test_ocb_time.py:202-207` calls `deg2hr`, not `hr2deg`, so it gives no evidence for scalar `hr2deg`. The model follows lines 193-200.
- π is an abstract positive constant. The conversions and their round trips use only its positivity.
- Cosine and sine are abstract constants. Their periodicity and their values at zero are preconditions (`TrigPeriodic`, `TrigAtZero`), not facts.
- The coefficient tables of `elliptical` and `harmonic` are abstract constants. So are the reference values -4.1946, -2.0979, -1.5822, -3.4393, -4.6392 and -2.2933 that they give. The model fixes only how a table is chosen and how a series is evaluated.
- `elliptical` is modelled with the same series form as `harmonic`, `a0 + Σ (aᵢ cos iθ + bᵢ sin iθ)` at `θ = hr2rad(mlt)`, with its own tables.
- The recognised instruments are modelled as the single name `ampere`, the default. The tests name the default-instrument cases after it. Other instrument names and case-insensitive matching are not modelled.
- When both the instrument and the method are unknown, the model reports the instrument. The tests never pass both.
- OcbCorrection.GaussianSelectsOwnTable: states only that the gaussian and default results differ where the two tables differ at MLT 0. The concrete values -4.639 vs -4.195 and -2.293 vs -1.582 need the tables.
- OcbTime.DayOfYearToDate: a day number past the end of its year (such as day 366 of a common year) runs into the next year, as adding days to January 1 does. The tests pin only day 1.
- Calendar.DaysBeforeYear: uses the proleptic Gregorian count of Python's `datetime` (`365 p + p/4 - p/100 + p/400` for `p = y - 1`), with Dafny's division. Dafny's Euclidean division equals Python's floor division for the positive divisors 4, 100 and 400, so the two agree for every year.
- Timestamps are naive: time zones, leap seconds and the `datetime` range outside years 1 to 9999 are not modelled. Years outside that range are refused with `OutOfRange`.
