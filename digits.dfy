/**
 * Decimal digit strings: the value of a digit string, Python's `"{:d}"` and
 * zero-padded renderings, and Python's `int()` on a string.
 */
module Digits {
  import opened Wrappers

  predicate IsDigit(c: char) {
    '0' <= c <= '9'
  }

  predicate AllDigits(s: string) {
    forall i {:trigger IsDigit(s[i])} :: 0 <= i < |s| ==> IsDigit(s[i])
  }

  lemma AllDigitsAppend(a: string, b: string)
    requires AllDigits(a) && AllDigits(b)
    ensures AllDigits(a + b)
  {
  }

  function DigitChar(d: int): (c: char)
    requires 0 <= d < 10
    ensures IsDigit(c) && DigitValue(c) == d
  {
    ('0' as int + d) as char
  }

  function DigitValue(c: char): int
    requires IsDigit(c)
  {
    c as int - '0' as int
  }

  function Pow10(k: nat): (p: nat)
    ensures p >= 1
  {
    if k == 0 then 1 else 10 * Pow10(k - 1)
  }

  lemma Pow10Small()
    ensures Pow10(1) == 10 && Pow10(2) == 100 && Pow10(3) == 1000
    ensures Pow10(4) == 10000 && Pow10(6) == 1000000
  {
  }

  /** The number a string of decimal digits denotes (leading zeros allowed). */
  function ValueOf(s: string): (n: nat)
    requires AllDigits(s)
    ensures n < Pow10(|s|)
  {
    if s == [] then 0 else ValueOf(s[..|s| - 1]) * 10 + DigitValue(s[|s| - 1])
  }

  lemma ValueOfSnoc(s: string, c: char)
    requires AllDigits(s) && IsDigit(c)
    ensures AllDigits(s + [c]) && ValueOf(s + [c]) == ValueOf(s) * 10 + DigitValue(c)
  {
    assert (s + [c])[..|s|] == s;
  }

  /** Python's `"{:d}"` of a natural number: its digits, without leading zeros. */
  function Decimal(n: nat): (s: string)
    ensures AllDigits(s) && |s| >= 1 && ValueOf(s) == n
    ensures |s| > 1 ==> s[0] != '0'
  {
    if n < 10 then [DigitChar(n)]
    else
      var s := Decimal(n / 10);
      ValueOfSnoc(s, DigitChar(n % 10));
      s + [DigitChar(n % 10)]
  }

  function Zeros(k: nat): (s: string)
    ensures |s| == k && AllDigits(s) && ValueOf(s) == 0
    ensures forall i :: 0 <= i < k ==> s[i] == '0'
  {
    if k == 0 then []
    else
      var z := Zeros(k - 1);
      ValueOfSnoc(z, '0');
      z + ['0']
  }

  /** Leading zeros do not change the value. */
  lemma {:induction false} ValueOfLeadingZeros(k: nat, s: string)
    requires AllDigits(s)
    ensures AllDigits(Zeros(k) + s) && ValueOf(Zeros(k) + s) == ValueOf(s)
    decreases |s|
  {
    var z := Zeros(k);
    if s != [] {
      var init, last := s[..|s| - 1], s[|s| - 1];
      assert s == init + [last];
      assert z + s == (z + init) + [last];
      ValueOfLeadingZeros(k, init);
      ValueOfSnoc(z + init, last);
      ValueOfSnoc(init, last);
    } else {
      assert z + s == z;
    }
  }

  /**
   * The number zero-padded to at least `w` digits: Python's `"{:0wd}"` and the
   * numeric fields of strftime.
   */
  function Pad(n: nat, w: nat): (s: string)
    ensures AllDigits(s) && |s| >= 1 && ValueOf(s) == n
    ensures |s| == (if |Decimal(n)| < w then w else |Decimal(n)|)
  {
    var d := Decimal(n);
    if |d| < w then
      ValueOfLeadingZeros(w - |d|, d);
      Zeros(w - |d|) + d
    else d
  }

  /** A number below 10^w fits in `w` digits. */
  lemma {:induction false} DecimalFits(n: nat, w: nat)
    requires w >= 1 && n < Pow10(w)
    ensures |Decimal(n)| <= w
    decreases n
  {
    if n >= 10 {
      assert w != 1;
      DecimalFits(n / 10, w - 1);
    }
  }

  /** Zero-padding a number below 10^w gives exactly `w` digits. */
  lemma PadWidth(n: nat, w: nat)
    requires w >= 1 && n < Pow10(w)
    ensures |Pad(n, w)| == w
  {
    DecimalFits(n, w);
  }

  /** Digit strings of equal length and value are equal. */
  lemma {:induction false} ValueOfInjective(s: string, t: string)
    requires AllDigits(s) && AllDigits(t) && |s| == |t|
    requires ValueOf(s) == ValueOf(t)
    ensures s == t
    decreases |s|
  {
    if s != [] {
      var i := |s| - 1;
      var a, b := ValueOf(s[..i]), ValueOf(t[..i]);
      var x, y := DigitValue(s[i]), DigitValue(t[i]);
      assert a * 10 + x == b * 10 + y;
      assert x == y && a == b;
      ValueOfInjective(s[..i], t[..i]);
      assert s == s[..i] + [s[i]] && t == t[..i] + [t[i]];
    }
  }

  // ------------------------------------------------------------------ int()

  /** Python's `str.isspace` of one character: the characters `int()` strips from both ends. */
  predicate IsSpace(c: char) {
    var n := c as int;
    9 <= n <= 13 || 28 <= n <= 32 || n == 0x85 || n == 0xA0 || n == 0x1680
    || 0x2000 <= n <= 0x200A || n == 0x2028 || n == 0x2029 || n == 0x202F
    || n == 0x205F || n == 0x3000
  }

  predicate AllSpaces(s: string) {
    forall i {:trigger IsSpace(s[i])} :: 0 <= i < |s| ==> IsSpace(s[i])
  }

  /** `s` without its leading white space. */
  function StripStart(s: string): string {
    if s != [] && IsSpace(s[0]) then StripStart(s[1..]) else s
  }

  /** `s` without its trailing white space. */
  function StripEnd(s: string): string {
    if s != [] && IsSpace(s[|s| - 1]) then StripEnd(s[..|s| - 1]) else s
  }

  /** `str.strip()`: white space removed from both ends. */
  function Strip(s: string): string {
    StripEnd(StripStart(s))
  }

  /** Digits with single underscores between them, as `int()` accepts them since Python 3.6. */
  predicate Grouped(s: string)
    decreases |s|
  {
    |s| >= 1 && IsDigit(s[0])
    && (|s| == 1 || if s[1] == '_' then Grouped(s[2..]) else Grouped(s[1..]))
  }

  /** The digits of `s`, underscores dropped. */
  function DigitsOf(s: string): (r: string)
    ensures AllDigits(r) && |r| <= |s|
    ensures s != [] && IsDigit(s[0]) ==> r != [] && r[0] == s[0]
    ensures AllDigits(s) ==> r == s
  {
    if s == [] then []
    else if IsDigit(s[0]) then [s[0]] + DigitsOf(s[1..])
    else DigitsOf(s[1..])
  }

  /**
   * Python's `int()` on a string: white space around, then an optional sign,
   * then digits with single underscores between them.
   */
  function ParseInt(s: string): Option<int> {
    var t := Strip(s);
    if |t| >= 2 && (t[0] == '-' || t[0] == '+') && Grouped(t[1..]) then
      var v := ValueOf(DigitsOf(t[1..]));
      Some(if t[0] == '-' then 0 - v else v)
    else if Grouped(t) then Some(ValueOf(DigitsOf(t)))
    else None
  }

  /** Stripping leaves a text that begins and ends with other characters alone. */
  lemma StripPlain(s: string)
    requires |s| >= 1 && !IsSpace(s[0]) && !IsSpace(s[|s| - 1])
    ensures Strip(s) == s
  {
  }

  /** A run of digits is grouped. */
  lemma {:induction false} AllDigitsGrouped(s: string)
    requires |s| >= 1 && AllDigits(s)
    ensures Grouped(s)
    decreases |s|
  {
    if |s| > 1 {
      assert IsDigit(s[1]);
      AllDigitsGrouped(s[1..]);
    }
  }

  /** `int()` of grouped digits is the number their digits make. */
  lemma ParseIntGrouped(s: string)
    requires Grouped(s)
    ensures ParseInt(s) == Some(ValueOf(DigitsOf(s)))
  {
    GroupedEnds(s);
    StripPlain(s);
  }

  /** Grouped digits begin and end with a digit. */
  lemma {:induction false} GroupedEnds(s: string)
    requires Grouped(s)
    ensures IsDigit(s[0]) && IsDigit(s[|s| - 1])
    decreases |s|
  {
    if |s| > 1 {
      var tail := if s[1] == '_' then s[2..] else s[1..];
      GroupedEnds(tail);
      assert s[|s| - 1] == tail[|tail| - 1];
    }
  }

  /** `int()` ignores white space before and after the number. */
  lemma ParseIntSpaces(l: string, m: string, r: string)
    requires AllSpaces(l) && AllSpaces(r)
    ensures ParseInt(l + m + r) == ParseInt(m)
  {
    StripSpaces(l, m, r);
  }

  /** Stripping removes white space added at either end. */
  lemma StripSpaces(l: string, m: string, r: string)
    requires AllSpaces(l) && AllSpaces(r)
    ensures Strip(l + m + r) == Strip(m)
  {
    assert l + m + r == l + (m + r);
    StripStartSpaces(l, m + r);
    if StripStart(m) == [] {
      StripStartBlank(m, r);
      StripStartSpaces(r, []);
      assert r + [] == r;
    } else {
      StripStartAppend(m, r);
      StripEndSpaces(StripStart(m), r);
    }
  }

  lemma {:induction false} StripStartSpaces(l: string, x: string)
    requires AllSpaces(l)
    ensures StripStart(l + x) == StripStart(x)
    decreases |l|
  {
    if l == [] {
      assert l + x == x;
    } else {
      assert IsSpace(l[0]) && (l + x)[0] == l[0];
      assert (l + x)[1..] == l[1..] + x;
      StripStartSpaces(l[1..], x);
    }
  }

  lemma {:induction false} StripEndSpaces(x: string, r: string)
    requires AllSpaces(r)
    ensures StripEnd(x + r) == StripEnd(x)
    decreases |r|
  {
    if r == [] {
      assert x + r == x;
    } else {
      var init := r[..|r| - 1];
      assert IsSpace(r[|r| - 1]) && (x + r)[|x + r| - 1] == r[|r| - 1];
      assert (x + r)[..|x + r| - 1] == x + init;
      StripEndSpaces(x, init);
    }
  }

  lemma {:induction false} StripStartBlank(x: string, r: string)
    requires StripStart(x) == []
    ensures StripStart(x + r) == StripStart(r)
    decreases |x|
  {
    if x == [] {
      assert x + r == r;
    } else {
      assert (x + r)[0] == x[0] && (x + r)[1..] == x[1..] + r;
      StripStartBlank(x[1..], r);
    }
  }

  lemma {:induction false} StripStartAppend(x: string, r: string)
    requires StripStart(x) != []
    ensures StripStart(x + r) == StripStart(x) + r
    decreases |x|
  {
    assert (x + r)[0] == x[0];
    if IsSpace(x[0]) {
      assert (x + r)[1..] == x[1..] + r;
      StripStartAppend(x[1..], r);
    }
  }

  /** `int()` reads digits with an underscore between two groups as the digits without it. */
  lemma ParseIntUnderscore(a: string, b: string)
    requires Grouped(a) && Grouped(b)
    ensures ParseInt(a + "_" + b) == ParseInt(a + b)
  {
    GroupedJoin(a, b);
    ParseIntGrouped(a + "_" + b);
    ParseIntGrouped(a + b);
    DigitsOfAppend(a + "_", b);
    DigitsOfAppend(a, "_");
    DigitsOfAppend(a, b);
    assert DigitsOf("_") == [];
    assert DigitsOf(a) + [] == DigitsOf(a);
  }

  /** Two groups joined with or without an underscore are grouped. */
  lemma {:induction false} GroupedJoin(a: string, b: string)
    requires Grouped(a) && Grouped(b)
    ensures Grouped(a + "_" + b) && Grouped(a + b)
    decreases |a|
  {
    var s, t := a + "_" + b, a + b;
    assert s[0] == a[0] && t[0] == a[0];
    if |a| == 1 {
      assert s[1] == '_' && s[2..] == b;
      assert t[1] == b[0] && t[1..] == b;
    } else if a[1] == '_' {
      assert s[1] == '_' && s[2..] == a[2..] + "_" + b;
      assert t[1] == '_' && t[2..] == a[2..] + b;
      GroupedJoin(a[2..], b);
    } else {
      assert s[1] == a[1] && s[1..] == a[1..] + "_" + b;
      assert t[1] == a[1] && t[1..] == a[1..] + b;
      GroupedJoin(a[1..], b);
    }
  }

  lemma {:induction false} DigitsOfAppend(x: string, y: string)
    ensures DigitsOf(x + y) == DigitsOf(x) + DigitsOf(y)
    decreases |x|
  {
    if x == [] {
      assert x + y == y;
    } else {
      assert (x + y)[0] == x[0] && (x + y)[1..] == x[1..] + y;
      DigitsOfAppend(x[1..], y);
    }
  }

  /** `int()` refuses text that is empty or only white space. */
  lemma ParseIntBlank(s: string)
    requires AllSpaces(s)
    ensures ParseInt(s) == None
  {
    StripSpaces(s, [], []);
    assert s + [] + [] == s;
  }

  /**
   * `int()` refuses an underscore at either end, two underscores in a row,
   * and white space between the sign and the digits.
   */
  lemma ParseIntMisplaced()
    ensures ParseInt("_1") == None && ParseInt("1_") == None
    ensures ParseInt("1__0") == None && ParseInt("- 1") == None
  {
    PlainRefused("_1");
    PlainRefused("1_");
    PlainRefused("1__0");
    PlainRefused("- 1");
  }

  /** `int()` refuses grouped digits with an underscore in front of them. */
  lemma ParseIntLeadingUnderscore(a: string)
    requires Grouped(a)
    ensures ParseInt("_" + a) == None
  {
    var s := "_" + a;
    GroupedEnds(a);
    assert s[0] == '_' && s[|s| - 1] == a[|a| - 1];
    PlainRefused(s);
  }

  /** `int()` refuses grouped digits with an underscore after them. */
  lemma ParseIntTrailingUnderscore(a: string)
    requires Grouped(a)
    ensures ParseInt(a + "_") == None
  {
    var s := a + "_";
    GroupedEnds(a);
    assert s[0] == a[0] && s[|s| - 1] == '_';
    if Grouped(s) {
      GroupedEnds(s);
      assert false;
    }
    PlainRefused(s);
  }

  /** `int()` refuses two groups of digits joined by two underscores. */
  lemma ParseIntDoubleUnderscore(a: string, b: string)
    requires Grouped(a) && Grouped(b)
    ensures ParseInt(a + "__" + b) == None
  {
    var s := a + "__" + b;
    GroupedEnds(a);
    GroupedEnds(b);
    assert s[0] == a[0] && s[|s| - 1] == b[|b| - 1];
    DoubleUnderscoreUngrouped(a, b);
    PlainRefused(s);
  }

  /** Two underscores in a row never occur in grouped digits. */
  lemma {:induction false} DoubleUnderscoreUngrouped(a: string, b: string)
    requires Grouped(a)
    ensures !Grouped(a + "__" + b)
    decreases |a|
  {
    var s := a + "__" + b;
    assert s[0] == a[0];
    if |a| == 1 {
      assert s[1] == '_' && s[2] == '_';
    } else if a[1] == '_' {
      assert s[1] == '_' && s[2..] == a[2..] + "__" + b;
      DoubleUnderscoreUngrouped(a[2..], b);
    } else {
      assert s[1] == a[1] && s[1..] == a[1..] + "__" + b;
      DoubleUnderscoreUngrouped(a[1..], b);
    }
  }

  /** `int()` refuses white space between the sign and the digits. */
  lemma ParseIntSpaceAfterSign(sign: char, w: string, a: string)
    requires sign == '-' || sign == '+'
    requires AllSpaces(w) && w != [] && Grouped(a)
    ensures ParseInt([sign] + w + a) == None
  {
    var s := [sign] + w + a;
    GroupedEnds(a);
    assert s[0] == sign && s[1] == w[0] && s[|s| - 1] == a[|a| - 1];
    assert IsSpace(w[0]);
    PlainRefused(s);
  }

  /** Text with other characters at both ends, neither grouped digits nor a sign and grouped digits. */
  lemma PlainRefused(s: string)
    requires |s| >= 2 && !IsSpace(s[0]) && !IsSpace(s[|s| - 1])
    requires !Grouped(s) && !((s[0] == '-' || s[0] == '+') && Grouped(s[1..]))
    ensures ParseInt(s) == None
  {
    StripPlain(s);
  }

  /** `int()` of a run of digits is the number they make. */
  lemma ParseIntDigits(s: string)
    requires |s| >= 1 && AllDigits(s)
    ensures ParseInt(s) == Some(ValueOf(s))
  {
    assert IsDigit(s[0]) && IsDigit(s[|s| - 1]);
    StripPlain(s);
    AllDigitsGrouped(s);
  }

  /** `int()` reads back every zero-padded rendering of a number. */
  lemma ParseIntPad(n: nat, w: nat)
    ensures ParseInt(Pad(n, w)) == Some(n)
  {
    ParseIntDigits(Pad(n, w));
  }

  /** `int()` of a minus sign and a run of digits is the negated number. */
  lemma ParseIntSigned(s: string, d: string)
    requires |d| >= 1 && AllDigits(d) && s == "-" + d
    ensures ParseInt(s) == Some(0 - ValueOf(d))
  {
    assert s[0] == '-' && s[1..] == d && s[|s| - 1] == d[|d| - 1];
    assert IsDigit(d[|d| - 1]);
    StripPlain(s);
    AllDigitsGrouped(d);
    ParseIntOfSign(s, d);
  }

  lemma ParseIntOfSign(s: string, d: string)
    requires |s| >= 2 && Strip(s) == s && s[0] == '-' && s[1..] == d && Grouped(d) && AllDigits(d)
    ensures ParseInt(s) == Some(0 - ValueOf(d))
  {
    assert DigitsOf(d) == d;
  }
}
