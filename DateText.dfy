/** The text side of the date helpers: decimal digits, `Number.prototype.toString`
    on integers, `padZero`, and the `YYYY-MM-DD` shape that `parseDate` accepts. */
module DateText {
  import opened Wrappers
  import opened Calendar

  predicate IsDigit(ch: char) { '0' <= ch <= '9' }

  function DigitValue(ch: char): int { ch as int - '0' as int }

  function DigitChar(d: int): (ch: char)
    requires 0 <= d <= 9
    ensures IsDigit(ch) && DigitValue(ch) == d
  {
    ('0' as int + d) as char
  }

  /** The number a string of decimal digits denotes, read from the left. */
  function DecimalValue(s: string): int
  {
    if s == [] then 0 else 10 * DecimalValue(s[..|s| - 1]) + DigitValue(s[|s| - 1])
  }

  /** Every character of `s` is a decimal digit. */
  predicate AllDigits(s: string)
  {
    forall k :: 0 <= k < |s| ==> IsDigit(s[k])
  }

  /** The decimal text of a non-negative integer, as `toString()` writes it. */
  function NatToString(n: nat): (s: string)
    ensures 1 <= |s|
  {
    if n < 10 then [DigitChar(n)] else NatToString(n / 10) + [DigitChar(n % 10)]
  }

  /** `toString()` of a non-negative integer is digits denoting it, without a
      leading zero unless it is zero. */
  lemma {:induction false} NatToStringDigits(n: nat)
    ensures var s := NatToString(n);
      AllDigits(s) && DecimalValue(s) == n && (s[0] == '0' <==> n == 0)
  {
    if n >= 10 {
      NatToStringDigits(n / 10);
      var s := NatToString(n);
      assert s[..|s| - 1] == NatToString(n / 10);
    }
  }

  /** The decimal text of any integer: a minus sign before the digits of a negative one. */
  function IntToString(i: int): string
  {
    if i < 0 then "-" + NatToString(-i) else NatToString(i)
  }

  /** `toString()` of an integer starts with a minus sign exactly when it is
      negative; what follows the sign is digits denoting its absolute value. */
  lemma IntToStringDigits(i: int)
    ensures var s := IntToString(i);
      1 <= |s| && (s[0] == '-' <==> i < 0) &&
      (i >= 0 ==> AllDigits(s) && DecimalValue(s) == i) &&
      (i < 0 ==> 2 <= |s| && AllDigits(s[1..]) && DecimalValue(s[1..]) == -i)
  {
    if i < 0 {
      NatToStringDigits(-i);
      assert IntToString(i)[1..] == NatToString(-i);
    } else {
      NatToStringDigits(i);
    }
  }

  /** `"0".repeat(n)`. */
  function Zeros(n: nat): (z: string)
    ensures |z| == n
  {
    if n == 0 then "" else "0" + Zeros(n - 1)
  }

  /** `"0".repeat(n)` is nothing but `0`s. */
  lemma {:induction false} ZerosAreZeros(n: nat)
    ensures forall k :: 0 <= k < n ==> Zeros(n)[k] == '0'
  {
    if n > 0 {
      ZerosAreZeros(n - 1);
    }
  }

  /** `padZero(num, length)`: `"0".repeat(length - str.length) + str`, where
      `repeat` throws a RangeError for a negative count; the failure carries the
      message V8 gives. */
  function PadZero(num: int, length: int): (r: Result<string>)
    ensures r.Success? <==> |IntToString(num)| <= length
    ensures r.Success? ==> |r.value| == length
  {
    var str := IntToString(num);
    var count := length - |str|;
    if count < 0 then Failure("RangeError: Invalid count value: " + IntToString(count)) else Success(Zeros(count) + str)
  }

  /** A successful `padZero` ends with the number's text and is `0` before it. */
  lemma PadZeroContents(num: int, length: int)
    requires PadZero(num, length).Success?
    ensures var str := IntToString(num); var r := PadZero(num, length).value;
      r[length - |str|..] == str && forall k :: 0 <= k < length - |str| ==> r[k] == '0'
  {
    ZerosAreZeros(length - |IntToString(num)|);
  }

  /** A string laid out as `YYYY-MM-DD`: ten characters, dashes at 4 and 7, digits elsewhere. */
  predicate Shaped(s: string)
  {
    |s| == 10
    && IsDigit(s[0]) && IsDigit(s[1]) && IsDigit(s[2]) && IsDigit(s[3]) && s[4] == '-'
    && IsDigit(s[5]) && IsDigit(s[6]) && s[7] == '-' && IsDigit(s[8]) && IsDigit(s[9])
  }

  /** The number two decimal digits denote. */
  function TwoDigitValue(hi: char, lo: char): int
  {
    10 * DigitValue(hi) + DigitValue(lo)
  }

  /** The calendar date a `YYYY-MM-DD` string names. */
  function ParseCivil(s: string): Civil
    requires Shaped(s)
  {
    var year := 100 * TwoDigitValue(s[0], s[1]) + TwoDigitValue(s[2], s[3]);
    Civil(year, TwoDigitValue(s[5], s[6]), TwoDigitValue(s[8], s[9]))
  }

  /** The date a shaped string names is the decimal values of its three digit
      groups: a year of at most four digits, a month and a day of at most two. */
  lemma ParseCivilDigits(s: string)
    requires Shaped(s)
    ensures var c := ParseCivil(s);
      c.year == DecimalValue(s[..4]) && c.month == DecimalValue(s[5..7]) && c.day == DecimalValue(s[8..])
    ensures var c := ParseCivil(s);
      0 <= c.year <= 9999 && 0 <= c.month <= 99 && 0 <= c.day <= 99
  {
    DecimalFour(s[..4]);
    DecimalTwo(s[5..7]);
    DecimalTwo(s[8..]);
  }

  lemma DecimalTwo(s: string)
    requires |s| == 2
    ensures DecimalValue(s) == TwoDigitValue(s[0], s[1])
  {
    var first := s[..1];
    assert first[..0] == [] && first[0] == s[0];
    assert DecimalValue(first) == DigitValue(s[0]);
  }

  lemma DecimalFour(s: string)
    requires |s| == 4
    ensures DecimalValue(s) == 100 * TwoDigitValue(s[0], s[1]) + TwoDigitValue(s[2], s[3])
  {
    assert s[..3] == s[..2] + [s[2]];
    DecimalTwo(s[..2]);
  }

  /** A date string `parseDate` turns into a time value: the shape, naming a real day. */
  predicate WellFormed(s: string)
  {
    Shaped(s) && ValidCivil(ParseCivil(s))
  }

  /** The template `${yyyy}-${mm}-${dd}` with month and day passed through `padZero(_, 2)`. */
  function FormatCivil(c: Civil): (r: Result<string>)
    ensures ValidCivil(c) ==> r.Success?
  {
    PadZeroTwo(c.month);
    PadZeroTwo(c.day);
    var mm := PadZero(c.month, 2);
    var dd := PadZero(c.day, 2);
    if mm.Failure? then Failure(mm.error)
    else if dd.Failure? then Failure(dd.error)
    else Success(IntToString(c.year) + "-" + mm.value + "-" + dd.value)
  }

  /** `padZero(n, 2)` of a number below 100 is its two decimal digits, the first
      of them `0` for a number below 10. */
  lemma PadZeroTwo(n: int)
    ensures 0 <= n < 100 ==> PadZero(n, 2) == Success([DigitChar(n / 10), DigitChar(n % 10)])
  {
    if 0 <= n < 10 {
      assert n / 10 == 0 && n % 10 == n;
      assert IntToString(n) == [DigitChar(n)];
      assert Zeros(1) == "0" == [DigitChar(0)];
      assert PadZero(n, 2).value == Zeros(1) + IntToString(n);
      assert Zeros(1) + IntToString(n) == [DigitChar(0), DigitChar(n)];
      assert DigitChar(n / 10) == DigitChar(0) && DigitChar(n % 10) == DigitChar(n);
    } else if 10 <= n < 100 {
      assert NatToString(n / 10) == [DigitChar(n / 10)];
      assert IntToString(n) == [DigitChar(n / 10)] + [DigitChar(n % 10)];
      assert Zeros(0) == "";
      assert PadZero(n, 2).value == Zeros(0) + IntToString(n) == [DigitChar(n / 10), DigitChar(n % 10)];
    }
  }

  /** `toString()` writes a four-digit year as its four decimal digits. */
  lemma FourDigits(n: int)
    requires 1000 <= n <= 9999
    ensures IntToString(n) == [DigitChar(n / 1000), DigitChar(n / 100 % 10), DigitChar(n / 10 % 10), DigitChar(n % 10)]
  {
    assert NatToString(n) == NatToString(n / 10) + [DigitChar(n % 10)];
    assert NatToString(n / 10) == NatToString(n / 100) + [DigitChar(n / 10 % 10)];
    assert NatToString(n / 100) == NatToString(n / 1000) + [DigitChar(n / 100 % 10)];
  }

  lemma DivMod10(q: int, r: int)
    requires 0 <= r < 10
    ensures (10 * q + r) / 10 == q && (10 * q + r) % 10 == r
  {
  }

  lemma DivMod100(q: int, r: int)
    requires 0 <= r < 100
    ensures (100 * q + r) / 100 == q && (100 * q + r) % 100 == r
  {
  }

  /** Two digits are determined by the number they denote. */
  lemma TwoDigitsInjective(a0: char, a1: char, b0: char, b1: char)
    requires IsDigit(a0) && IsDigit(a1) && IsDigit(b0) && IsDigit(b1)
    requires TwoDigitValue(a0, a1) == TwoDigitValue(b0, b1)
    ensures a0 == b0 && a1 == b1
  {
    DivMod10(DigitValue(a0), DigitValue(a1));
    DivMod10(DigitValue(b0), DigitValue(b1));
  }

  /** Two date strings naming the same calendar date are the same string. */
  lemma ParseInjective(a: string, b: string)
    requires Shaped(a) && Shaped(b)
    requires ParseCivil(a) == ParseCivil(b)
    ensures a == b
  {
    DivMod100(TwoDigitValue(a[0], a[1]), TwoDigitValue(a[2], a[3]));
    DivMod100(TwoDigitValue(b[0], b[1]), TwoDigitValue(b[2], b[3]));
    TwoDigitsInjective(a[0], a[1], b[0], b[1]);
    TwoDigitsInjective(a[2], a[3], b[2], b[3]);
    TwoDigitsInjective(a[5], a[6], b[5], b[6]);
    TwoDigitsInjective(a[8], a[9], b[8], b[9]);
  }

  /** The decimal digits of a four-digit number put back together. */
  lemma YearDigits(y: int)
    requires 1000 <= y <= 9999
    ensures 100 * (10 * (y / 1000) + y / 100 % 10) + (10 * (y / 10 % 10) + y % 10) == y
  {
    assert 10 * (y / 1000) + y / 100 % 10 == y / 100;
    assert 10 * (y / 10 % 10) + y % 10 == y % 100;
  }

  /** For a year of four digits the template writes its eight decimal digits in place. */
  lemma FormatDigits(c: Civil)
    requires 0 <= c.month < 100 && 0 <= c.day < 100 && 1000 <= c.year <= 9999
    ensures FormatCivil(c) == Success(
      [DigitChar(c.year / 1000), DigitChar(c.year / 100 % 10), DigitChar(c.year / 10 % 10), DigitChar(c.year % 10), '-',
       DigitChar(c.month / 10), DigitChar(c.month % 10), '-', DigitChar(c.day / 10), DigitChar(c.day % 10)])
  {
    PadZeroTwo(c.month);
    PadZeroTwo(c.day);
    FourDigits(c.year);
    TemplateChars(IntToString(c.year), PadZero(c.month, 2).value, PadZero(c.day, 2).value);
  }

  /** For a year of four digits the template writes a well-formed string naming the date. */
  lemma FormatWellFormed(c: Civil)
    requires ValidCivil(c) && 1000 <= c.year <= 9999
    ensures FormatCivil(c).Success?
    ensures WellFormed(FormatCivil(c).value) && ParseCivil(FormatCivil(c).value) == c
  {
    var y := c.year;
    FormatDigits(c);
    YearDigits(y);
    DigitsTemplate(y / 1000, y / 100 % 10, y / 10 % 10, y % 10, c.month / 10, c.month % 10, c.day / 10, c.day % 10);
    ParsedValid(FormatCivil(c).value, c);
  }

  /** A shaped string whose digits spell a real day is well formed. */
  lemma ParsedValid(s: string, c: Civil)
    requires Shaped(s) && ParseCivil(s) == c && ValidCivil(c)
    ensures WellFormed(s)
  {
  }

  /** Eight digits laid out in the template make a shaped string naming the date they spell. */
  lemma DigitsTemplate(d0: int, d1: int, d2: int, d3: int, d4: int, d5: int, d6: int, d7: int)
    requires 0 <= d0 <= 9 && 0 <= d1 <= 9 && 0 <= d2 <= 9 && 0 <= d3 <= 9
    requires 0 <= d4 <= 9 && 0 <= d5 <= 9 && 0 <= d6 <= 9 && 0 <= d7 <= 9
    ensures var s := [DigitChar(d0), DigitChar(d1), DigitChar(d2), DigitChar(d3), '-',
                      DigitChar(d4), DigitChar(d5), '-', DigitChar(d6), DigitChar(d7)];
      Shaped(s) && ParseCivil(s) == Civil(100 * (10 * d0 + d1) + (10 * d2 + d3), 10 * d4 + d5, 10 * d6 + d7)
  {
  }

  /** The template's characters, position by position. */
  lemma TemplateChars(yyyy: string, mm: string, dd: string)
    requires |yyyy| == 4 && |mm| == 2 && |dd| == 2
    ensures yyyy + "-" + mm + "-" + dd ==
      [yyyy[0], yyyy[1], yyyy[2], yyyy[3], '-', mm[0], mm[1], '-', dd[0], dd[1]]
  {
  }

  /** Below the year 1000 the template writes fewer than four year digits, so
      the text is not of the `YYYY-MM-DD` shape. */
  lemma UnpaddedYear()
    ensures FormatCivil(Civil(999, 1, 1)) == Success("999-01-01")
    ensures !Shaped("999-01-01")
  {
    PadZeroTwo(1);
    assert DigitChar(9) == '9' && DigitChar(0) == '0' && DigitChar(1) == '1';
    assert NatToString(99) == NatToString(9) + [DigitChar(9)];
    assert IntToString(999) == NatToString(99) + [DigitChar(9)] == "999";
    assert PadZero(1, 2) == Success("01");
    assert "999" + "-" + "01" + "-" + "01" == "999-01-01";
  }

  /** Formatting the date a well-formed string names gives that string back, once its year has four significant digits. */
  lemma FormatParse(s: string)
    requires WellFormed(s) && ParseCivil(s).year >= 1000
    ensures FormatCivil(ParseCivil(s)) == Success(s)
  {
    FormatWellFormed(ParseCivil(s));
    ParseInjective(FormatCivil(ParseCivil(s)).value, s);
  }
}
