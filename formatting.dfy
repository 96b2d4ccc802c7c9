/**
 * The two text conversions the watch log and the project record depend on:
 * Python's `str(n)` on an integer, and `date.strftime('%d/%m/%Y')`.
 * Both are written out digit by digit so that their injectivity, on which
 * the one-bucket-per-date and deduplication rules rest, can be proved.
 */
module Formatting {

  predicate IsDigit(c: char) {
    '0' <= c <= '9'
  }

  predicate AllDigits(s: string) {
    forall i :: 0 <= i < |s| ==> IsDigit(s[i])
  }

  /** The character of the decimal digit `d`. */
  function DigitChar(d: int): (c: char)
    requires 0 <= d < 10
    ensures IsDigit(c)
    ensures c == '0' <==> d == 0
  {
    (48 + d) as char
  }

  /** The value of a digit character; the inverse of DigitChar. */
  function DigitValue(c: char): int {
    c as int - 48
  }

  /** The number that a string of decimal digits denotes, most significant digit first. */
  function DecimalValue(s: string): nat
    requires AllDigits(s)
  {
    if s == [] then 0 else DecimalValue(s[..|s| - 1]) * 10 + DigitValue(s[|s| - 1])
  }

  function Pow10(w: nat): (p: nat)
    ensures p >= 1
  {
    if w == 0 then 1 else 10 * Pow10(w - 1)
  }

  /** `str(n)` for a natural number: its decimal digits, with no leading zero. */
  function NatToString(n: nat): (s: string)
    ensures |s| >= 1 && AllDigits(s)
    ensures s[0] == '0' <==> n == 0
    decreases n
  {
    if n < 10 then [DigitChar(n)] else NatToString(n / 10) + [DigitChar(n % 10)]
  }

  /** Python's `str(i)` for any integer: a minus sign before the digits of a negative number. */
  function IntToString(i: int): (s: string)
    ensures |s| >= 1
    ensures s[0] == '-' <==> i < 0
    ensures i >= 0 ==> AllDigits(s)
  {
    if i < 0 then "-" + NatToString(-i) else NatToString(i)
  }

  /** The last `width` decimal digits of `n`, zero-filled on the left (`%02d`, `%04d`). */
  function Padded(n: nat, width: nat): (s: string)
    ensures |s| == width && AllDigits(s)
  {
    if width == 0 then [] else Padded(n / 10, width - 1) + [DigitChar(n % 10)]
  }

  lemma DecimalValueSnoc(s: string, c: char)
    requires AllDigits(s) && IsDigit(c)
    ensures AllDigits(s + [c])
    ensures DecimalValue(s + [c]) == DecimalValue(s) * 10 + DigitValue(c)
  {
  }

  /** Reading the digits of `str(n)` back gives `n`. */
  lemma {:induction false} NatToStringValue(n: nat)
    ensures DecimalValue(NatToString(n)) == n
  {
    if n < 10 {
      DecimalValueSnoc([], DigitChar(n));
      assert [] + [DigitChar(n)] == NatToString(n);
    } else {
      NatToStringValue(n / 10);
      DecimalValueSnoc(NatToString(n / 10), DigitChar(n % 10));
    }
  }

  /** Distinct natural numbers have distinct decimal strings. */
  lemma NatToStringInjective(a: nat, b: nat)
    requires NatToString(a) == NatToString(b)
    ensures a == b
  {
    NatToStringValue(a);
    NatToStringValue(b);
  }

  /** Distinct integers have distinct `str` forms, so comparing counts as text compares them as numbers. */
  lemma IntToStringInjective(a: int, b: int)
    requires IntToString(a) == IntToString(b)
    ensures a == b
  {
    if a < 0 {
      assert b < 0;
      assert NatToString(-a) == IntToString(a)[1..] == IntToString(b)[1..] == NatToString(-b);
      NatToStringInjective(-a, -b);
    } else {
      assert b >= 0;
      NatToStringInjective(a, b);
    }
  }

  /** Reading a zero-filled field back gives the number, when the number fits in the field. */
  lemma {:induction false} PaddedValue(n: nat, width: nat)
    requires n < Pow10(width)
    ensures DecimalValue(Padded(n, width)) == n
  {
    if width > 0 {
      PaddedValue(n / 10, width - 1);
      DecimalValueSnoc(Padded(n / 10, width - 1), DigitChar(n % 10));
    }
  }

  type Day = d: int | 1 <= d <= 31 witness 1
  type Month = m: int | 1 <= m <= 12 witness 1
  type Year = y: int | 1 <= y <= 9999 witness 1

  /** A calendar date, as `datetime.date` holds it (day resolution). */
  datatype Date = Date(year: Year, month: Month, day: Day)

  /** `date.strftime('%d/%m/%Y')`: two-digit day, two-digit month, four-digit year. */
  function FormatDate(d: Date): (s: string)
    ensures |s| == 10 && s[2] == '/' && s[5] == '/'
    ensures AllDigits(s[..2]) && AllDigits(s[3..5]) && AllDigits(s[6..])
  {
    Padded(d.day, 2) + "/" + Padded(d.month, 2) + "/" + Padded(d.year, 4)
  }

  /** Each field of a formatted date reads back as the date's own day, month and year. */
  lemma FormatDateFields(d: Date)
    ensures DecimalValue(FormatDate(d)[..2]) == d.day
    ensures DecimalValue(FormatDate(d)[3..5]) == d.month
    ensures DecimalValue(FormatDate(d)[6..]) == d.year
  {
    var s := FormatDate(d);
    assert s[..2] == Padded(d.day, 2);
    assert s[3..5] == Padded(d.month, 2);
    assert s[6..] == Padded(d.year, 4);
    assert Pow10(2) == 100 && Pow10(4) == 10000;
    PaddedValue(d.day, 2);
    PaddedValue(d.month, 2);
    PaddedValue(d.year, 4);
  }

  /** Distinct dates have distinct `dd/mm/yyyy` strings: comparing the strings compares the dates. */
  lemma FormatDateInjective(a: Date, b: Date)
    requires FormatDate(a) == FormatDate(b)
    ensures a == b
  {
    FormatDateFields(a);
    FormatDateFields(b);
  }
}
