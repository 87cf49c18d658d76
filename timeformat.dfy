/** UTC wall-clock times and Go's layout `20060102150405` (YYYYMMDDhhmmss). */
module TimeFormat {
  import opened Strings

  /** A broken-down UTC time, as `time.Now().UTC()` presents it to `Format`. */
  datatype DateTime = DateTime(year: int, month: nat, day: nat, hour: nat, minute: nat, second: nat)

  predicate IsLeapYear(y: int) {
    y % 4 == 0 && (y % 100 != 0 || y % 400 == 0)
  }

  function DaysIn(year: int, month: nat): nat
    requires 1 <= month <= 12
  {
    if month == 2 then (if IsLeapYear(year) then 29 else 28)
    else if month == 4 || month == 6 || month == 9 || month == 11 then 30
    else 31
  }

  /** A time of the proleptic Gregorian calendar; Go has no leap seconds. */
  predicate ValidTime(t: DateTime) {
    && 1 <= t.month <= 12
    && 1 <= t.day <= DaysIn(t.year, t.month)
    && t.hour < 24 && t.minute < 60 && t.second < 60
  }

  /** Chronological order: field by field, most significant first. */
  predicate Before(t: DateTime, u: DateTime) {
    if t.year != u.year then t.year < u.year
    else if t.month != u.month then t.month < u.month
    else if t.day != u.day then t.day < u.day
    else if t.hour != u.hour then t.hour < u.hour
    else if t.minute != u.minute then t.minute < u.minute
    else t.second < u.second
  }

  function Pow10(w: nat): (r: nat)
    ensures r > 0
  {
    if w == 0 then 1 else 10 * Pow10(w - 1)
  }

  function DigitChar(d: nat): (c: char)
    requires d < 10
    ensures IsDigit(c)
  {
    (48 + d) as char
  }

  function DigitValue(c: char): nat
    requires IsDigit(c)
  {
    c as int - 48
  }

  /** The last `w` decimal digits of `n`, most significant first. */
  function Fixed(n: nat, w: nat): (r: string)
    ensures |r| == w && AllDigits(r)
  {
    if w == 0 then "" else Fixed(n / 10, w - 1) + [DigitChar(n % 10)]
  }

  /** How many decimal digits `n` has (zero has one). */
  function NumDigits(n: nat): (k: nat)
    ensures k >= 1
  {
    if n < 10 then 1 else 1 + NumDigits(n / 10)
  }

  /** Go's `appendInt(b, n, w)` for n >= 0: every digit of `n`, left-padded with zeros to width `w`. */
  function Pad(n: nat, w: nat): string {
    Fixed(n, if NumDigits(n) < w then w else NumDigits(n))
  }

  /** The year field `2006`: a sign for negative years, then at least four digits. */
  function YearText(y: int): string {
    if y < 0 then "-" + Pad(-y, 4) else Pad(y, 4)
  }

  /** `t.Format("20060102150405")`. */
  function Format(t: DateTime): string {
    YearText(t.year) + (Pad(t.month, 2) + (Pad(t.day, 2) + (Pad(t.hour, 2) + (Pad(t.minute, 2) + Pad(t.second, 2)))))
  }

  /** Decimal reading of a digit string; the inverse of `Fixed`. */
  function Value(s: string): nat
    requires AllDigits(s)
  {
    if s == [] then 0 else 10 * Value(s[..|s| - 1]) + DigitValue(s[|s| - 1])
  }

  lemma {:induction false} FixedRoundTrip(n: nat, w: nat)
    requires n < Pow10(w)
    ensures Value(Fixed(n, w)) == n
  {
    if w > 0 {
      var f := Fixed(n, w);
      assert f[..w - 1] == Fixed(n / 10, w - 1);
      FixedRoundTrip(n / 10, w - 1);
    }
  }

  lemma FixedInjective(n: nat, m: nat, w: nat)
    requires n < Pow10(w) && m < Pow10(w)
    ensures Fixed(n, w) == Fixed(m, w) <==> n == m
  {
    FixedRoundTrip(n, w);
    FixedRoundTrip(m, w);
  }

  /** Zero-padded numbers of one width sort as strings exactly as they sort as numbers. */
  lemma {:induction false} FixedLess(n: nat, m: nat, w: nat)
    requires n < Pow10(w) && m < Pow10(w)
    ensures Less(Fixed(n, w), Fixed(m, w)) <==> n < m
  {
    if w > 0 {
      var dn, dm := [DigitChar(n % 10)], [DigitChar(m % 10)];
      LessConcat(Fixed(n / 10, w - 1), dn, Fixed(m / 10, w - 1), dm);
      FixedLess(n / 10, m / 10, w - 1);
      FixedInjective(n / 10, m / 10, w - 1);
      assert Less(dn, dm) <==> n % 10 < m % 10 by {
        assert dn[1..] == [] && dm[1..] == [];
      }
    }
  }

  lemma {:induction false} NumDigitsBound(n: nat, w: nat)
    requires 0 < w && n < Pow10(w)
    ensures NumDigits(n) <= w
  {
    if n >= 10 {
      NumDigitsBound(n / 10, w - 1);
    }
  }

  lemma PadFixed(n: nat, w: nat)
    requires 0 < w && n < Pow10(w)
    ensures Pad(n, w) == Fixed(n, w)
  {
    NumDigitsBound(n, w);
  }

  /** A year of four digits and the two-digit fields make a string of 14 digits. */
  lemma FormatDigits(t: DateTime)
    requires ValidTime(t) && 0 <= t.year < 10000
    ensures Format(t) == Fixed(t.year, 4) + (Fixed(t.month, 2) + (Fixed(t.day, 2) + (Fixed(t.hour, 2) + (Fixed(t.minute, 2) + Fixed(t.second, 2)))))
    ensures |Format(t)| == 14 && AllDigits(Format(t))
  {
    PadFixed(t.year, 4);
    PadFixed(t.month, 2);
    PadFixed(t.day, 2);
    PadFixed(t.hour, 2);
    PadFixed(t.minute, 2);
    PadFixed(t.second, 2);
  }

  /** One field of the layout: compares as its number, and the rest decides a tie. */
  lemma FieldOrder(n: nat, m: nat, w: nat, r1: string, r2: string)
    requires n < Pow10(w) && m < Pow10(w)
    ensures Less(Fixed(n, w) + r1, Fixed(m, w) + r2) <==> n < m || (n == m && Less(r1, r2))
  {
    LessConcat(Fixed(n, w), r1, Fixed(m, w), r2);
    FixedLess(n, m, w);
    FixedInjective(n, m, w);
  }

  /** For four-digit years the layout is strictly monotone: string order is time order. */
  lemma FormatOrder(t: DateTime, u: DateTime)
    requires ValidTime(t) && ValidTime(u)
    requires 0 <= t.year < 10000 && 0 <= u.year < 10000
    ensures Before(t, u) <==> Less(Format(t), Format(u))
  {
    FormatDigits(t);
    FormatDigits(u);
    var s5, v5 := Fixed(t.second, 2), Fixed(u.second, 2);
    var s4, v4 := Fixed(t.minute, 2) + s5, Fixed(u.minute, 2) + v5;
    var s3, v3 := Fixed(t.hour, 2) + s4, Fixed(u.hour, 2) + v4;
    var s2, v2 := Fixed(t.day, 2) + s3, Fixed(u.day, 2) + v3;
    var s1, v1 := Fixed(t.month, 2) + s2, Fixed(u.month, 2) + v2;
    FieldOrder(t.year, u.year, 4, s1, v1);
    FieldOrder(t.month, u.month, 2, s2, v2);
    FieldOrder(t.day, u.day, 2, s3, v3);
    FieldOrder(t.hour, u.hour, 2, s4, v4);
    FieldOrder(t.minute, u.minute, 2, s5, v5);
    FixedLess(t.second, u.second, 2);
  }

  lemma YearTextLeadingDigits()
    ensures |YearText(10000)| > 0 && YearText(10000)[0] == '1'
    ensures |YearText(9999)| > 0 && YearText(9999)[0] == '9'
  {
    assert NumDigits(10000) == 5 by {
      assert NumDigits(1000) == 4 by {
        assert NumDigits(100) == 3;
      }
    }
    assert Fixed(10000, 5) == Fixed(1000, 4) + "0";
    assert Fixed(1000, 4) == Fixed(100, 3) + "0";
    assert Fixed(100, 3) == Fixed(10, 2) + "0";
    assert Fixed(10, 2) == Fixed(1, 1) + "0";
    assert Fixed(1, 1) == "1";
    assert NumDigits(9999) == 4 by {
      assert NumDigits(999) == 3 by {
        assert NumDigits(99) == 2;
      }
    }
    assert Fixed(9999, 4) == Fixed(999, 3) + "9";
    assert Fixed(999, 3) == Fixed(99, 2) + "9";
    assert Fixed(99, 2) == Fixed(9, 1) + "9";
    assert Fixed(9, 1) == "9";
  }

  /** Without the four-digit bound the order breaks: the first second of year 10000
      formats to a string that sorts before the last second of year 9999. */
  lemma FiveDigitYearBreaksOrder()
    ensures var t, u := DateTime(9999, 12, 31, 23, 59, 59), DateTime(10000, 1, 1, 0, 0, 0);
      ValidTime(t) && ValidTime(u) && Before(t, u) && Less(Format(u), Format(t))
  {
    var t, u := DateTime(9999, 12, 31, 23, 59, 59), DateTime(10000, 1, 1, 0, 0, 0);
    YearTextLeadingDigits();
    var ft, fu := Format(t), Format(u);
    assert ft[0] == YearText(9999)[0];
    assert fu[0] == YearText(10000)[0];
  }
}
