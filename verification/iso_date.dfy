/**
 * `DateTimeExtensions.ToIsoDateString`: a calendar date written as
 * `YYYY-MM-DD`, the full-date form of section 5.6 of RFC 3339
 * (the ISO 8601 extended calendar date).
 */
module IsoDate {
  import opened Common

  /** The calendar part of a .NET `DateTime`; the time of day plays no part here. */
  datatype Date = Date(year: nat, month: nat, day: nat)

  predicate IsLeapYear(y: nat) {
    (y % 4 == 0 && y % 100 != 0) || y % 400 == 0
  }

  function DaysInMonth(y: nat, m: nat): nat
    requires 1 <= m <= 12
  {
    if m == 2 then (if IsLeapYear(y) then 29 else 28)
    else if m == 4 || m == 6 || m == 9 || m == 11 then 30
    else 31
  }

  /** The dates a `DateTime` can hold: years 1 to 9999 of the proleptic Gregorian calendar. */
  predicate Valid(d: Date) {
    && 1 <= d.year <= 9999
    && 1 <= d.month <= 12
    && 1 <= d.day <= DaysInMonth(d.year, d.month)
  }

  /** Chronological order of calendar dates. */
  predicate Before(d1: Date, d2: Date) {
    || d1.year < d2.year
    || (d1.year == d2.year && d1.month < d2.month)
    || (d1.year == d2.year && d1.month == d2.month && d1.day < d2.day)
  }

  // ---------------------------------------------------------------------------
  // Decimal digits
  // ---------------------------------------------------------------------------

  predicate IsDigit(c: char) {
    '0' <= c <= '9'
  }

  predicate AllDigits(s: string) {
    forall i :: 0 <= i < |s| ==> IsDigit(s[i])
  }

  function DigitValue(c: char): (n: nat)
    requires IsDigit(c)
    ensures n < 10
  {
    c as int - '0' as int
  }

  function DigitChar(n: nat): (c: char)
    requires n < 10
    ensures IsDigit(c) && DigitValue(c) == n
  {
    ('0' as int + n) as char
  }

  /** The value of a string of decimal digits, most significant digit first. */
  function ParseDigits(s: string): nat
    requires AllDigits(s)
  {
    if |s| == 0 then 0 else 10 * ParseDigits(s[..|s| - 1]) + DigitValue(s[|s| - 1])
  }

  function Pow10(w: nat): (p: nat)
    ensures p >= 1
  {
    if w == 0 then 1 else 10 * Pow10(w - 1)
  }

  function Zeros(k: nat): (z: string)
    ensures |z| == k && AllDigits(z)
  {
    seq(k, _ => '0')
  }

  /** The shortest decimal form of `n` ("0" for zero), as `int.ToString()` writes it. */
  function Digits(n: nat): (s: string)
    ensures 1 <= |s| && AllDigits(s)
    ensures ParseDigits(s) == n
  {
    if n < 10 then
      [DigitChar(n)]
    else
      var s := Digits(n / 10) + [DigitChar(n % 10)];
      assert s[..|s| - 1] == Digits(n / 10);
      s
  }

  lemma {:induction false} DigitsFit(n: nat, w: nat)
    requires n < Pow10(w)
    requires w >= 1
    ensures |Digits(n)| <= w
    decreases w
  {
    if n >= 10 {
      assert w >= 2;
      DigitsFit(n / 10, w - 1);
    }
  }

  lemma {:induction false} ParseZeros(k: nat)
    ensures ParseDigits(Zeros(k)) == 0
  {
    if k > 0 {
      assert Zeros(k)[..k - 1] == Zeros(k - 1);
      ParseZeros(k - 1);
    }
  }

  /** Leading zeros do not change the value of a digit string. */
  lemma {:induction false} ParseLeadingZeros(k: nat, s: string)
    requires AllDigits(s)
    ensures AllDigits(Zeros(k) + s)
    ensures ParseDigits(Zeros(k) + s) == ParseDigits(s)
    decreases |s|
  {
    var t := Zeros(k) + s;
    if |s| == 0 {
      assert t == Zeros(k);
      ParseZeros(k);
    } else {
      assert t[..|t| - 1] == Zeros(k) + s[..|s| - 1];
      ParseLeadingZeros(k, s[..|s| - 1]);
    }
  }

  /**
   * The standard format `D<w>`: the decimal digits of `n`, left-padded with
   * '0' to at least `w` characters; a value needing more digits keeps them all.
   */
  function Pad(n: nat, w: nat): (s: string)
    ensures AllDigits(s) && ParseDigits(s) == n
    ensures |s| >= w && |s| >= |Digits(n)|
    ensures w >= 1 && n < Pow10(w) ==> |s| == w
  {
    var d := Digits(n);
    if |d| >= w then
      assert w >= 1 && n < Pow10(w) ==> |d| == w by {
        if w >= 1 && n < Pow10(w) { DigitsFit(n, w); }
      }
      d
    else
      ParseLeadingZeros(w - |d|, d);
      Zeros(w - |d|) + d
  }

  // ---------------------------------------------------------------------------
  // The two overloads
  // ---------------------------------------------------------------------------

  /** The three groups of a date a `DateTime` can hold have exactly 4, 2 and 2 digits. */
  lemma ValidWidths(d: Date)
    ensures Valid(d) ==> |Pad(d.year, 4)| == 4 && |Pad(d.month, 2)| == 2 && |Pad(d.day, 2)| == 2
  {
    assert Pow10(2) == 100;
    assert Pow10(4) == 10000;
  }

  /**
   * `ToIsoDateString(this DateTime)`: year as `D4`, month and day as `D2`,
   * joined by '-'. Never shorter than ten characters, and exactly ten for
   * a date a `DateTime` can hold.
   */
  function ToIsoDateString(d: Date): (r: string)
    ensures |r| >= 10
    ensures Valid(d) ==> |r| == 10
  {
    ValidWidths(d);
    Pad(d.year, 4) + "-" + Pad(d.month, 2) + "-" + Pad(d.day, 2)
  }

  /**
   * `ToIsoDateString(this DateTime?)`: null for null; otherwise the same
   * format, written out again in the source rather than delegated.
   */
  function ToIsoDateStringNullable(d: Option<Date>): (r: Option<string>)
    ensures r.None? <==> d.None?
    ensures d.Some? ==> r == Some(ToIsoDateString(d.value))
  {
    if d.None? then None
    else Some(Pad(d.value.year, 4) + "-" + Pad(d.value.month, 2) + "-" + Pad(d.value.day, 2))
  }

  /** Reads a `YYYY-MM-DD` string back into its three numbers. */
  function ParseIsoDate(s: string): Option<Date> {
    if |s| == 10 && s[4] == '-' && s[7] == '-'
       && AllDigits(s[..4]) && AllDigits(s[5..7]) && AllDigits(s[8..])
    then Some(Date(ParseDigits(s[..4]), ParseDigits(s[5..7]), ParseDigits(s[8..])))
    else None
  }

  // ---------------------------------------------------------------------------
  // Properties
  // ---------------------------------------------------------------------------

  /** Whatever the numbers, the output is three digit groups of at least 4, 2 and 2 digits holding year, month and day. */
  lemma IsoDateGroups(d: Date)
    ensures var y, m, dd := Pad(d.year, 4), Pad(d.month, 2), Pad(d.day, 2);
      && ToIsoDateString(d) == y + "-" + m + "-" + dd
      && |y| >= 4 && |m| >= 2 && |dd| >= 2
      && AllDigits(y) && AllDigits(m) && AllDigits(dd)
      && ParseDigits(y) == d.year && ParseDigits(m) == d.month && ParseDigits(dd) == d.day
  {
  }

  /** For a date a `DateTime` can hold the output is exactly ten characters: `DDDD-DD-DD`. */
  lemma IsoDateShape(d: Date)
    requires Valid(d)
    ensures var s := ToIsoDateString(d);
      && |s| == 10 && s[4] == '-' && s[7] == '-'
      && forall i :: 0 <= i < 10 && i != 4 && i != 7 ==> IsDigit(s[i])
  {
    var y, m, dd := Pad(d.year, 4), Pad(d.month, 2), Pad(d.day, 2);
    ValidWidths(d);
    var s := ToIsoDateString(d);
    assert s == y + "-" + m + "-" + dd;
    forall i | 0 <= i < 10 && i != 4 && i != 7
      ensures IsDigit(s[i])
    {
      if i < 4 { assert s[i] == y[i]; }
      else if i < 7 { assert s[i] == m[i - 5]; }
      else { assert s[i] == dd[i - 8]; }
    }
  }

  /** Reading the three digit groups back gives the original date. */
  lemma IsoDateRoundTrip(d: Date)
    requires Valid(d)
    ensures ParseIsoDate(ToIsoDateString(d)) == Some(d)
  {
    var y, m, dd := Pad(d.year, 4), Pad(d.month, 2), Pad(d.day, 2);
    ValidWidths(d);
    var s := ToIsoDateString(d);
    assert s[..4] == y;
    assert s[5..7] == m;
    assert s[8..] == dd;
  }

  // ---------------------------------------------------------------------------
  // Ordinal string order agrees with chronological order
  // ---------------------------------------------------------------------------

  /** Ordinal (code-point) string comparison: `a` sorts strictly before `b`. */
  predicate LexLess(a: string, b: string)
    decreases |a|
  {
    if |a| == 0 then |b| > 0
    else if |b| == 0 then false
    else if a[0] != b[0] then a[0] < b[0]
    else LexLess(a[1..], b[1..])
  }

  /** Comparing two concatenations whose first parts have equal length: the first parts decide unless equal. */
  lemma {:induction false} LexLessConcat(p1: string, q1: string, p2: string, q2: string)
    requires |p1| == |p2|
    ensures LexLess(p1 + q1, p2 + q2) <==> LexLess(p1, p2) || (p1 == p2 && LexLess(q1, q2))
    decreases |p1|
  {
    if |p1| == 0 {
      assert p1 + q1 == q1 && p2 + q2 == q2;
    } else {
      assert (p1 + q1)[0] == p1[0] && (p2 + q2)[0] == p2[0];
      if p1[0] == p2[0] {
        assert (p1 + q1)[1..] == p1[1..] + q1;
        assert (p2 + q2)[1..] == p2[1..] + q2;
        assert p1 == p2 <==> p1[1..] == p2[1..] by {
          if p1[1..] == p2[1..] {
            assert p1 == [p1[0]] + p1[1..] && p2 == [p2[0]] + p2[1..];
          }
        }
        LexLessConcat(p1[1..], q1, p2[1..], q2);
      }
    }
  }

  /** Two digit strings of equal length with the same value are the same string. */
  lemma {:induction false} DigitsInjective(a: string, b: string)
    requires |a| == |b| && AllDigits(a) && AllDigits(b)
    requires ParseDigits(a) == ParseDigits(b)
    ensures a == b
    decreases |a|
  {
    if |a| > 0 {
      var n := |a| - 1;
      assert DigitValue(a[n]) == DigitValue(b[n]);
      assert a[n] == b[n] by {
        assert DigitChar(DigitValue(a[n])) == a[n] && DigitChar(DigitValue(b[n])) == b[n] by {
          assert a[n] as int == '0' as int + DigitValue(a[n]);
          assert b[n] as int == '0' as int + DigitValue(b[n]);
        }
      }
      DigitsInjective(a[..n], b[..n]);
      assert a == a[..n] + [a[n]] && b == b[..n] + [b[n]];
    }
  }

  /** On digit strings of equal length, ordinal order is numeric order. */
  lemma {:induction false} DigitsOrder(a: string, b: string)
    requires |a| == |b| && AllDigits(a) && AllDigits(b)
    ensures LexLess(a, b) <==> ParseDigits(a) < ParseDigits(b)
    decreases |a|
  {
    if |a| == 0 {
    } else {
      var n := |a| - 1;
      var a', b' := a[..n], b[..n];
      assert a == a' + [a[n]] && b == b' + [b[n]];
      LexLessConcat(a', [a[n]], b', [b[n]]);
      assert LexLess([a[n]], [b[n]]) <==> a[n] < b[n] by {
        assert [a[n]][1..] == [] && [b[n]][1..] == [];
      }
      DigitsOrder(a', b');
      if ParseDigits(a') == ParseDigits(b') {
        DigitsInjective(a', b');
      }
    }
  }

  /** Two `a-b-c` strings with groups of equal width compare group by group. */
  lemma GroupsOrder(y1: string, m1: string, e1: string, y2: string, m2: string, e2: string)
    requires |y1| == |y2| && |m1| == |m2|
    ensures LexLess(y1 + "-" + m1 + "-" + e1, y2 + "-" + m2 + "-" + e2) <==>
      LexLess(y1, y2) || (y1 == y2 && (LexLess(m1, m2) || (m1 == m2 && LexLess(e1, e2))))
  {
    assert y1 + "-" + m1 + "-" + e1 == y1 + ("-" + (m1 + ("-" + e1)));
    assert y2 + "-" + m2 + "-" + e2 == y2 + ("-" + (m2 + ("-" + e2)));
    LexLessConcat(y1, "-" + (m1 + ("-" + e1)), y2, "-" + (m2 + ("-" + e2)));
    LexLessConcat("-", m1 + ("-" + e1), "-", m2 + ("-" + e2));
    LexLessConcat(m1, "-" + e1, m2, "-" + e2);
    LexLessConcat("-", e1, "-", e2);
    assert !LexLess("-", "-");
  }

  /** Section 5.1 of RFC 3339: for dates a `DateTime` can hold, sorting the strings sorts the dates. */
  lemma IsoDateOrder(d1: Date, d2: Date)
    requires Valid(d1) && Valid(d2)
    ensures LexLess(ToIsoDateString(d1), ToIsoDateString(d2)) <==> Before(d1, d2)
  {
    var y1, m1, e1 := Pad(d1.year, 4), Pad(d1.month, 2), Pad(d1.day, 2);
    var y2, m2, e2 := Pad(d2.year, 4), Pad(d2.month, 2), Pad(d2.day, 2);
    ValidWidths(d1);
    ValidWidths(d2);
    GroupsOrder(y1, m1, e1, y2, m2, e2);
    DigitsOrder(y1, y2);
    DigitsOrder(m1, m2);
    DigitsOrder(e1, e2);
    assert y1 == y2 <==> d1.year == d2.year by {
      if d1.year == d2.year { DigitsInjective(y1, y2); }
    }
    assert m1 == m2 <==> d1.month == d2.month by {
      if d1.month == d2.month { DigitsInjective(m1, m2); }
    }
  }
}
