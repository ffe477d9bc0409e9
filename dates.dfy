/** Day-granular calendar dates in the proleptic Gregorian calendar: validity,
    chronological order, the canonical yyyy-MM-dd text form and its strict
    parser, subtracting whole years as a calendar does, and age in whole years. */
module Dates {
  import opened Wrappers

  datatype Date = Date(year: int, month: int, day: int)

  predicate IsLeapYear(y: int) {
    y % 4 == 0 && (y % 100 != 0 || y % 400 == 0)
  }

  function DaysInMonth(y: int, m: int): (n: int)
    requires 1 <= m <= 12
    ensures 28 <= n <= 31
    ensures n == 29 <==> m == 2 && IsLeapYear(y)
  {
    if m == 2 then (if IsLeapYear(y) then 29 else 28)
    else if m == 4 || m == 6 || m == 9 || m == 11 then 30
    else 31
  }

  /** A real calendar day: month in 1..12, day within the month's length. */
  predicate IsValid(d: Date) {
    1 <= d.month <= 12 && 1 <= d.day <= DaysInMonth(d.year, d.month)
  }

  /** Chronological order is lexicographic on (year, month, day). */
  predicate Before(a: Date, b: Date) {
    a.year < b.year ||
    (a.year == b.year && (a.month < b.month || (a.month == b.month && a.day < b.day)))
  }

  predicate OnOrBefore(a: Date, b: Date) {
    Before(a, b) || a == b
  }

  lemma OrderIsTotal(a: Date, b: Date)
    ensures Before(a, b) || a == b || Before(b, a)
    ensures !(Before(a, b) && Before(b, a))
    ensures OnOrBefore(a, b) <==> !Before(b, a)
  {
  }

  // ---------------------------------------------------------------------------
  // Calendar arithmetic

  /** The same day n years earlier, as a calendar subtracting years computes it:
      the month and day are kept, except that 29 February becomes 28 February
      when the target year is not a leap year. */
  function YearsBefore(d: Date, n: nat): (r: Date)
    requires IsValid(d)
    ensures IsValid(r)
    ensures r.year == d.year - n && r.month == d.month
    ensures r.day == d.day || (d.month == 2 && d.day == 29 && r.day == 28 && !IsLeapYear(r.year))
  {
    var y := d.year - n;
    if d.month == 2 && d.day == 29 && !IsLeapYear(y) then Date(y, 2, 28) else Date(y, d.month, d.day)
  }

  /** Whole years elapsed from dob to now: the difference of the years, less
      one if this year's anniversary of dob has not been reached yet. */
  function AgeInYears(dob: Date, now: Date): int {
    var anniversaryPending := now.month < dob.month || (now.month == dob.month && now.day < dob.day);
    now.year - dob.year - (if anniversaryPending then 1 else 0)
  }

  /** Being born on or before the day n years before now is exactly being at
      least n whole years old, for real calendar days (29 February included). */
  lemma OnOrBeforeYearsBeforeIffAge(dob: Date, now: Date, n: nat)
    requires IsValid(dob) && IsValid(now)
    ensures OnOrBefore(dob, YearsBefore(now, n)) <==> AgeInYears(dob, now) >= n
  {
  }

  // ---------------------------------------------------------------------------
  // Canonical text form yyyy-MM-dd

  predicate IsDigit(c: char) {
    '0' <= c <= '9'
  }

  predicate AllDigits(s: string) {
    forall i :: 0 <= i < |s| ==> IsDigit(s[i])
  }

  function DigitValue(c: char): (v: nat)
    requires IsDigit(c)
    ensures v < 10
  {
    c as int - '0' as int
  }

  function DigitChar(v: nat): (c: char)
    requires v < 10
    ensures IsDigit(c) && DigitValue(c) == v
  {
    (v + '0' as int) as char
  }

  function Pow10(k: nat): (p: nat)
    ensures p >= 1
  {
    if k == 0 then 1 else 10 * Pow10(k - 1)
  }

  /** The decimal value of a string of digits, most significant first. */
  function DecimalValue(s: string): (n: nat)
    requires AllDigits(s)
    ensures n < Pow10(|s|)
  {
    if s == [] then 0
    else
      var init := s[..|s| - 1];
      assert AllDigits(init);
      var m := DecimalValue(init);
      assert m * 10 + 10 <= Pow10(|init|) * 10 by {
        assert m + 1 <= Pow10(|init|);
      }
      m * 10 + DigitValue(s[|s| - 1])
  }

  /** n written with exactly width digits, zero-padded on the left. */
  function ZeroPadded(n: nat, width: nat): (s: string)
    ensures |s| == width && AllDigits(s)
  {
    if width == 0 then []
    else ZeroPadded(n / 10, width - 1) + [DigitChar(n % 10)]
  }

  lemma {:induction false} DecimalValueOfZeroPadded(n: nat, width: nat)
    requires n < Pow10(width)
    ensures DecimalValue(ZeroPadded(n, width)) == n
  {
    if width > 0 {
      var s := ZeroPadded(n, width);
      assert n / 10 < Pow10(width - 1);
      DecimalValueOfZeroPadded(n / 10, width - 1);
      assert s[..|s| - 1] == ZeroPadded(n / 10, width - 1);
    }
  }

  lemma {:induction false} ZeroPaddedOfDecimalValue(s: string)
    requires AllDigits(s)
    ensures ZeroPadded(DecimalValue(s), |s|) == s
  {
    if s != [] {
      var init := s[..|s| - 1];
      var v := DigitValue(s[|s| - 1]);
      var n := DecimalValue(s);
      assert n == DecimalValue(init) * 10 + v;
      assert n / 10 == DecimalValue(init) && n % 10 == v;
      ZeroPaddedOfDecimalValue(init);
      assert DigitChar(v) == s[|s| - 1];
      assert s == init + [s[|s| - 1]];
    }
  }

  /** Dates that have a four-digit canonical text form. */
  predicate IsFormattable(d: Date) {
    0 <= d.year <= 9999 && 0 <= d.month <= 99 && 0 <= d.day <= 99
  }

  function Format(d: Date): (s: string)
    requires IsFormattable(d)
    ensures |s| == 10 && s[4] == '-' && s[7] == '-'
  {
    ZeroPadded(d.year, 4) + "-" + ZeroPadded(d.month, 2) + "-" + ZeroPadded(d.day, 2)
  }

  /** Strict yyyy-MM-dd parsing: exactly four, two and two digits separated
      by '-', a year from 1, and a real calendar day (no rollover of an
      out-of-range month or day into the next one). */
  function Parse(s: string): (r: Option<Date>)
    ensures r.Some? ==> IsValid(r.value) && 1 <= r.value.year <= 9999
  {
    if |s| == 10 && s[4] == '-' && s[7] == '-'
       && AllDigits(s[..4]) && AllDigits(s[5..7]) && AllDigits(s[8..])
    then
      var d := Date(DecimalValue(s[..4]), DecimalValue(s[5..7]), DecimalValue(s[8..]));
      assert Pow10(4) == 10000;
      if 1 <= d.year && IsValid(d) then Some(d) else None
    else None
  }

  /** Parse accepts a date only in its canonical text. */
  lemma ParseIsSound(s: string)
    requires Parse(s).Some?
    ensures IsFormattable(Parse(s).value) && Format(Parse(s).value) == s
  {
    ZeroPaddedOfDecimalValue(s[..4]);
    ZeroPaddedOfDecimalValue(s[5..7]);
    ZeroPaddedOfDecimalValue(s[8..]);
    assert s == s[..4] + "-" + s[5..7] + "-" + s[8..];
  }

  /** Every valid date with a four-digit year from 1 reads back from its text. */
  lemma ParseFormatRoundTrip(d: Date)
    requires IsValid(d) && 1 <= d.year <= 9999
    ensures Parse(Format(d)) == Some(d)
  {
    var s := Format(d);
    assert s[..4] == ZeroPadded(d.year, 4);
    assert s[5..7] == ZeroPadded(d.month, 2);
    assert s[8..] == ZeroPadded(d.day, 2);
    DecimalValueOfZeroPadded(d.year, 4);
    DecimalValueOfZeroPadded(d.month, 2);
    DecimalValueOfZeroPadded(d.day, 2);
  }

  /** The two directions together: Parse(s) yields d exactly when d is a valid
      date in range and s is its canonical text. */
  lemma ParseCharacterization(s: string, d: Date)
    ensures Parse(s) == Some(d) <==> IsValid(d) && 1 <= d.year <= 9999 && Format(d) == s
  {
    if Parse(s) == Some(d) {
      ParseIsSound(s);
    }
    if IsValid(d) && 1 <= d.year <= 9999 && Format(d) == s {
      ParseFormatRoundTrip(d);
    }
  }

  /** Reading a yyyy-MM-dd text digit by digit. */
  lemma ParsesAsWritten(s: string)
    requires |s| == 10 && s[4] == '-' && s[7] == '-'
    requires AllDigits(s[..4]) && AllDigits(s[5..7]) && AllDigits(s[8..])
    ensures var d := Date(
        1000 * DigitValue(s[0]) + 100 * DigitValue(s[1]) + 10 * DigitValue(s[2]) + DigitValue(s[3]),
        10 * DigitValue(s[5]) + DigitValue(s[6]),
        10 * DigitValue(s[8]) + DigitValue(s[9]));
      Parse(s) == if 1 <= d.year && IsValid(d) then Some(d) else None
  {
    TwoDigits(s[5..7]);
    TwoDigits(s[8..]);
    var y := s[..4];
    TwoDigits(y[..2]);
    assert DecimalValue(y[..3]) == DecimalValue(y[..2]) * 10 + DigitValue(y[2]) by {
      assert y[..3][..2] == y[..2];
    }
    assert DecimalValue(y) == DecimalValue(y[..3]) * 10 + DigitValue(y[3]);
  }

  lemma TwoDigits(s: string)
    requires |s| == 2 && AllDigits(s)
    ensures DecimalValue(s) == 10 * DigitValue(s[0]) + DigitValue(s[1])
  {
  }

  // ---------------------------------------------------------------------------
  // The default text of a java.util.Date

  /** Day of the week, 0 for Sunday, in the proleptic Gregorian calendar. */
  function Weekday(d: Date): (w: nat)
    requires IsValid(d)
    ensures w < 7
  {
    var offsets := [0, 3, 2, 5, 0, 3, 5, 1, 4, 6, 2, 4];
    var y := if d.month < 3 then d.year - 1 else d.year;
    (y + y / 4 - y / 100 + y / 400 + offsets[d.month - 1] + d.day) % 7
  }

  /** n in decimal without leading zeros. */
  function DecimalText(n: nat): (s: string)
    ensures 0 < |s| && AllDigits(s)
  {
    if n < 10 then [DigitChar(n)] else DecimalText(n / 10) + [DigitChar(n % 10)]
  }

  /** The text a java.util.Date gives by default, "EEE MMM dd HH:mm:ss zzz
      yyyy", for instance "Mon Jan 01 00:00:00 UTC 1990". The time of day and
      the zone name depend on the instant and the default time zone, so they
      are parameters. */
  function LegacyText(d: Date, time: string, zone: string): (s: string)
    requires IsValid(d) && 1 <= d.year
    ensures 0 < |s| && !IsDigit(s[0])
  {
    var days := ["Sun", "Mon", "Tue", "Wed", "Thu", "Fri", "Sat"];
    var months := ["Jan", "Feb", "Mar", "Apr", "May", "Jun", "Jul", "Aug", "Sep", "Oct", "Nov", "Dec"];
    days[Weekday(d)] + " " + months[d.month - 1] + " " + ZeroPadded(d.day, 2)
      + " " + time + " " + zone + " " + DecimalText(d.year)
  }

  /** No default text of a date is a yyyy-MM-dd text: it opens with the name
      of a weekday, not a digit. */
  lemma LegacyTextNeverParses(d: Date, time: string, zone: string)
    requires IsValid(d) && 1 <= d.year
    ensures Parse(LegacyText(d, time, zone)).None?
  {
    var s := LegacyText(d, time, zone);
    if |s| == 10 {
      assert s[..4][0] == s[0];
    }
  }
}
