/**
 * format_date (api/check.py:26-36): "Not available" for an empty value;
 * otherwise strip it, read every Z as +00:00, and if the result is an ISO
 * timestamp print its date as YYYY-MM-DD, else give back the stripped text.
 *
 * datetime.fromisoformat is modelled by a recogniser for the shapes
 * YYYY-MM-DD[('T'|' ')HH[:MM[:SS[.fff|.ffffff]]][(+|-)HH:MM[:SS]]]
 * with a real calendar date, a year of four significant digits and
 * in-range clock fields; every string it accepts, fromisoformat accepts.
 */
module Dates {
  import opened Wrappers
  import opened Text

  const NotAvailable := "Not available"

  function DigitValue(c: char): nat
    requires IsDigit(c)
  {
    c as int - '0' as int
  }

  function DigitChar(n: nat): char
    requires n < 10
  {
    ('0' as int + n) as char
  }

  predicate AllDigits(s: string) {
    forall i :: 0 <= i < |s| ==> IsDigit(s[i])
  }

  /** int(s) for a string of ASCII digits. */
  function DigitsValue(s: string): nat
    requires AllDigits(s)
    decreases |s|
  {
    if s == [] then 0 else 10 * DigitsValue(s[..|s| - 1]) + DigitValue(s[|s| - 1])
  }

  /** The value of two and of four digits, spelled out. */
  lemma DigitsValueSmall(s: string)
    requires AllDigits(s) && (|s| == 2 || |s| == 4)
    ensures |s| == 2 ==> DigitsValue(s) == 10 * DigitValue(s[0]) + DigitValue(s[1])
    ensures |s| == 4 ==>
      DigitsValue(s) == 1000 * DigitValue(s[0]) + 100 * DigitValue(s[1]) + 10 * DigitValue(s[2]) + DigitValue(s[3])
  {
    assert s[..|s| - 1][..|s| - 2] == s[..|s| - 2];
    if |s| == 4 {
      assert s[..2][..1] == s[..1];
      assert s[..3][..2] == s[..2];
    }
  }

  function Pow10(n: nat): nat {
    if n == 0 then 1 else 10 * Pow10(n - 1)
  }

  /** A number written with exactly width digits, zero-padded on the left (strftime's %m, %d). */
  function Pad(n: nat, width: nat): (r: string)
    ensures |r| == width && AllDigits(r)
  {
    if width == 0 then [] else Pad(n / 10, width - 1) + [DigitChar(n % 10)]
  }

  /** Printing the value of a digit string with its own width gives the string back. */
  lemma {:induction false} PadDigitsValue(s: string)
    requires AllDigits(s)
    ensures Pad(DigitsValue(s), |s|) == s
    decreases |s|
  {
    if s != [] {
      var init, last := s[..|s| - 1], s[|s| - 1];
      PadDigitsValue(init);
      var n := DigitsValue(s);
      assert n == 10 * DigitsValue(init) + DigitValue(last);
      assert n / 10 == DigitsValue(init) && n % 10 == DigitValue(last);
      assert s == init + [last];
    }
  }

  /** Reading back a padded number gives the number. */
  lemma {:induction false} DigitsValuePad(n: nat, width: nat)
    requires n < Pow10(width)
    ensures DigitsValue(Pad(n, width)) == n
    decreases width
  {
    if width > 0 {
      DigitsValuePad(n / 10, width - 1);
      var p := Pad(n, width);
      assert p[..|p| - 1] == Pad(n / 10, width - 1);
    }
  }

  datatype Date = Date(year: int, month: int, day: int)

  /** The proleptic Gregorian leap-year rule that datetime uses. */
  predicate IsLeapYear(year: int) {
    year % 4 == 0 && (year % 100 != 0 || year % 400 == 0)
  }

  function DaysInMonth(year: int, month: int): int
    requires 1 <= month <= 12
  {
    if month == 2 then (if IsLeapYear(year) then 29 else 28)
    else if month == 4 || month == 6 || month == 9 || month == 11 then 30
    else 31
  }

  /** What datetime's constructor accepts: MINYEAR..MAXYEAR, a month, a day of that month. */
  predicate ValidDate(d: Date) {
    1 <= d.year <= 9999 && 1 <= d.month <= 12 && 1 <= d.day <= DaysInMonth(d.year, d.month)
  }

  /** YYYY-MM-DD: four, two and two ASCII digits separated by hyphens. */
  predicate DateShaped(s: string) {
    && |s| == 10
    && AllDigits(s[..4]) && s[4] == '-'
    && AllDigits(s[5..7]) && s[7] == '-'
    && AllDigits(s[8..])
  }

  /** Every character of a date string is a digit or a hyphen. */
  lemma DateShapedChars(s: string)
    requires DateShaped(s)
    ensures forall i :: 0 <= i < 10 ==> IsDigit(s[i]) || s[i] == '-'
  {
    forall i | 0 <= i < 10 ensures IsDigit(s[i]) || s[i] == '-' {
      if i < 4 { assert s[..4][i] == s[i]; }
      else if 5 <= i < 7 { assert s[5..7][i - 5] == s[i]; }
      else if 8 <= i { assert s[8..][i - 8] == s[i]; }
    }
  }

  /** The date part of fromisoformat: a YYYY-MM-DD string naming a real calendar date. */
  function ParseDate(s: string): (r: Option<Date>)
    ensures r.Some? ==> ValidDate(r.value) && DateShaped(s)
  {
    if DateShaped(s) then
      var d := Date(DigitsValue(s[..4]), DigitsValue(s[5..7]), DigitsValue(s[8..]));
      if ValidDate(d) then Some(d) else None
    else None
  }

  /** strftime("%Y-%m-%d") for a year of four digits. */
  function StrftimeYmd(d: Date): (r: string)
    requires ValidDate(d) && d.year >= 1000
    ensures DateShaped(r)
  {
    var r := Pad(d.year, 4) + "-" + Pad(d.month, 2) + "-" + Pad(d.day, 2);
    assert r[..4] == Pad(d.year, 4) && r[5..7] == Pad(d.month, 2) && r[8..] == Pad(d.day, 2);
    r
  }

  /** Printing a date and parsing it back gives the date. */
  lemma ParseStrftime(d: Date)
    requires ValidDate(d) && d.year >= 1000
    ensures ParseDate(StrftimeYmd(d)) == Some(d)
  {
    var r := StrftimeYmd(d);
    assert r[..4] == Pad(d.year, 4) && r[5..7] == Pad(d.month, 2) && r[8..] == Pad(d.day, 2);
    DigitsValuePad(d.year, 4);
    DigitsValuePad(d.month, 2);
    DigitsValuePad(d.day, 2);
  }

  /** A date-shaped string is its three digit groups joined by hyphens. */
  lemma DateShapedSplit(s: string)
    requires DateShaped(s)
    ensures s == s[..4] + "-" + s[5..7] + "-" + s[8..]
  {
  }

  /** Parsing a date string and printing the date gives the string. */
  lemma StrftimeParse(s: string)
    requires ParseDate(s).Some? && ParseDate(s).value.year >= 1000
    ensures StrftimeYmd(ParseDate(s).value) == s
  {
    var y, m, dd := s[..4], s[5..7], s[8..];
    var d := ParseDate(s).value;
    assert d == Date(DigitsValue(y), DigitsValue(m), DigitsValue(dd));
    PadDigitsValue(y);
    PadDigitsValue(m);
    PadDigitsValue(dd);
    DateShapedSplit(s);
  }

  /** Two ASCII digits at t[i..i+2] whose value is at most max. */
  predicate TwoDigitField(t: string, i: nat, max: nat) {
    && i + 2 <= |t|
    && IsDigit(t[i]) && IsDigit(t[i + 1])
    && 10 * DigitValue(t[i]) + DigitValue(t[i + 1]) <= max
  }

  /** HH[:MM[:SS[.fff|.ffffff]]] with an hour, minute and second in range. */
  predicate IsTimeOfDay(t: string) {
    && (|t| == 2 || |t| == 5 || |t| == 8 || |t| == 12 || |t| == 15)
    && TwoDigitField(t, 0, 23)
    && (|t| >= 5 ==> t[2] == ':' && TwoDigitField(t, 3, 59))
    && (|t| >= 8 ==> t[5] == ':' && TwoDigitField(t, 6, 59))
    && (|t| >= 12 ==> t[8] == '.' && AllDigits(t[9..]))
  }

  /** (+|-)HH:MM[:SS], an offset strictly inside one day. */
  predicate IsUtcOffset(z: string) {
    && (|z| == 6 || |z| == 9)
    && (z[0] == '+' || z[0] == '-')
    && TwoDigitField(z, 1, 23) && z[3] == ':' && TwoDigitField(z, 4, 59)
    && (|z| == 9 ==> z[6] == ':' && TwoDigitField(z, 7, 59))
  }

  /** u is a time of day of length k, followed by nothing or by an offset. */
  predicate TimeThenOffset(u: string, k: nat) {
    k <= |u| && IsTimeOfDay(u[..k]) && (k == |u| || IsUtcOffset(u[k..]))
  }

  predicate IsTimePart(u: string) {
    TimeThenOffset(u, 2) || TimeThenOffset(u, 5) || TimeThenOffset(u, 8)
    || TimeThenOffset(u, 12) || TimeThenOffset(u, 15)
  }

  /** The recogniser standing for datetime.fromisoformat; on success, the date it denotes. */
  function ParseIsoDateTime(s: string): (r: Option<Date>)
    ensures r.Some? ==> |s| >= 10 && ParseDate(s[..10]) == r && r.value.year >= 1000
  {
    if |s| < 10 then None
    else
      match ParseDate(s[..10])
      case None => None
      case Some(d) =>
        if d.year >= 1000 && (|s| == 10 || ((s[10] == 'T' || s[10] == ' ') && IsTimePart(s[11..])))
        then Some(d) else None
  }

  /** s.replace("Z", "+00:00"): no Z is left, and text without a Z is unchanged. */
  function ZuluToOffset(s: string): (r: string)
    ensures 'Z' !in r
    ensures 'Z' !in s ==> r == s
  {
    ReplaceChar(s, 'Z', "+00:00")
  }

  /**
   * What format_date accepts as a timestamp: its text parses once every Z is
   * read as +00:00. The text itself then starts with a valid date.
   */
  predicate IsIsoTimestamp(t: string)
    ensures IsIsoTimestamp(t) ==> |t| >= 10 && ParseDate(t[..10]).Some?
  {
    if ParseIsoDateTime(ZuluToOffset(t)).Some? then
      ZuluKeepsDatePrefix(t);
      true
    else
      false
  }

  /**
   * When the rewritten text starts with a date, the rewrite did not touch
   * those ten characters: a Z among them would have become a '+'.
   */
  lemma ZuluKeepsDatePrefix(t: string)
    requires |ZuluToOffset(t)| >= 10 && DateShaped(ZuluToOffset(t)[..10])
    ensures |t| >= 10 && t[..10] == ZuluToOffset(t)[..10]
  {
    var u := ZuluToOffset(t);
    var k := IndexOf(t, 'Z');
    if k == |t| {
      assert 'Z' !in t;
    } else {
      ReplaceCharPrefix(t, 'Z', "+00:00", k);
      if k < 10 {
        DateShapedChars(u[..10]);
        assert false;
      }
      ReplaceCharPrefix(t, 'Z', "+00:00", 10);
    }
  }

  /** format_date */
  function FormatDate(s: string): (r: string)
    ensures s == [] ==> r == NotAvailable
    ensures s != [] && IsIsoTimestamp(Strip(s)) ==>
      |Strip(s)| >= 10 && r == Strip(s)[..10] && ParseDate(r).Some? && ParseDate(r).value.year >= 1000
    ensures s != [] && !IsIsoTimestamp(Strip(s)) ==> r == Strip(s)
  {
    if s == [] then NotAvailable
    else
      var t := Strip(s);
      var u := ZuluToOffset(t);
      match ParseIsoDateTime(u)
      case Some(d) =>
        ZuluKeepsDatePrefix(t);
        StrftimeParse(u[..10]);
        StrftimeYmd(d)
      case None => t
  }

  /** Formatting a formatted date changes nothing, unless the input was only whitespace. */
  lemma FormatDateIdempotent(s: string)
    requires s == [] || Strip(s) != []
    ensures FormatDate(FormatDate(s)) == FormatDate(s)
  {
    if s == [] {
      NotAvailableIsKept();
    } else {
      var r := FormatDate(s);
      if IsIsoTimestamp(Strip(s)) {
        assert ParseDate(r).Some?;
        DateIsKept(r);
      } else {
        StripIdempotent(s);
      }
    }
  }

  lemma NotAvailableIsKept()
    ensures FormatDate(NotAvailable) == NotAvailable
  {
    LetterStartIsKept(NotAvailable);
  }

  /**
   * Text that starts with a letter and has no surrounding whitespace formats
   * to itself: after the rewrite it starts with that letter or, for a Z, with '+'.
   */
  lemma LetterStartIsKept(t: string)
    requires t != [] && IsAlnumAscii(t[0]) && !IsDigit(t[0]) && !IsSpace(t[|t| - 1])
    ensures FormatDate(t) == t
  {
    StripFixed(t);
    ReplaceCharPrefix(t, 'Z', "+00:00", 0);
    var u := ZuluToOffset(t);
    if |u| >= 10 {
      assert !IsDigit(u[0]);
      assert !DateShaped(u[..10]) by { assert u[..10][..4][0] == u[0]; }
    }
  }

  /** A printed date formats to itself. */
  lemma DateIsKept(r: string)
    requires ParseDate(r).Some? && ParseDate(r).value.year >= 1000
    ensures FormatDate(r) == r
  {
    DateShapedChars(r);
    StripFixed(r);
    assert 'Z' !in r;
    assert r[..10] == r;
  }

  /**
   * Text without surrounding whitespace and without a Z that does not begin
   * with YYYY-MM-DD formats to itself.
   */
  lemma NonDateIsKept(t: string, i: nat)
    requires t != [] && !IsSpace(t[0]) && !IsSpace(t[|t| - 1]) && 'Z' !in t
    requires i < 10 && i < |t| && !IsDigit(t[i]) && t[i] != '-'
    ensures FormatDate(t) == t
  {
    StripFixed(t);
    if |t| >= 10 && DateShaped(t[..10]) {
      DateShapedChars(t[..10]);
    }
  }

  /** A UTC timestamp date + "T" + time + "Z" formats to its date. */
  lemma ZuluTimestampFormats(date: string, time: string)
    requires ParseDate(date).Some? && ParseDate(date).value.year >= 1000
    requires |time| == 8 && IsTimeOfDay(time) && 'Z' !in time
    ensures FormatDate(date + "T" + time + "Z") == date
  {
    var t := date + "T" + time + "Z";
    ZuluRewrite(date, time);
    OffsetTimestampParses(date, time);
    StripFixed(t);
    assert t[..10] == date;
  }

  /** The trailing Z becomes +00:00 and nothing else changes. */
  lemma ZuluRewrite(date: string, time: string)
    requires DateShaped(date) && 'Z' !in time
    ensures ZuluToOffset(date + "T" + time + "Z") == date + "T" + time + "+00:00"
  {
    DateShapedChars(date);
    assert 'Z' !in date + "T" + time;
    ReplaceCharAppend(date + "T" + time, "Z", 'Z', "+00:00");
  }

  /** date + "T" + HH:MM:SS + "+00:00" is read as that date. */
  lemma OffsetTimestampParses(date: string, time: string)
    requires ParseDate(date).Some? && ParseDate(date).value.year >= 1000
    requires |time| == 8 && IsTimeOfDay(time)
    ensures ParseIsoDateTime(date + "T" + time + "+00:00") == ParseDate(date)
  {
    var offset := "+00:00";
    var u := date + "T" + time + offset;
    assert u[..10] == date;
    assert u[10] == 'T';
    assert u[11..] == time + offset;
    assert (time + offset)[..8] == time && (time + offset)[8..] == offset;
    assert IsUtcOffset(offset);
    assert TimeThenOffset(u[11..], 8);
  }
}
