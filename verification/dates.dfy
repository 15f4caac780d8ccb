/**
 * Calendar dates and their display form. The blog query asks the data layer to render each
 * front-matter date with the format string "MMMM D, YYYY": the full English month name, a space,
 * the day of the month without a leading zero, a comma and a space, then the year zero-filled to
 * at least four digits (with a minus sign for years before year 0).
 */
module Dates {
  import opened Wrappers
  import opened Decimal

  /** A proleptic Gregorian date; `month` counts from 1 (January). */
  datatype Date = Date(year: int, month: int, day: int)

  predicate IsLeapYear(y: int) {
    y % 4 == 0 && (y % 100 != 0 || y % 400 == 0)
  }

  function DaysInMonth(y: int, m: int): (n: int)
    requires 1 <= m <= 12
    ensures 28 <= n <= 31
  {
    if m == 2 then (if IsLeapYear(y) then 29 else 28)
    else if m == 4 || m == 6 || m == 9 || m == 11 then 30
    else 31
  }

  predicate Valid(d: Date) {
    1 <= d.month <= 12 && 1 <= d.day <= DaysInMonth(d.year, d.month)
  }

  /** The date values the data layer hands over: front-matter dates it has already parsed. */
  type CalendarDate = d: Date | Valid(d) witness Date(1970, 1, 1)

  const MonthNames: seq<string> := [
    "January", "February", "March", "April", "May", "June",
    "July", "August", "September", "October", "November", "December"
  ]

  /** The `MMMM` token. */
  function MonthName(m: int): (name: string)
    requires 1 <= m <= 12
    ensures |name| >= 3 && ' ' !in name && ',' !in name
  {
    MonthNames[m - 1]
  }

  /** The month a full English month name stands for, if it is one. */
  function MonthNumber(name: string): (r: Option<int>)
    ensures r.Some? ==> 1 <= r.value <= 12 && MonthName(r.value) == name
    ensures r.None? ==> forall m :: 1 <= m <= 12 ==> MonthName(m) != name
  {
    MonthNumberFrom(name, 1)
  }

  function MonthNumberFrom(name: string, m: int): (r: Option<int>)
    requires 1 <= m <= 13
    ensures r.Some? ==> m <= r.value <= 12 && MonthName(r.value) == name
    ensures r.None? ==> forall k :: m <= k <= 12 ==> MonthName(k) != name
    decreases 13 - m
  {
    if m == 13 then None
    else if MonthName(m) == name then Some(m)
    else MonthNumberFrom(name, m + 1)
  }

  /**
   * The `YYYY` token: the absolute value zero-filled to at least four digits, with no leading
   * zero beyond the fill, and a minus sign in front when the year is negative.
   */
  function YearText(y: int): (t: string)
    ensures y >= 0 ==> PaddedDigits(t, 4) && Value(t) == y
    ensures y < 0 ==> |t| > 4 && t[0] == '-' && PaddedDigits(t[1..], 4) && Value(t[1..]) == -y
  {
    var n: nat := if y < 0 then -y else y;
    var s := NatToString(n);
    var digits := ZeroPad(s, 4);
    PaddedValue(n, 4);
    assert |digits| > 4 ==> digits == digits[|digits| - |s|..] == s;
    if y < 0 then
      assert ("-" + digits)[1..] == digits;
      "-" + digits
    else digits
  }

  /** The `D` token: the day of the month as a numeral with no leading zero. */
  function DayText(day: nat): (t: string)
    ensures PaddedDigits(t, 1) && Value(t) == day
  {
    NatToString(day)
  }

  /** Renders `d` with the format string "MMMM D, YYYY". */
  function Format(d: CalendarDate): (s: string)
    ensures |s| >= |MonthName(d.month)| + 7
    ensures s[..|MonthName(d.month)|] == MonthName(d.month)
  {
    MonthName(d.month) + " " + DayText(d.day) + ", " + YearText(d.year)
  }

  /** Position of the first occurrence of `c` in `s`, if any. */
  function IndexOf(s: string, c: char): (r: Option<nat>)
    ensures r.Some? ==> r.value < |s| && s[r.value] == c && c !in s[..r.value]
    ensures r.None? ==> c !in s
  {
    if s == [] then None
    else if s[0] == c then Some(0)
    else match IndexOf(s[1..], c)
      case None => None
      case Some(k) => assert s[..k + 1] == [s[0]] + s[1..][..k]; Some(k + 1)
  }

  /**
   * Reads a `YYYY` token back: an optional minus sign, then a numeral zero-filled to four digits.
   * "-0000" is refused, since the year 0 is written "0000".
   */
  function ParseYear(t: string): Option<int> {
    if |t| > 0 && t[0] == '-' then
      (if PaddedDigits(t[1..], 4) && Value(t[1..]) > 0 then Some(0 - Value(t[1..])) else None)
    else if PaddedDigits(t, 4) then Some(Value(t))
    else None
  }

  /** Reads a display date back: the partner of `Format`. */
  function Parse(s: string): Option<CalendarDate> {
    match IndexOf(s, ' ')
    case None => None
    case Some(k) =>
      match MonthNumber(s[..k])
      case None => None
      case Some(m) => ParseDayAndYear(m, s[k + 1..])
  }

  /** Reads the "D, YYYY" part of a display date whose month is `m`. */
  function ParseDayAndYear(m: int, rest: string): Option<CalendarDate> {
    match IndexOf(rest, ',')
    case None => None
    case Some(j) =>
      var dayText := rest[..j];
      var tail := rest[j + 1..];
      if !PaddedDigits(dayText, 1) || |tail| == 0 || tail[0] != ' ' then None
      else match ParseYear(tail[1..])
        case None => None
        case Some(y) =>
          var d := Date(y, m, Value(dayText));
          if Valid(d) then Some(d) else None
  }

  /** No two months share a name. */
  lemma MonthNameInjective(m1: int, m2: int)
    requires 1 <= m1 <= 12 && 1 <= m2 <= 12
    ensures MonthName(m1) == MonthName(m2) <==> m1 == m2
  {
  }

  lemma IndexOfSplit(a: string, c: char, b: string)
    requires c !in a
    ensures IndexOf(a + [c] + b, c) == Some(|a|)
  {
    var s := a + [c] + b;
    assert s[|a|] == c;
    var k := IndexOf(s, c).value;
    assert forall i :: 0 <= i < |a| ==> s[i] == a[i];
    assert forall i :: 0 <= i < k ==> s[..k][i] == s[i];
  }

  lemma ParseYearText(y: int)
    ensures ParseYear(YearText(y)) == Some(y)
  {
    var t := YearText(y);
    if y < 0 {
      assert t[0] == '-';
    } else {
      assert t[0] != '-' by {
        assert IsDigit(t[0]);
      }
    }
  }

  /** A year token that reads back is exactly the rendering of the year it reads as. */
  lemma YearTextOfParse(t: string, y: int)
    requires ParseYear(t) == Some(y)
    ensures YearText(y) == t
  {
    if |t| > 0 && t[0] == '-' {
      var digits := t[1..];
      PaddedRoundTrip(digits, 4);
      assert t == "-" + digits;
    } else {
      PaddedRoundTrip(t, 4);
    }
  }

  lemma FormatShape(name: string, dayText: string, yearText: string)
    ensures name + " " + dayText + ", " + yearText == name + [' '] + (dayText + [','] + (" " + yearText))
  {
  }

  /** Every display date reads back as the date it displays. */
  lemma ParseFormat(d: CalendarDate)
    ensures Parse(Format(d)) == Some(d)
  {
    var name := MonthName(d.month);
    var dayText := DayText(d.day);
    var yearText := YearText(d.year);
    var s := Format(d);
    var rest := dayText + [','] + (" " + yearText);
    FormatShape(name, dayText, yearText);
    IndexOfSplit(name, ' ', rest);
    assert s[..|name|] == name;
    assert s[|name| + 1..] == rest;
    MonthNameInjective(d.month, MonthNumber(name).value);
    assert Parse(s) == ParseDayAndYear(d.month, rest);
    DayAndYearRoundTrip(d);
  }

  lemma DayAndYearRoundTrip(d: CalendarDate)
    ensures ParseDayAndYear(d.month, DayText(d.day) + [','] + (" " + YearText(d.year))) == Some(d)
  {
    var dayText := DayText(d.day);
    var yearText := YearText(d.year);
    var rest := dayText + [','] + (" " + yearText);
    assert ',' !in dayText by {
      assert forall i :: 0 <= i < |dayText| ==> IsDigit(dayText[i]);
    }
    IndexOfSplit(dayText, ',', " " + yearText);
    assert rest[..|dayText|] == dayText;
    var tail := rest[|dayText| + 1..];
    assert tail == " " + yearText;
    assert tail[1..] == yearText;
    ParseYearText(d.year);
  }

  /** The "D, YYYY" part that reads back as a date is exactly that date's rendering. */
  lemma DayAndYearOfParse(m: int, rest: string, d: CalendarDate)
    requires ParseDayAndYear(m, rest) == Some(d)
    ensures d.month == m
    ensures rest == DayText(d.day) + [','] + (" " + YearText(d.year))
  {
    var comma := IndexOf(rest, ',');
    assert comma.Some?;
    var j := comma.value;
    var dayText, tail := rest[..j], rest[j + 1..];
    assert PaddedDigits(dayText, 1) && |tail| > 0 && tail[0] == ' ';
    var y := ParseYear(tail[1..]);
    assert y.Some? && d == Date(y.value, m, Value(dayText));
    NumeralRoundTrip(dayText);
    YearTextOfParse(tail[1..], y.value);
    SplitAt(rest, j, tail);
  }

  /** A string is the text before position `j`, the character at `j`, and the text after it. */
  lemma SplitAt(s: string, j: nat, tail: string)
    requires j < |s| && tail == s[j + 1..] && |tail| > 0
    ensures s == s[..j] + [s[j]] + (" " + tail[1..]) || tail[0] != ' '
  {
    if tail[0] == ' ' {
      assert tail == " " + tail[1..];
      assert s == s[..j] + [s[j]] + tail;
    }
  }

  /** Where `Parse` splits a string it accepts: the month name ends at the first space. */
  lemma ParseSteps(s: string, d: CalendarDate) returns (k: nat, m: int)
    requires Parse(s) == Some(d)
    ensures k < |s| && s[k] == ' '
    ensures MonthNumber(s[..k]) == Some(m)
    ensures ParseDayAndYear(m, s[k + 1..]) == Some(d)
  {
    k := IndexOf(s, ' ').value;
    m := MonthNumber(s[..k]).value;
  }

  /** A string that reads back as a date is exactly that date's rendering. */
  lemma FormatOfParse(s: string, d: CalendarDate)
    requires Parse(s) == Some(d)
    ensures Format(d) == s
  {
    var k, m := ParseSteps(s, d);
    DayAndYearOfParse(m, s[k + 1..], d);
    Rejoin(s, k, MonthName(d.month), DayText(d.day), YearText(d.year));
  }

  /** A string split at a space into a name and "D, YYYY" is the name, a space, and that text. */
  lemma Rejoin(s: string, k: nat, name: string, dayText: string, yearText: string)
    requires k < |s| && s[k] == ' ' && s[..k] == name
    requires s[k + 1..] == dayText + [','] + (" " + yearText)
    ensures s == name + " " + dayText + ", " + yearText
  {
    assert s == s[..k] + [' '] + s[k + 1..];
    FormatShape(name, dayText, yearText);
  }

  /**
   * `Parse` reads exactly the strings `Format` writes: every display date reads back as its
   * date, and nothing else reads as a date, so "March 03, 2021" and "March 3, 21" are refused.
   */
  lemma ParseInvertsFormat(s: string, d: CalendarDate)
    ensures Parse(s) == Some(d) <==> s == Format(d)
  {
    if Parse(s) == Some(d) {
      FormatOfParse(s, d);
    }
    if s == Format(d) {
      ParseFormat(d);
    }
  }

  /** `a` is the same day as `b` or earlier: the order the blog query sorts on. */
  predicate OnOrBefore(a: Date, b: Date) {
    a.year < b.year
    || (a.year == b.year && (a.month < b.month || (a.month == b.month && a.day <= b.day)))
  }

  /** `OnOrBefore` is a total order on dates, so a list of dates can be sorted by it. */
  lemma OnOrBeforeTotalOrder(a: Date, b: Date, c: Date)
    ensures OnOrBefore(a, a)
    ensures OnOrBefore(a, b) || OnOrBefore(b, a)
    ensures OnOrBefore(a, b) && OnOrBefore(b, a) ==> a == b
    ensures OnOrBefore(a, b) && OnOrBefore(b, c) ==> OnOrBefore(a, c)
  {
  }

  /** Display dates are distinct exactly when the dates are, so the display format loses nothing. */
  lemma FormatInjective(a: CalendarDate, b: CalendarDate)
    ensures Format(a) == Format(b) <==> a == b
  {
    if Format(a) == Format(b) {
      ParseFormat(a);
      ParseFormat(b);
    }
  }
}
