/** Calendar timestamps: the minute-resolution text form `%Y-%m-%d %H:%M` that
    event log entries carry, its strict parse, and the instant a date and time
    of day denote (so that "later than" is an integer comparison). */
module Timestamps {

  import opened Wrappers
  import opened Digits

  /** A proleptic-Gregorian date with an hour and a minute. */
  datatype Timestamp = Timestamp(year: nat, month: nat, day: nat, hour: nat, minute: nat)

  /** A full datetime: a timestamp plus seconds and microseconds. */
  datatype DateTime = DateTime(stamp: Timestamp, second: nat, micro: nat)

  predicate IsLeapYear(y: nat) {
    y % 4 == 0 && (y % 100 != 0 || y % 400 == 0)
  }

  function DaysInMonth(y: nat, m: nat): (n: nat)
    requires 1 <= m <= 12
    ensures 28 <= n <= 31
  {
    if m == 2 then (if IsLeapYear(y) then 29 else 28)
    else if m == 4 || m == 6 || m == 9 || m == 11 then 30
    else 31
  }

  function DaysInYear(y: nat): nat {
    if IsLeapYear(y) then 366 else 365
  }

  /** The ranges a Python datetime accepts for these fields. */
  predicate ValidStamp(t: Timestamp) {
    1 <= t.year <= 9999 && 1 <= t.month <= 12 && 1 <= t.day <= DaysInMonth(t.year, t.month) &&
    t.hour < 24 && t.minute < 60
  }

  predicate ValidDateTime(d: DateTime) {
    ValidStamp(d.stamp) && d.second < 60 && d.micro < 1_000_000
  }

  /** A datetime whose fields are all in range, as datetime.now() returns one. */
  type Moment = d: DateTime | ValidDateTime(d) witness DateTime(Timestamp(1970, 1, 1, 0, 0), 0, 0)

  // ---------------------------------------------------------------------------
  // strftime / strptime with '%Y-%m-%d %H:%M'

  /** The text of t: four-digit year, then two-digit month, day, hour and minute. */
  function Format(t: Timestamp): (s: string)
    requires ValidStamp(t)
    ensures |s| == 16
  {
    Layout(Pad(t.year, 4), Pad(t.month, 2), Pad(t.day, 2), Pad(t.hour, 2), Pad(t.minute, 2))
  }

  /** The five fields with their separators. */
  function Layout(y: string, mo: string, d: string, h: string, mi: string): string {
    y + "-" + mo + "-" + d + " " + h + ":" + mi
  }

  /** A laid-out text holds its fields and separators at fixed places ... */
  lemma LayoutFields(y: string, mo: string, d: string, h: string, mi: string)
    requires |y| == 4 && |mo| == 2 && |d| == 2 && |h| == 2 && |mi| == 2
    ensures var s := Layout(y, mo, d, h, mi);
            && |s| == 16 && s[4] == '-' && s[7] == '-' && s[10] == ' ' && s[13] == ':'
            && s[0..4] == y && s[5..7] == mo && s[8..10] == d && s[11..13] == h && s[14..16] == mi
  {
  }

  /** ... and a text of that shape is the layout of its fields. */
  lemma LayoutOfFields(s: string)
    requires |s| == 16 && s[4] == '-' && s[7] == '-' && s[10] == ' ' && s[13] == ':'
    ensures s == Layout(s[0..4], s[5..7], s[8..10], s[11..13], s[14..16])
  {
    var l := Layout(s[0..4], s[5..7], s[8..10], s[11..13], s[14..16]);
    LayoutFields(s[0..4], s[5..7], s[8..10], s[11..13], s[14..16]);
    forall i | 0 <= i < 16
      ensures s[i] == l[i]
    {
      if i < 4 {
        assert s[0..4][i] == l[0..4][i];
      } else if 4 < i < 7 {
        assert s[5..7][i - 5] == l[5..7][i - 5];
      } else if 7 < i < 10 {
        assert s[8..10][i - 8] == l[8..10][i - 8];
      } else if 10 < i < 13 {
        assert s[11..13][i - 11] == l[11..13][i - 11];
      } else if 13 < i {
        assert s[14..16][i - 14] == l[14..16][i - 14];
      }
    }
  }

  /** The fixed characters of the 16-character form sit at these places. */
  predicate Shaped(s: string) {
    |s| == 16 && s[4] == '-' && s[7] == '-' && s[10] == ' ' && s[13] == ':' &&
    AllDigits(s[0..4]) && AllDigits(s[5..7]) && AllDigits(s[8..10]) && AllDigits(s[11..13]) && AllDigits(s[14..16])
  }

  /** strptime(s, '%Y-%m-%d %H:%M') on canonical (zero-padded, single-space) text:
      None where Python raises ValueError, for text of another shape or a field
      out of range (month 13, 30 February, hour 24, ...). */
  function Parse(s: string): (r: Option<Timestamp>)
    ensures r.Some? ==> ValidStamp(r.value)
  {
    if Shaped(s) then
      var t := Timestamp(Number(s[0..4]), Number(s[5..7]), Number(s[8..10]), Number(s[11..13]), Number(s[14..16]));
      if ValidStamp(t) then Some(t) else None
    else None
  }

  /** Formatting a timestamp and parsing the text back gives the same timestamp. */
  lemma ParseFormat(t: Timestamp)
    requires ValidStamp(t)
    ensures Parse(Format(t)) == Some(t)
  {
    var y, mo, d, h, mi := Pad(t.year, 4), Pad(t.month, 2), Pad(t.day, 2), Pad(t.hour, 2), Pad(t.minute, 2);
    LayoutFields(y, mo, d, h, mi);
    assert Pow10(4) == 10000 && Pow10(2) == 100;
    NumberOfPad(t.year, 4);
    NumberOfPad(t.month, 2);
    NumberOfPad(t.day, 2);
    NumberOfPad(t.hour, 2);
    NumberOfPad(t.minute, 2);
  }

  /** Any text the parser accepts is the formatted form of what it parsed: the
      canonical form is the only one this model reads. */
  lemma FormatParse(s: string)
    requires Parse(s).Some?
    ensures Format(Parse(s).value) == s
  {
    PadOfNumber(s[0..4]);
    PadOfNumber(s[5..7]);
    PadOfNumber(s[8..10]);
    PadOfNumber(s[11..13]);
    PadOfNumber(s[14..16]);
    LayoutOfFields(s);
  }

  /** str(d): the timestamp's text, then seconds, then microseconds when they
      are not zero (the text the last-watered marker carries). It is 19 or 26
      characters long, starts with the minute-resolution form and is one line. */
  function IsoText(d: DateTime): (s: string)
    requires ValidDateTime(d)
    ensures |s| == if d.micro == 0 then 19 else 26
    ensures s[..16] == Format(d.stamp)
    ensures '\n' !in s && '\r' !in s
  {
    var s := Format(d.stamp) + ":" + Pad(d.second, 2) + (if d.micro == 0 then "" else "." + Pad(d.micro, 6));
    IsoTextShape(d, s);
    s
  }

  lemma IsoTextShape(d: DateTime, s: string)
    requires ValidDateTime(d)
    requires s == Format(d.stamp) + ":" + Pad(d.second, 2) + (if d.micro == 0 then "" else "." + Pad(d.micro, 6))
    ensures |s| == if d.micro == 0 then 19 else 26
    ensures s[..16] == Format(d.stamp)
    ensures '\n' !in s && '\r' !in s
  {
    var t := d.stamp;
    var head := Format(t) + ":" + Pad(d.second, 2);
    var tail := if d.micro == 0 then "" else "." + Pad(d.micro, 6);
    assert s == head + tail;
    var y, mo, dd, h, mi := Pad(t.year, 4), Pad(t.month, 2), Pad(t.day, 2), Pad(t.hour, 2), Pad(t.minute, 2);
    LayoutFields(y, mo, dd, h, mi);
    var f := Format(t);
    assert OneLine(f) by {
      forall i | 0 <= i < |f|
        ensures f[i] != '\n' && f[i] != '\r'
      {
        assert IsDigit(f[i]) || f[i] in "- :";
      }
    }
    DigitsOneLine(Pad(d.second, 2));
    OneLineConcat(f, ":");
    OneLineConcat(f + ":", Pad(d.second, 2));
    if d.micro != 0 {
      DigitsOneLine(Pad(d.micro, 6));
      OneLineConcat(".", Pad(d.micro, 6));
    }
    OneLineConcat(head, tail);
    assert s[..16] == f;
  }

  /** No character of s ends a line. */
  predicate OneLine(s: string) {
    forall i :: 0 <= i < |s| ==> s[i] != '\n' && s[i] != '\r'
  }

  lemma OneLineConcat(a: string, b: string)
    requires OneLine(a) && OneLine(b)
    ensures OneLine(a + b)
  {
    assert forall i :: |a| <= i < |a| + |b| ==> (a + b)[i] == b[i - |a|];
  }

  lemma DigitsOneLine(s: string)
    requires AllDigits(s)
    ensures OneLine(s)
  {
  }

  // ---------------------------------------------------------------------------
  // Instants

  /** Days in the years 1 .. y-1. */
  function DaysBeforeYear(y: nat): nat
    requires y >= 1
  {
    var p := y - 1;
    365 * p + p / 4 - p / 100 + p / 400
  }

  /** Days in the months 1 .. m-1 of year y: the common-year table, plus the
      leap day once February is past. */
  function DaysBeforeMonth(y: nat, m: nat): nat
    requires 1 <= m <= 12
  {
    [0, 31, 59, 90, 120, 151, 181, 212, 243, 273, 304, 334][m - 1] + (if m > 2 && IsLeapYear(y) then 1 else 0)
  }

  /** Day number of t's date, 0001-01-01 being day 1. */
  function Ordinal(t: Timestamp): nat
    requires ValidStamp(t)
  {
    DaysBeforeYear(t.year) + DaysBeforeMonth(t.year, t.month) + t.day
  }

  /** The instant d denotes, in microseconds from a fixed origin. */
  function Micros(d: DateTime): nat
    requires ValidDateTime(d)
  {
    ((((Ordinal(d.stamp) * 24 + d.stamp.hour) * 60 + d.stamp.minute) * 60 + d.second) * 1_000_000) + d.micro
  }

  /** The instant of a parsed timestamp (seconds and microseconds zero). */
  function StampMicros(t: Timestamp): nat
    requires ValidStamp(t)
  {
    Micros(DateTime(t, 0, 0))
  }

  /** datetime.timedelta(days=7), in microseconds. */
  const WeekMicros: nat := 7 * 24 * 60 * 60 * 1_000_000

  /** Python's datetime comparison: field by field, most significant first. */
  predicate Before(a: DateTime, b: DateTime) {
    var s, t := a.stamp, b.stamp;
    if s.year != t.year then s.year < t.year
    else if s.month != t.month then s.month < t.month
    else if s.day != t.day then s.day < t.day
    else if s.hour != t.hour then s.hour < t.hour
    else if s.minute != t.minute then s.minute < t.minute
    else if a.second != b.second then a.second < b.second
    else a.micro < b.micro
  }

  /** Each year adds its own length. */
  lemma YearLength(y: nat)
    requires y >= 1
    ensures DaysBeforeYear(y + 1) == DaysBeforeYear(y) + DaysInYear(y)
  {
    var p := y - 1;
    var a, b, c := y / 4 - p / 4, y / 100 - p / 100, y / 400 - p / 400;
    LeapDivisors(y);
    assert a == if y % 4 == 0 then 1 else 0;
    assert b == if y % 100 == 0 then 1 else 0;
    assert c == if y % 400 == 0 then 1 else 0;
    assert DaysBeforeYear(y + 1) == DaysBeforeYear(y) + 365 + a - b + c;
  }

  lemma LeapDivisors(y: nat)
    ensures y % 400 == 0 ==> y % 100 == 0
    ensures y % 100 == 0 ==> y % 4 == 0
  {
    if y % 400 == 0 {
      HundredsOfFourHundreds(y);
    }
    if y % 100 == 0 {
      FoursOfHundreds(y);
    }
  }

  lemma FoursOfHundreds(y: nat)
    requires y % 100 == 0
    ensures y % 4 == 0
  {
    var z := 25 * (y / 100);
    assert y == 4 * z;
  }

  lemma HundredsOfFourHundreds(y: nat)
    requires y % 400 == 0
    ensures y % 100 == 0
  {
    var z := 4 * (y / 400);
    assert y == 100 * z;
  }

  /** Each month adds its own length. */
  lemma MonthLength(y: nat, m: nat)
    requires 1 <= m <= 12
    ensures DaysBeforeMonth(y, m) + DaysInMonth(y, m) == if m < 12 then DaysBeforeMonth(y, m + 1) else DaysInYear(y)
  {
  }

  lemma {:induction false} DaysBeforeYearGrows(a: nat, b: nat)
    requires 1 <= a < b
    ensures DaysBeforeYear(a) + DaysInYear(a) <= DaysBeforeYear(b)
    decreases b - a
  {
    YearLength(a);
    if a + 1 < b {
      DaysBeforeYearGrows(a + 1, b);
    }
  }

  lemma {:induction false} DaysBeforeMonthGrows(y: nat, a: nat, b: nat)
    requires 1 <= a < b <= 12
    ensures DaysBeforeMonth(y, a) + DaysInMonth(y, a) <= DaysBeforeMonth(y, b)
    decreases b - a
  {
    MonthLength(y, a);
    if a + 1 < b {
      MonthLength(y, a + 1);
      DaysBeforeMonthGrows(y, a + 1, b);
    }
  }

  /** An earlier calendar date has a smaller day number. */
  lemma OrdinalGrows(s: Timestamp, t: Timestamp)
    requires ValidStamp(s) && ValidStamp(t)
    requires s.year < t.year || (s.year == t.year && (s.month < t.month || (s.month == t.month && s.day < t.day)))
    ensures Ordinal(s) < Ordinal(t)
  {
    if s.year < t.year {
      if s.month < 12 {
        DaysBeforeMonthGrows(s.year, s.month, 12);
      }
      MonthLength(s.year, 12);
      DaysBeforeYearGrows(s.year, t.year);
    } else if s.month < t.month {
      DaysBeforeMonthGrows(s.year, s.month, t.month);
    }
  }

  /** The instant order is Python's datetime order. */
  lemma MicrosOrder(a: DateTime, b: DateTime)
    requires ValidDateTime(a) && ValidDateTime(b)
    ensures Before(a, b) <==> Micros(a) < Micros(b)
    ensures Micros(a) == Micros(b) <==> a == b
  {
    var s, t := a.stamp, b.stamp;
    var sameDate := s.year == t.year && s.month == t.month && s.day == t.day;
    if !sameDate {
      if s.year < t.year || (s.year == t.year && (s.month < t.month || (s.month == t.month && s.day < t.day))) {
        OrdinalGrows(s, t);
      } else {
        OrdinalGrows(t, s);
      }
    }
  }
}
