/** The operator's text input: the HH:MM validator and the argument split done
    by the set-schedule handler. */
module Commands {

  import opened Wrappers
  import opened Digits

  /** The text before the argument of a set-schedule command. */
  const SetScheduleSeparator := "/setSchedule "

  // ---------------------------------------------------------------------------
  // is_valid_time_format

  /** The text an operator means by hour h, minute m. */
  function ClockText(h: nat, m: nat): string
    requires h < 24 && m < 60
  {
    Pad(h, 2) + ":" + Pad(m, 2)
  }

  /** `[01]\d|2[0-3]`. */
  predicate HourField(a: char, b: char) {
    ((a == '0' || a == '1') && IsDigit(b)) || (a == '2' && '0' <= b <= '3')
  }

  /** `[0-5]\d`. */
  predicate MinuteField(a: char, b: char) {
    '0' <= a <= '5' && IsDigit(b)
  }

  /** Python's `$`: the end of the text, or just before a newline that ends it. */
  predicate AtEnd(s: string, k: nat) {
    k == |s| || (k + 1 == |s| && s[k] == '\n')
  }

  /** The pattern `^([01]\d|2[0-3]):([0-5]\d)$` matches at the start of s. */
  predicate TimeMatch(s: string) {
    |s| >= 5 && HourField(s[0], s[1]) && s[2] == ':' && MinuteField(s[3], s[4]) && AtEnd(s, 5)
  }

  /** is_valid_time_format accepts exactly the zero-padded times of day 00:00..23:59,
      each alone or followed by one newline (the `$` quirk, kept by this model). */
  function IsValidTimeFormat(s: string): (b: bool)
    ensures b <==> exists h: nat, m: nat :: h < 24 && m < 60 && (s == ClockText(h, m) || s == ClockText(h, m) + "\n")
  {
    TimeMatchMeaning(s);
    TimeMatch(s)
  }

  /** The pattern matches exactly the texts of a clock time, with or without one
      trailing newline. */
  lemma TimeMatchMeaning(s: string)
    ensures TimeMatch(s) <==>
            exists h: nat, m: nat :: h < 24 && m < 60 && (s == ClockText(h, m) || s == ClockText(h, m) + "\n")
  {
    if TimeMatch(s) {
      var h, m := ValidTimeFields(s);
    }
    if exists h: nat, m: nat :: h < 24 && m < 60 && (s == ClockText(h, m) || s == ClockText(h, m) + "\n") {
      var h: nat, m: nat :| h < 24 && m < 60 && (s == ClockText(h, m) || s == ClockText(h, m) + "\n");
      ClockTextFields(h, m);
    }
  }

  /** The hour and the minute an accepted text names. */
  lemma ValidTimeFields(s: string) returns (h: nat, m: nat)
    requires TimeMatch(s)
    ensures h < 24 && m < 60 && (s == ClockText(h, m) || s == ClockText(h, m) + "\n")
  {
    var hs, ms := s[..2], s[3..5];
    PadOfNumber(hs);
    PadOfNumber(ms);
    h, m := Number(hs), Number(ms);
    NumberTwo(hs);
    NumberTwo(ms);
    assert ClockText(h, m) == s[..5];
    assert s == s[..5] || s == s[..5] + "\n";
  }

  lemma ClockTextFields(h: nat, m: nat)
    requires h < 24 && m < 60
    ensures var s := ClockText(h, m);
            |s| == 5 && HourField(s[0], s[1]) && s[2] == ':' && MinuteField(s[3], s[4])
  {
    PadTwo(h);
    PadTwo(m);
  }

  /** Single-digit hours, hours past 23 and minutes past 59 are rejected; one
      trailing newline is accepted. */
  lemma TimeFormatExamples()
    ensures TimeMatch("08:30") && TimeMatch("23:59") && TimeMatch("08:30\n")
    ensures !TimeMatch("8:30") && !TimeMatch("24:00") && !TimeMatch("12:60")
    ensures !TimeMatch("08:30\n\n") && !TimeMatch("08:30 ")
  {
  }

  // ---------------------------------------------------------------------------
  // message.text.split('/setSchedule ')[1]

  /** sep occurs in s starting at index k. */
  predicate OccursAt(s: string, sep: string, k: nat) {
    k + |sep| <= |s| && s[k..k + |sep|] == sep
  }

  /** The first occurrence of sep in s at or after start. */
  function FindFrom(s: string, sep: string, start: nat): (r: Option<nat>)
    requires |sep| > 0
    ensures r.Some? ==> start <= r.value && OccursAt(s, sep, r.value)
    ensures r.Some? ==> forall j :: start <= j < r.value ==> !OccursAt(s, sep, j)
    ensures r.None? ==> forall j: nat :: start <= j ==> !OccursAt(s, sep, j)
    decreases |s| - start
  {
    if start + |sep| > |s| then None
    else if OccursAt(s, sep, start) then Some(start)
    else FindFrom(s, sep, start + 1)
  }

  /** An occurrence inside a slice is an occurrence in the whole text. */
  lemma OccursInSlice(s: string, sep: string, a: nat, b: nat, p: nat)
    requires a <= b <= |s| && OccursAt(s[a..b], sep, p)
    ensures OccursAt(s, sep, a + p)
  {
    var inner, outer := s[a..b][p..p + |sep|], s[a + p..a + p + |sep|];
    assert forall i | 0 <= i < |sep| :: inner[i] == outer[i];
    assert inner == outer;
  }

  /** s.split(sep)[1]: the text between the first and the second occurrence of sep
      (or the end), or None where Python raises IndexError because sep does not occur. */
  function SecondField(s: string, sep: string): (r: Option<string>)
    requires |sep| > 0
    ensures r.None? <==> forall k: nat :: !OccursAt(s, sep, k)
    ensures r.Some? ==> |r.value| + |sep| <= |s|
    ensures r.Some? ==> forall p: nat :: !OccursAt(r.value, sep, p)
    ensures r.Some? ==>
              var start := FindFrom(s, sep, 0).value + |sep|;
              var end := start + |r.value|;
              && end <= |s| && r.value == s[start..end]
              && (end == |s| || OccursAt(s, sep, end))
              && forall j :: start <= j < end ==> !OccursAt(s, sep, j)
  {
    match FindFrom(s, sep, 0)
    case None => None
    case Some(k) =>
      var start := k + |sep|;
      var end := FieldEnd(s, sep, start);
      NoSeparatorInside(s, sep, start, end);
      Some(s[start..end])
  }

  /** Where a field that begins at start ends: at the next occurrence of sep, or at
      the end of the text. */
  function FieldEnd(s: string, sep: string, start: nat): (end: nat)
    requires |sep| > 0 && start <= |s|
    ensures start <= end <= |s|
    ensures end == |s| || OccursAt(s, sep, end)
    ensures forall j :: start <= j < end ==> !OccursAt(s, sep, j)
  {
    match FindFrom(s, sep, start)
    case None => |s|
    case Some(e) => e
  }

  /** A stretch of text in which sep starts nowhere does not contain sep. */
  lemma NoSeparatorInside(s: string, sep: string, start: nat, end: nat)
    requires |sep| > 0 && start <= end <= |s|
    requires forall j :: start <= j < end ==> !OccursAt(s, sep, j)
    ensures forall p: nat :: !OccursAt(s[start..end], sep, p)
  {
    forall p: nat | OccursAt(s[start..end], sep, p)
      ensures false
    {
      OccursInSlice(s, sep, start, end, p);
    }
  }

  /** "/setSchedule " followed by an argument that does not itself contain the
      separator yields exactly that argument. */
  lemma ArgumentOfCommand(arg: string)
    requires forall p: nat :: !OccursAt(arg, SetScheduleSeparator, p)
    ensures SecondField(SetScheduleSeparator + arg, SetScheduleSeparator) == Some(arg)
  {
    var sep := SetScheduleSeparator;
    var s := sep + arg;
    assert OccursAt(s, sep, 0) by {
      assert s[0..|sep|] == sep;
    }
    assert FindFrom(s, sep, 0) == Some(0);
    var end := FieldEnd(s, sep, |sep|);
    if end < |s| {
      SliceAfterPrefix(sep, arg, end, end + |sep|);
      assert OccursAt(arg, sep, end - |sep|);
    }
    assert end == |s|;
    SliceAfterPrefix(sep, arg, |sep|, end);
    assert arg[0..|arg|] == arg;
  }

  /** A slice of a + b that lies past a is a slice of b. */
  lemma SliceAfterPrefix(a: string, b: string, i: nat, j: nat)
    requires |a| <= i <= j <= |a| + |b|
    ensures (a + b)[i..j] == b[i - |a|..j - |a|]
  {
    assert forall k :: 0 <= k < j - i ==> (a + b)[i..j][k] == b[i - |a|..j - |a|][k];
  }

  /** "/setSchedule" with no argument (the separator's space is missing) is the
      IndexError path. */
  lemma BareCommandHasNoArgument()
    ensures SecondField("/setSchedule", SetScheduleSeparator) == None
  {
  }
}
