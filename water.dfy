/** The stand-alone watering loop: a counter of consecutive dry readings that
    runs the pump for the first few of them and gives up after too many. */
module Water {

  import opened Wrappers
  import opened Trace
  import Timestamps

  /** A dry reading runs the pump only while fewer dry readings than this precede it. */
  const ActuateLimit: nat := 5
  /** After this many dry readings in a row the loop stops for good. */
  const GiveUpLimit: nat := 10
  /** auto_water runs the pump for one second per activation. */
  const PumpSeconds: nat := 1

  const NeverWatered := "NEVER!"

  /** The sensor pulls its line low when the soil is wet. */
  predicate IsWet(reading: Level) {
    reading == Low
  }

  // ---------------------------------------------------------------------------
  // The last-watered marker

  function MarkerText(now: string): string {
    "Last watered " + now
  }

  /** The text as a file opened in text mode reads it (universal newlines): each
      "\r\n" and each remaining "\r" comes back as "\n". */
  function ReadNewlines(s: string): (r: string)
    ensures '\r' !in r
    ensures '\r' !in s ==> r == s
    decreases |s|
  {
    if s == [] then []
    else if s[0] == '\r' then "\n" + ReadNewlines(if |s| > 1 && s[1] == '\n' then s[2..] else s[1..])
    else
      assert '\r' !in s ==> '\r' !in s[1..];
      [s[0]] + ReadNewlines(s[1..])
  }

  /** The first carriage return of a text reads back as one newline: together with
      the newline after it when there is one, and alone otherwise. Everything before
      it is unchanged and everything after it is read the same way. */
  lemma {:induction false} ReadNewlinesTranslates(a: string, b: string)
    requires '\r' !in a
    ensures ReadNewlines(a + "\r\n" + b) == a + "\n" + ReadNewlines(b)
    ensures (b == [] || b[0] != '\n') ==> ReadNewlines(a + "\r" + b) == a + "\n" + ReadNewlines(b)
  {
    ReadNewlinesPrefix(a, "\r\n" + b);
    var s := "\r\n" + b;
    assert s[0] == '\r' && s[1] == '\n' && s[2..] == b;
    assert a + "\r\n" + b == a + s;
    if b == [] || b[0] != '\n' {
      ReadNewlinesPrefix(a, "\r" + b);
      var t := "\r" + b;
      assert t[0] == '\r' && t[1..] == b;
      assert a + "\r" + b == a + t;
    }
  }

  /** A prefix without carriage returns reads back unchanged, whatever follows it. */
  lemma {:induction false} ReadNewlinesPrefix(a: string, b: string)
    requires '\r' !in a
    ensures ReadNewlines(a + b) == a + ReadNewlines(b)
    decreases |a|
  {
    if a != [] {
      var s := a + b;
      assert s[0] == a[0] && s[1..] == a[1..] + b;
      ReadNewlinesPrefix(a[1..], b);
      assert a == [a[0]] + a[1..];
    } else {
      assert a + b == b;
    }
  }

  /** Everything up to and including the first newline, or the whole text when it
      has none. */
  function FirstLine(s: string): (r: string)
    ensures r <= s
    ensures forall j :: 0 <= j < |r| - 1 ==> r[j] != '\n'
    ensures r == s || (|r| > 0 && r[|r| - 1] == '\n')
  {
    if s == [] then []
    else if s[0] == '\n' then [s[0]]
    else [s[0]] + FirstLine(s[1..])
  }

  /** get_last_watered: "NEVER!" when there is no marker file, otherwise what
      readline returns: the text as read, up to and including its first line end,
      or all of it when it has no line end. */
  function GetLastWatered(file: Option<string>): (r: string)
    ensures file.None? ==> r == NeverWatered
    ensures file.Some? ==> r <= ReadNewlines(file.value) && '\r' !in r
    ensures file.Some? ==> forall j :: 0 <= j < |r| - 1 ==> r[j] != '\n'
    ensures file.Some? ==> r == ReadNewlines(file.value) || (|r| > 0 && r[|r| - 1] == '\n')
  {
    match file
    case None => NeverWatered
    case Some(text) =>
      var r := FirstLine(ReadNewlines(text));
      assert forall j :: 0 <= j < |r| ==> r[j] == ReadNewlines(text)[j];
      r
  }

  /** A carriage return, alone or before a newline, ends the line read back, which
      then ends in a newline. */
  lemma ReadLineExamples()
    ensures GetLastWatered(Some("x\r\ny")) == "x\n"
    ensures GetLastWatered(Some("x\ry")) == "x\n"
  {
    var crlf, cr := "x\r\ny", "x\ry";
    assert crlf[1..][2..] == "y" && cr[1..][1..] == "y";
    assert ReadNewlines(crlf) == "x\ny";
    assert ReadNewlines(cr) == "x\ny";
    var read := "x\ny";
    assert read[1..] == "\ny";
    assert FirstLine(read) == "x\n";
  }

  lemma MarkerFileAppend(a: seq<Command>, b: seq<Command>, file: Option<string>)
    ensures MarkerFile(a + b, file) == MarkerFile(b, MarkerFile(a, file))
  {
    if a != [] {
      assert (a + b)[1..] == a[1..] + b;
      MarkerFileAppend(a[1..], b, if a[0].WriteMarker? then Some(a[0].text) else file);
    } else {
      assert a + b == b;
    }
  }

  lemma FirstLineNoNewline(s: string)
    requires '\n' !in s
    ensures FirstLine(s) == s
  {
  }

  /** With no marker file and nothing written to it, the report is "NEVER!". */
  lemma NeverWateredWithoutMarker(t: seq<Command>)
    requires Markers(t) == 0
    ensures GetLastWatered(MarkerFile(t, None)) == NeverWatered
  {
  }

  /** After a pump run, get_last_watered reads back the text that run wrote,
      provided the clock's rendering is one line. */
  lemma LastWateredAfterPump(before: seq<Command>, pin: nat, delay: nat, now: string, file: Option<string>)
    requires '\n' !in now && '\r' !in now
    ensures GetLastWatered(MarkerFile(before + PumpOn(pin, delay, now), file)) == MarkerText(now)
  {
    var p := PumpOn(pin, delay, now);
    MarkerFileAppend(before, p, file);
    MarkerFileOverwritten(p, MarkerFile(before, file));
    MarkerTextOneLine(now);
  }

  /** The marker text is read back whole when the clock's rendering is one line. */
  lemma MarkerTextOneLine(now: string)
    requires '\n' !in now && '\r' !in now
    ensures GetLastWatered(Some(MarkerText(now))) == MarkerText(now)
  {
    var m := MarkerText(now);
    assert forall i :: 13 <= i < |m| ==> m[i] == now[i - 13];
    assert '\r' !in m;
    FirstLineNoNewline(m);
  }

  // ---------------------------------------------------------------------------
  // Pin writes

  /** init_output: the pin is set up as an output, written LOW, then HIGH (idle). */
  function InitOutput(pin: nat): (t: seq<Command>)
    ensures Levels(t, pin) == [Low, High]
    ensures Markers(t) == 0
  {
    [Output(pin, Low), Output(pin, High)]
  }

  /** pump_on: init_output, the marker write, then LOW for `delay` seconds and HIGH.
      It writes LOW, HIGH, LOW, HIGH to the pump pin, so it leaves the pump off; it
      writes the marker once, after init_output's LOW/HIGH pulse and before the LOW
      that runs the pump, which lasts `delay` seconds. */
  function PumpOn(pin: nat, delay: nat, now: string): (t: seq<Command>)
    ensures Levels(t, pin) == [Low, High, Low, High] && Markers(t) == 1
    ensures |t| == 6 && t[2] == WriteMarker(MarkerText(now))
    ensures Levels(t[..2], pin) == [Low, High] && Levels(t[3..], pin) == [Low, High]
    ensures t[3] == Output(pin, Low) && t[4] == Sleep(delay) && t[5] == Output(pin, High)
    ensures MarkerFile(t, None) == Some(MarkerText(now))
  {
    var t := InitOutput(pin) + [WriteMarker(MarkerText(now)), Output(pin, Low), Sleep(delay), Output(pin, High)];
    PumpOnSteps(pin, delay, MarkerText(now), t);
    t
  }

  lemma PumpOnSteps(pin: nat, delay: nat, m: string, t: seq<Command>)
    requires t == [Output(pin, Low), Output(pin, High), WriteMarker(m), Output(pin, Low), Sleep(delay), Output(pin, High)]
    ensures Levels(t, pin) == [Low, High, Low, High] && Markers(t) == 1
    ensures Levels(t[..2], pin) == [Low, High] && Levels(t[3..], pin) == [Low, High]
    ensures MarkerFile(t, None) == Some(m)
  {
    assert t[5..][1..] == [];
    assert t[4..][1..] == t[5..];
    assert t[3..][1..] == t[4..];
    assert t[2..][1..] == t[3..];
    assert t[1..][1..] == t[2..];
    PumpOnLevels(pin, delay, m, t);
    assert Markers(t[5..]) == 0 && Markers(t[4..]) == 0 && Markers(t[3..]) == 0;
    assert Markers(t[2..]) == 1 && Markers(t[1..]) == 1;
    var init := t[..2];
    assert init[1..][1..] == [] && init[1..] == [Output(pin, High)];
    assert Levels(init[1..], pin) == [High];
    assert MarkerFile(t[3..], Some(m)) == Some(m);
  }

  lemma PumpOnLevels(pin: nat, delay: nat, m: string, t: seq<Command>)
    requires t == [Output(pin, Low), Output(pin, High), WriteMarker(m), Output(pin, Low), Sleep(delay), Output(pin, High)]
    requires t[5..][1..] == [] && t[4..][1..] == t[5..] && t[3..][1..] == t[4..]
    requires t[2..][1..] == t[3..] && t[1..][1..] == t[2..]
    ensures Levels(t[3..], pin) == [Low, High]
    ensures Levels(t, pin) == [Low, High, Low, High]
  {
    assert Levels(t[5..], pin) == [High];
    assert Levels(t[4..], pin) == [High];
    assert Levels(t[3..], pin) == [Low, High];
    assert Levels(t[2..], pin) == [Low, High];
    assert Levels(t[1..], pin) == [High, Low, High];
  }

  // ---------------------------------------------------------------------------
  // The reference behaviour of auto_water over a finite sequence of readings

  /** The number of dry readings at the end of `s`, after its last wet one. */
  function DryStreak(s: seq<Level>): (n: nat)
    ensures n <= |s|
  {
    if s == [] || IsWet(s[|s| - 1]) then 0 else DryStreak(s[..|s| - 1]) + 1
  }

  /** Whether tick j (the one that reads readings[j]) runs the pump: the reading is
      dry and fewer than ActuateLimit dry readings come right before it. */
  predicate Waters(readings: seq<Level>, j: nat)
    requires j < |readings|
  {
    !IsWet(readings[j]) && DryStreak(readings[..j]) < ActuateLimit
  }

  /** What tick j adds after its sleep: one pump run if the tick waters, else nothing. */
  function Watering(readings: seq<Level>, j: nat, pin: nat, clock: nat -> Timestamps.Moment): seq<Command>
    requires j < |readings|
  {
    if Waters(readings, j) then PumpOn(pin, PumpSeconds, Timestamps.IsoText(clock(j))) else []
  }

  /** The steps of auto_water up to and including its first n ticks: init_output,
      then per tick the sleep and the tick's watering. */
  function Run(readings: seq<Level>, n: nat, delay: nat, pin: nat, clock: nat -> Timestamps.Moment): seq<Command>
    requires n <= |readings|
  {
    if n == 0 then InitOutput(pin)
    else Run(readings, n - 1, delay, pin, clock) + [Sleep(delay)] + Watering(readings, n - 1, pin, clock)
  }

  /** The number of ticks j with a <= j < b that run the pump. */
  function Activations(readings: seq<Level>, a: nat, b: nat): (n: nat)
    requires a <= b <= |readings|
    ensures n <= b - a
    decreases b - a
  {
    if a == b then 0 else Activations(readings, a, b - 1) + if Waters(readings, b - 1) then 1 else 0
  }

  /** The first index n >= i at which GiveUpLimit dry readings end, or the end of input. */
  function StopFrom(readings: seq<Level>, i: nat): (n: nat)
    requires i <= |readings|
    ensures i <= n <= |readings|
    ensures n == |readings| || DryStreak(readings[..n]) >= GiveUpLimit
    ensures forall j :: i <= j < n ==> DryStreak(readings[..j]) < GiveUpLimit
    decreases |readings| - i
  {
    if i == |readings| || DryStreak(readings[..i]) >= GiveUpLimit then i else StopFrom(readings, i + 1)
  }

  /** How many readings auto_water consumes: it stops exactly when the streak of dry
      readings reaches GiveUpLimit, or when the input runs out. */
  function StopIndex(readings: seq<Level>): (n: nat)
    ensures n <= |readings|
    ensures n == |readings| || DryStreak(readings[..n]) == GiveUpLimit
    ensures forall j :: 0 <= j < n ==> DryStreak(readings[..j]) < GiveUpLimit
  {
    var n := StopFrom(readings, 0);
    assert n > 0 ==> DryStreak(readings[..n]) <= DryStreak(readings[..n - 1]) + 1 by {
      if n > 0 {
        DryStreakStep(readings[..n - 1], readings[n - 1]);
        assert readings[..n - 1] + [readings[n - 1]] == readings[..n];
      }
    }
    n
  }

  /** DryStreak counts exactly the dry readings after the last wet one: the last n
      readings are dry and the one before them, if any, is wet. */
  lemma {:induction false} DryStreakMeaning(s: seq<Level>)
    ensures var n := DryStreak(s);
            && (forall j :: |s| - n <= j < |s| ==> !IsWet(s[j]))
            && (n < |s| ==> IsWet(s[|s| - 1 - n]))
  {
    if s != [] && !IsWet(s[|s| - 1]) {
      DryStreakMeaning(s[..|s| - 1]);
    }
  }

  /** A dry reading extends the streak by exactly one; a wet reading ends it. */
  lemma DryStreakStep(s: seq<Level>, reading: Level)
    ensures DryStreak(s + [reading]) == if IsWet(reading) then 0 else DryStreak(s) + 1
  {
    assert (s + [reading])[..|s|] == s;
  }

  // ---------------------------------------------------------------------------
  // auto_water

  /** auto_water(delay, pump_pin) over a finite sequence of sensor readings, `clock(j)`
      being datetime.now() when tick j writes the marker. Returns the
      steps taken, the final counter, and how many readings were consumed. */
  method AutoWater(readings: seq<Level>, delay: nat, pumpPin: nat, clock: nat -> Timestamps.Moment)
    returns (trace: seq<Command>, count: nat, consumed: nat)
    ensures consumed == StopIndex(readings)
    ensures count == DryStreak(readings[..consumed]) && count <= GiveUpLimit
    ensures consumed < |readings| ==> count == GiveUpLimit
    ensures trace == Run(readings, consumed, delay, pumpPin, clock)
  {
    count := 0;
    trace := InitOutput(pumpPin);
    consumed := 0;
    while count < GiveUpLimit && consumed < |readings|
      invariant consumed <= |readings|
      invariant count == DryStreak(readings[..consumed]) && count <= GiveUpLimit
      invariant StopFrom(readings, consumed) == StopIndex(readings)
      invariant trace == Run(readings, consumed, delay, pumpPin, clock)
      decreases |readings| - consumed
    {
      AutoWaterStep(readings, consumed, delay, pumpPin, clock);
      trace := trace + [Sleep(delay)];
      if readings[consumed] != Low {
        if count < ActuateLimit {
          trace := trace + PumpOn(pumpPin, PumpSeconds, Timestamps.IsoText(clock(consumed)));
        }
        count := count + 1;
      } else {
        count := 0;
      }
      consumed := consumed + 1;
    }
  }

  /** What one more tick of auto_water adds to the reference behaviour. */
  lemma AutoWaterStep(readings: seq<Level>, i: nat, delay: nat, pin: nat, clock: nat -> Timestamps.Moment)
    requires i < |readings| && DryStreak(readings[..i]) < GiveUpLimit
    ensures StopFrom(readings, i) == StopFrom(readings, i + 1)
    ensures DryStreak(readings[..i + 1]) == if IsWet(readings[i]) then 0 else DryStreak(readings[..i]) + 1
    ensures Run(readings, i + 1, delay, pin, clock) == Run(readings, i, delay, pin, clock) + [Sleep(delay)] +
              if !IsWet(readings[i]) && DryStreak(readings[..i]) < ActuateLimit then PumpOn(pin, PumpSeconds, Timestamps.IsoText(clock(i))) else []
  {
    DryStreakStep(readings[..i], readings[i]);
    assert readings[..i] + [readings[i]] == readings[..i + 1];
  }

  // ---------------------------------------------------------------------------
  // Properties of the reference behaviour

  /** Within a stretch of dry readings, the streak is at least the stretch's length. */
  lemma {:induction false} DryStreakAtLeast(s: seq<Level>, a: nat)
    requires a <= |s|
    requires forall j :: a <= j < |s| ==> !IsWet(s[j])
    ensures DryStreak(s) >= |s| - a
  {
    if |s| > a {
      DryStreakAtLeast(s[..|s| - 1], a);
    }
  }

  /** Right after a wet reading (or at the start), the streak is exactly the
      length of the dry stretch that follows. */
  lemma {:induction false} DryStreakAfterWet(s: seq<Level>, a: nat)
    requires a <= |s|
    requires a == 0 || IsWet(s[a - 1])
    requires forall j :: a <= j < |s| ==> !IsWet(s[j])
    ensures DryStreak(s) == |s| - a
  {
    if |s| > a {
      DryStreakAfterWet(s[..|s| - 1], a);
    } else if a > 0 {
      assert s == s[..a - 1] + [s[a - 1]];
      DryStreakStep(s[..a - 1], s[a - 1]);
    }
  }

  /** Among consecutive dry readings, at most ActuateLimit run the pump. */
  lemma {:induction false} AtMostFiveInDryRun(readings: seq<Level>, a: nat, b: nat)
    requires a <= b <= |readings|
    requires forall j :: a <= j < b ==> !IsWet(readings[j])
    ensures Activations(readings, a, b) <= ActuateLimit
  {
    if b - a > ActuateLimit {
      AtMostFiveInDryRun(readings, a, b - 1);
      DryStreakAtLeast(readings[..b - 1], a);
      assert !Waters(readings, b - 1);
    }
  }

  /** After a wet reading (or at the start), the first ActuateLimit dry readings each
      run the pump and the ones after them do not. */
  lemma {:induction false} FiveAfterWet(readings: seq<Level>, a: nat, b: nat)
    requires a <= b <= |readings|
    requires a == 0 || IsWet(readings[a - 1])
    requires forall j :: a <= j < b ==> !IsWet(readings[j])
    ensures Activations(readings, a, b) == if b - a < ActuateLimit then b - a else ActuateLimit
    decreases b - a
  {
    if a < b {
      FiveAfterWet(readings, a, b - 1);
      DryStreakAfterWet(readings[..b - 1], a);
    }
  }

  /** Ten dry readings in a row end the loop at or before the tenth of them. */
  lemma StopsAfterTenDry(readings: seq<Level>, a: nat)
    requires a + GiveUpLimit <= |readings|
    requires forall j :: a <= j < a + GiveUpLimit ==> !IsWet(readings[j])
    ensures StopIndex(readings) <= a + GiveUpLimit
  {
    DryStreakAtLeast(readings[..a + GiveUpLimit], a);
  }

  /** On a tick with a dry reading the pump runs if and only if the counter before
      the tick is below ActuateLimit; a wet tick never runs it. */
  lemma TickActivates(readings: seq<Level>, j: nat, pin: nat, clock: nat -> Timestamps.Moment)
    requires j < |readings|
    ensures Markers(Watering(readings, j, pin, clock)) ==
            if !IsWet(readings[j]) && DryStreak(readings[..j]) < ActuateLimit then 1 else 0
    ensures Levels(Watering(readings, j, pin, clock), pin) ==
            if Waters(readings, j) then [Low, High, Low, High] else []
  {
  }

  /** Every pump run of the loop writes the marker exactly once. */
  lemma {:induction false} MarkersCountActivations(readings: seq<Level>, n: nat, delay: nat, pin: nat, clock: nat -> Timestamps.Moment)
    requires n <= |readings|
    ensures Markers(Run(readings, n, delay, pin, clock)) == Activations(readings, 0, n)
  {
    if n > 0 {
      var before := Run(readings, n - 1, delay, pin, clock);
      MarkersCountActivations(readings, n - 1, delay, pin, clock);
      MarkersAppend(before, [Sleep(delay)]);
      MarkersAppend(before + [Sleep(delay)], Watering(readings, n - 1, pin, clock));
      TickActivates(readings, n - 1, pin, clock);
    }
  }

  /** A tick's pump run, if any, ends with the pump switched off. */
  lemma WateringEndsOff(readings: seq<Level>, j: nat, pin: nat, clock: nat -> Timestamps.Moment)
    requires j < |readings|
    ensures LastLevel(Watering(readings, j, pin, clock), pin) == if Waters(readings, j) then Some(High) else None
  {
  }

  /** The last level the loop writes to the pump pin is HIGH: the pump is left off. */
  lemma {:induction false} PumpLeftOff(readings: seq<Level>, n: nat, delay: nat, pin: nat, clock: nat -> Timestamps.Moment)
    requires n <= |readings|
    ensures LastLevel(Run(readings, n, delay, pin, clock), pin) == Some(High)
  {
    if n > 0 {
      var before := Run(readings, n - 1, delay, pin, clock);
      var w := Watering(readings, n - 1, pin, clock);
      PumpLeftOff(readings, n - 1, delay, pin, clock);
      WateringEndsOff(readings, n - 1, pin, clock);
      LastLevelAppend(before, [Sleep(delay)], pin);
      LastLevelAppend(before + [Sleep(delay)], w, pin);
    }
  }
  /** After a tick that runs the pump, get_last_watered reads back the marker of that
      tick: "Last watered " and str(datetime.now()), whatever the file held before. */
  lemma LoopLastWatered(readings: seq<Level>, n: nat, delay: nat, pin: nat, clock: nat -> Timestamps.Moment, file: Option<string>)
    requires 0 < n <= |readings| && Waters(readings, n - 1)
    ensures GetLastWatered(MarkerFile(Run(readings, n, delay, pin, clock), file)) == MarkerText(Timestamps.IsoText(clock(n - 1)))
  {
    LastWateredAfterPump(Run(readings, n - 1, delay, pin, clock) + [Sleep(delay)], pin, PumpSeconds, Timestamps.IsoText(clock(n - 1)), file);
  }

}
