/** The chat bot: a stored watering schedule, the moisture/watering event log,
    and everything the handlers do to the outside world, kept in order as a list
    of effects (pin writes, chat messages, file saves). */
module Bot {

  import opened Wrappers
  import opened Trace
  import opened Commands
  import opened Timestamps
  import opened Events
  import Water

  const PumpPin: nat := 7
  /** pump_on's default delay, the one water_now uses. */
  const ManualPumpSeconds: nat := 1

  const NoScheduleText := "No watering schedule set."
  const SchedulePrefix := "Current watering schedule: "
  const ScheduleSetPrefix := "Watering schedule set to "
  const InvalidTimeText := "Please provide a valid time in HH:MM format (24 Hr)."
  const UsageText := "Please provide a time for the schedule. Usage: /setSchedule HH:MM"
  const ManualWateringText := "Watering plants manually now!"
  const ReportText := "Here is the weekly moisture and watering report."

  /** One thing the bot does to the world. */
  datatype Effect =
    | Pin(command: Command)              // a GPIO write, a sleep, or the last-watered marker write
    | Message(text: string)              // a chat message to the operator
    | SaveSchedule(time: string)         // the schedule file rewritten
    | SaveLog(log: seq<Event>)           // the event log file rewritten
    | ReportFile(rows: seq<Event>)       // the weekly CSV written with these rows
    | SendReport                         // the weekly CSV sent to the chat

  /** The pin-level part of an effect list, in order: a command is in it exactly
      when the list holds it as a Pin effect. */
  function PinCommands(effects: seq<Effect>): (t: seq<Command>)
    ensures forall c :: c in t <==> Pin(c) in effects
  {
    if effects == [] then []
    else
      var init := effects[..|effects| - 1];
      var last := effects[|effects| - 1];
      assert effects == init + [last];
      PinCommands(init) + if last.Pin? then [last.command] else []
  }

  lemma {:induction false} PinCommandsAppend(a: seq<Effect>, b: seq<Effect>)
    ensures PinCommands(a + b) == PinCommands(a) + PinCommands(b)
    decreases |b|
  {
    if b == [] {
      assert a + b == a;
    } else {
      var init := b[..|b| - 1];
      assert (a + b)[..|a + b| - 1] == a + init;
      PinCommandsAppend(a, init);
    }
  }

  /** Pin commands as effects. */
  function AsEffects(t: seq<Command>): (e: seq<Effect>)
    ensures PinCommands(e) == t
  {
    if t == [] then []
    else
      var init := AsEffects(t[..|t| - 1]);
      assert (init + [Pin(t[|t| - 1])])[..|init|] == init;
      assert t == t[..|t| - 1] + [t[|t| - 1]];
      init + [Pin(t[|t| - 1])]
  }

  // ---------------------------------------------------------------------------
  // pump_on

  /** bot.py's pump_on: LOW for `delay` seconds, HIGH, then the marker with the time.
      The pump is switched off before the marker is written, and the marker is
      written exactly once. */
  function PumpCommands(delay: nat, at: DateTime): (t: seq<Command>)
    requires ValidDateTime(at)
    ensures |t| == 4 && Levels(t, PumpPin) == [Low, High] && Markers(t) == 1 && Markers(t[..3]) == 0
    ensures t[1] == Sleep(delay) && t[3] == WriteMarker(Water.MarkerText(IsoText(at)))
  {
    var t := [Output(PumpPin, Low), Sleep(delay), Output(PumpPin, High), WriteMarker(Water.MarkerText(IsoText(at)))];
    PumpCommandsSteps(delay, Water.MarkerText(IsoText(at)), t);
    t
  }

  lemma PumpCommandsSteps(delay: nat, m: string, t: seq<Command>)
    requires t == [Output(PumpPin, Low), Sleep(delay), Output(PumpPin, High), WriteMarker(m)]
    ensures Levels(t, PumpPin) == [Low, High] && Markers(t) == 1 && Markers(t[..3]) == 0
    ensures LastLevel(t, PumpPin) == Some(High)
    ensures forall file :: MarkerFile(t, file) == Some(m)
  {
    assert t[3..][1..] == [];
    assert t[2..][1..] == t[3..];
    assert t[1..][1..] == t[2..];
    assert Levels(t[3..], PumpPin) == [] && Markers(t[3..]) == 1;
    assert Levels(t[2..], PumpPin) == [High] && Markers(t[2..]) == 1;
    assert Levels(t[1..], PumpPin) == [High] && Markers(t[1..]) == 1;
    var u := t[..3];
    assert u[2..][1..] == [];
    assert u[1..][1..] == u[2..];
    assert Markers(u[2..]) == 0 && Markers(u[1..]) == 0;
    assert t[..|t| - 1] == u;
    forall file
      ensures MarkerFile(t, file) == Some(m)
    {
      assert MarkerFile(t[3..], file) == Some(m);
      assert MarkerFile(t[2..], file) == Some(m);
      assert MarkerFile(t[1..], file) == Some(m);
    }
  }

  /** After a manual watering, get_last_watered reads back "Last watered " and str(at). */
  lemma LastWateredAfterManual(before: seq<Command>, delay: nat, at: DateTime, file: Option<string>)
    requires ValidDateTime(at)
    ensures Water.GetLastWatered(MarkerFile(before + PumpCommands(delay, at), file)) == Water.MarkerText(IsoText(at))
  {
    var t := PumpCommands(delay, at);
    var m := Water.MarkerText(IsoText(at));
    Water.MarkerFileAppend(before, t, file);
    PumpCommandsSteps(delay, m, t);
    Water.MarkerTextOneLine(IsoText(at));
  }

  // ---------------------------------------------------------------------------
  // The schedule

  /** view_schedule's reply: the "no schedule" text when the schedule is missing or
      empty (Python's falsy values here), otherwise the schedule after a prefix. */
  function ScheduleMessage(schedule: Option<string>): (m: string)
    ensures m == NoScheduleText <==> schedule.None? || schedule.value == ""
    ensures schedule.Some? && schedule.value != "" ==> m == SchedulePrefix + schedule.value
  {
    if schedule.Some? && schedule.value != "" then
      var m := SchedulePrefix + schedule.value;
      assert m[0] != NoScheduleText[0];
      m
    else NoScheduleText
  }

  /** The time handle_set_schedule stores for message text: the argument after
      "/setSchedule ", when there is one and it is a valid HH:MM. */
  function Requested(text: string): (a: Option<string>)
    ensures a.Some? ==> exists h: nat, m: nat :: h < 24 && m < 60 && (a.value == ClockText(h, m) || a.value == ClockText(h, m) + "\n")
    ensures a.Some? ==> SecondField(text, SetScheduleSeparator) == a
    ensures a.None? ==> SecondField(text, SetScheduleSeparator).None? ||
                        !IsValidTimeFormat(SecondField(text, SetScheduleSeparator).value)
  {
    match SecondField(text, SetScheduleSeparator)
    case None => None
    case Some(t) => if IsValidTimeFormat(t) then Some(t) else None
  }

  /** A valid time is too short to hold the separator. */
  lemma ValidTimeHasNoSeparator(t: string)
    requires IsValidTimeFormat(t)
    ensures forall p: nat :: !OccursAt(t, SetScheduleSeparator, p)
  {
  }

  /** "/setSchedule " and a valid time stores exactly that time. */
  lemma ValidScheduleCommandAccepted(t: string)
    requires IsValidTimeFormat(t)
    ensures Requested(SetScheduleSeparator + t) == Some(t)
  {
    ValidTimeHasNoSeparator(t);
    ScheduleCommandAccepted(t);
  }

  /** A valid time followed by a second "/setSchedule " is still the time stored:
      the argument ends where the separator occurs again. */
  lemma ArgumentEndsAtSeparator(t: string, rest: string)
    requires IsValidTimeFormat(t)
    ensures Requested(SetScheduleSeparator + t + SetScheduleSeparator + rest) == Some(t)
  {
    var sep := SetScheduleSeparator;
    var s := sep + t + sep + rest;
    var end := |sep| + |t|;
    assert OccursAt(s, sep, 0) by {
      assert s[0..|sep|] == sep;
    }
    assert FindFrom(s, sep, 0) == Some(0);
    assert OccursAt(s, sep, end) by {
      assert s[end..end + |sep|] == sep;
    }
    assert forall j :: |sep| <= j < end ==> s[j] == t[j - |sep|] && t[j - |sep|] != '/';
    assert FindFrom(s, sep, |sep|) == Some(end) by {
      FindAfterNoStart(s, sep, |sep|, end);
    }
    assert s[|sep|..end] == t;
  }

  /** Where sep's first letter does not occur from start on until e, and sep occurs
      at e, the first occurrence at or after start is e. */
  lemma {:induction false} FindAfterNoStart(s: string, sep: string, start: nat, e: nat)
    requires |sep| > 0 && start <= e && OccursAt(s, sep, e)
    requires forall j :: start <= j < e ==> s[j] != sep[0]
    ensures FindFrom(s, sep, start) == Some(e)
    decreases e - start
  {
    if start < e {
      OtherLetterNoOccurrence(s, sep, start);
      FindAfterNoStart(s, sep, start + 1, e);
    }
  }

  lemma OtherLetterNoOccurrence(s: string, sep: string, k: nat)
    requires |sep| > 0 && k < |s| && s[k] != sep[0]
    ensures !OccursAt(s, sep, k)
  {
    if k + |sep| <= |s| {
      assert s[k..k + |sep|][0] == s[k];
    }
  }

  /** "/setSchedule HH:MM" stores exactly HH:MM; the same command with an invalid
      time (one that does not itself contain the separator) stores nothing. */
  lemma ScheduleCommandAccepted(t: string)
    requires forall p: nat :: !OccursAt(t, SetScheduleSeparator, p)
    ensures Requested(SetScheduleSeparator + t) == if IsValidTimeFormat(t) then Some(t) else None
  {
    ArgumentOfCommand(t);
  }

  /** The effects of the pin-free steps leave the pin trace as it was. */
  lemma PinFree(before: seq<Effect>, added: seq<Effect>)
    requires forall k :: 0 <= k < |added| ==> !added[k].Pin?
    ensures PinCommands(before + added) == PinCommands(before)
  {
    PinCommandsAppend(before, added);
    PinCommandsNone(added);
  }

  lemma {:induction false} PinCommandsNone(e: seq<Effect>)
    requires forall k :: 0 <= k < |e| ==> !e[k].Pin?
    ensures PinCommands(e) == []
  {
    if e != [] {
      PinCommandsNone(e[..|e| - 1]);
    }
  }

  /** A run of the pump, appended to any history, leaves the pump off. */
  lemma PumpOffAfter(before: seq<Effect>, delay: nat, at: DateTime)
    requires ValidDateTime(at)
    ensures LastLevel(PinCommands(before + AsEffects(PumpCommands(delay, at))), PumpPin) == Some(High)
  {
    var t := PumpCommands(delay, at);
    PinCommandsAppend(before, AsEffects(t));
    LastLevelAppend(PinCommands(before), t, PumpPin);
    PumpCommandsSteps(delay, Water.MarkerText(IsoText(at)), t);
  }

  class Bot {
    /** The watering schedule, None when none was ever stored. */
    var schedule: Option<string>
    /** The event log, oldest first. */
    var moistureData: seq<Event>
    /** What the bot has done to the world so far, oldest first. */
    var effects: seq<Effect>

    /** The last level written to the pump pin is HIGH: the pump is off. */
    predicate PumpOff()
      reads this
    {
      LastLevel(PinCommands(effects), PumpPin) == Some(High)
    }

    /** Start-up: the stored schedule and log (None when the file is absent), and
        the pump switched off. */
    constructor(storedSchedule: Option<string>, storedLog: Option<seq<Event>>)
      ensures schedule == storedSchedule && moistureData == storedLog.GetOr([])
      ensures effects == [Pin(Output(PumpPin, High))]
      ensures PumpOff()
    {
      schedule := storedSchedule;
      moistureData := storedLog.GetOr([]);
      effects := [Pin(Output(PumpPin, High))];
      new;
      var off := [Output(PumpPin, High)];
      assert effects[..0] == [] && off[..0] == [];
      assert PinCommands(effects) == off;
      assert LastLevel(off, PumpPin) == Some(High);
    }

    /** set_schedule: store the time, save it, confirm it. */
    method SetSchedule(time: string)
      modifies this
      ensures schedule == Some(time) && moistureData == old(moistureData)
      ensures effects == old(effects) + [SaveSchedule(time), Message(ScheduleSetPrefix + time)]
      ensures PumpOff() == old(PumpOff())
    {
      schedule := Some(time);
      PinFree(effects, [SaveSchedule(time), Message(ScheduleSetPrefix + time)]);
      effects := effects + [SaveSchedule(time), Message(ScheduleSetPrefix + time)];
    }

    /** handle_set_schedule: store the argument when it is a valid time; otherwise
        reply with the usage text (no argument) or the format text (bad argument). */
    method HandleSetSchedule(text: string)
      modifies this
      ensures schedule == if Requested(text).Some? then Requested(text) else old(schedule)
      ensures moistureData == old(moistureData)
      ensures SecondField(text, SetScheduleSeparator).None? ==> effects == old(effects) + [Message(UsageText)]
      ensures SecondField(text, SetScheduleSeparator).Some? && Requested(text).None? ==>
                effects == old(effects) + [Message(InvalidTimeText)]
      ensures Requested(text).Some? ==>
                effects == old(effects) + [SaveSchedule(Requested(text).value), Message(ScheduleSetPrefix + Requested(text).value)]
      ensures PumpOff() == old(PumpOff())
    {
      var argument := SecondField(text, SetScheduleSeparator);
      if argument.None? {
        PinFree(effects, [Message(UsageText)]);
        effects := effects + [Message(UsageText)];
      } else if IsValidTimeFormat(argument.value) {
        SetSchedule(argument.value);
      } else {
        PinFree(effects, [Message(InvalidTimeText)]);
        effects := effects + [Message(InvalidTimeText)];
      }
    }

    /** view_schedule (handle_view_schedule). */
    method ViewSchedule()
      modifies this
      ensures schedule == old(schedule) && moistureData == old(moistureData)
      ensures effects == old(effects) + [Message(ScheduleMessage(schedule))]
      ensures PumpOff() == old(PumpOff())
    {
      PinFree(effects, [Message(ScheduleMessage(schedule))]);
      effects := effects + [Message(ScheduleMessage(schedule))];
    }

    /** log_watering_event: append one entry stamped with now and save the log. */
    method LogWateringEvent(manual: bool, now: DateTime, level: Level)
      requires ValidDateTime(now)
      modifies this
      ensures moistureData == old(moistureData) + [NewEvent(now, manual, level)]
      ensures schedule == old(schedule)
      ensures effects == old(effects) + [SaveLog(moistureData)]
      ensures PumpOff() == old(PumpOff())
    {
      moistureData := moistureData + [NewEvent(now, manual, level)];
      PinFree(effects, [SaveLog(moistureData)]);
      effects := effects + [SaveLog(moistureData)];
    }

    /** pump_on: run the pump, switch it off, write the marker with at. */
    method PumpOn(delay: nat, at: DateTime)
      requires ValidDateTime(at)
      modifies this
      ensures effects == old(effects) + AsEffects(PumpCommands(delay, at))
      ensures schedule == old(schedule) && moistureData == old(moistureData)
      ensures PumpOff()
    {
      PumpOffAfter(effects, delay, at);
      effects := effects + AsEffects(PumpCommands(delay, at));
    }

    /** water_now (handle_water_now): pump, tell the operator, log a manual
        watering. The marker carries the time of the pump run, the log entry the
        later time of the logging. */
    method WaterNow(pumpedAt: DateTime, loggedAt: DateTime, level: Level)
      requires ValidDateTime(pumpedAt) && ValidDateTime(loggedAt)
      modifies this
      ensures effects == old(effects) + AsEffects(PumpCommands(ManualPumpSeconds, pumpedAt)) +
                         [Message(ManualWateringText), SaveLog(moistureData)]
      ensures moistureData == old(moistureData) + [NewEvent(loggedAt, true, level)]
      ensures schedule == old(schedule)
      ensures PumpOff()
    {
      PumpOn(ManualPumpSeconds, pumpedAt);
      PinFree(effects, [Message(ManualWateringText)]);
      effects := effects + [Message(ManualWateringText)];
      LogWateringEvent(true, loggedAt, level);
    }

    /** generate_weekly_report (handle_generate_report): write the rows of the last
        week, announce them and send them; a malformed timestamp aborts it before
        anything is written. */
    method GenerateWeeklyReport(now: DateTime)
      requires ValidDateTime(now)
      modifies this
      ensures schedule == old(schedule) && moistureData == old(moistureData)
      ensures WeeklyReport(moistureData, now).Ok? ==>
                effects == old(effects) + [ReportFile(WeeklyReport(moistureData, now).value), Message(ReportText), SendReport]
      ensures WeeklyReport(moistureData, now).Err? ==> effects == old(effects)
      ensures PumpOff() == old(PumpOff())
    {
      var report := WeeklyReport(moistureData, now);
      if report.Ok? {
        var added := [ReportFile(report.value), Message(ReportText), SendReport];
        PinFree(effects, added);
        effects := effects + added;
      }
    }
  }
}
