/** The moisture/watering event log and the weekly report filter over it. */
module Events {

  import opened Wrappers
  import opened Trace
  import opened Timestamps

  /** One log entry: when (as `%Y-%m-%d %H:%M` text), whether it was a manual
      watering, and the sensor level read at the time (Low wet, High dry). */
  datatype Event = Event(timestamp: string, manual: bool, moistureLevel: Level)

  /** The entry log_watering_event builds at instant now. */
  function NewEvent(now: DateTime, manual: bool, level: Level): (e: Event)
    requires ValidDateTime(now)
    ensures Parse(e.timestamp) == Some(now.stamp)
    ensures e.manual == manual && e.moistureLevel == level
  {
    ParseFormat(now.stamp);
    Event(Format(now.stamp), manual, level)
  }

  /** strptime accepts the entry's timestamp. */
  predicate Readable(e: Event) {
    Parse(e.timestamp).Some?
  }

  predicate WellFormed(log: seq<Event>) {
    forall i :: 0 <= i < |log| ==> Readable(log[i])
  }

  /** now - timedelta(days=7), as an instant. */
  function Cutoff(now: DateTime): int
    requires ValidDateTime(now)
  {
    Micros(now) - WeekMicros
  }

  /** The entry is readable and strictly later than one week before now. */
  predicate Kept(e: Event, now: DateTime)
    requires ValidDateTime(now)
  {
    Readable(e) && StampMicros(Parse(e.timestamp).value) > Cutoff(now)
  }

  /** The first entry at or after index from whose timestamp strptime rejects. */
  function FirstUnreadable(log: seq<Event>, from: nat): (r: Option<nat>)
    requires from <= |log|
    ensures r.None? <==> forall i :: from <= i < |log| ==> Readable(log[i])
    ensures r.Some? ==> from <= r.value < |log| && !Readable(log[r.value])
    ensures r.Some? ==> forall i :: from <= i < r.value ==> Readable(log[i])
    decreases |log| - from
  {
    if from == |log| then None
    else if !Readable(log[from]) then Some(from)
    else FirstUnreadable(log, from + 1)
  }

  /** The entries kept by the filter of generate_weekly_report, in log order. */
  function Recent(log: seq<Event>, now: DateTime): (r: seq<Event>)
    requires ValidDateTime(now)
    ensures |r| <= |log|
    ensures forall e :: e in r ==> e in log && Kept(e, now)
  {
    if log == [] then []
    else
      var n: nat := |log| - 1;
      var rest := Recent(log[..n], now);
      if Kept(log[n], now) then rest + [log[n]] else rest
  }

  /** The list comprehension of generate_weekly_report: the entries later than
      one week ago, in log order; or Err(i) when entry i is the first whose
      timestamp strptime rejects (the ValueError that aborts the report). */
  function WeeklyReport(log: seq<Event>, now: DateTime): (r: Result<seq<Event>, nat>)
    requires ValidDateTime(now)
    ensures r.Ok? <==> WellFormed(log)
    ensures r.Err? ==> r.error < |log| && !Readable(log[r.error])
    ensures r.Err? ==> forall i :: 0 <= i < r.error ==> Readable(log[i])
    ensures r.Ok? ==> |r.value| <= |log|
  {
    match FirstUnreadable(log, 0)
    case Some(i) => Err(i)
    case None => Ok(Recent(log, now))
  }

  /** A non-empty log is well formed when its earlier entries and its last are. */
  lemma WellFormedSplit(log: seq<Event>)
    requires log != []
    ensures WellFormed(log) <==> WellFormed(log[..|log| - 1]) && Readable(log[|log| - 1])
  {
    var init := log[..|log| - 1];
    assert forall i :: 0 <= i < |init| ==> init[i] == log[i];
  }

  /** Appending one entry extends the report by that entry when it is kept, and
      leaves it as it was when it is not. */
  lemma ReportAfterAppend(log: seq<Event>, e: Event, now: DateTime)
    requires ValidDateTime(now) && WellFormed(log) && Readable(e)
    ensures WeeklyReport(log + [e], now) ==
            Ok(if Kept(e, now) then WeeklyReport(log, now).value + [e] else WeeklyReport(log, now).value)
  {
    var extended := log + [e];
    assert extended[..|log|] == log && extended[|log|] == e;
    WellFormedSplit(extended);
    assert WeeklyReport(log, now) == Ok(Recent(log, now));
    assert WeeklyReport(extended, now) == Ok(Recent(extended, now));
  }

  /** a is drawn from b at the strictly increasing positions idx. */
  predicate Selects(b: seq<Event>, idx: seq<nat>, a: seq<Event>) {
    |idx| == |a| &&
    (forall k :: 0 <= k < |idx| ==> idx[k] < |b| && b[idx[k]] == a[k]) &&
    (forall k, l :: 0 <= k < l < |idx| ==> idx[k] < idx[l])
  }

  /** A selection from b is one from b extended, with or without the new last element. */
  lemma SelectsExtend(b: seq<Event>, idx: seq<nat>, a: seq<Event>, x: Event)
    requires Selects(b, idx, a)
    ensures Selects(b + [x], idx, a)
    ensures Selects(b + [x], idx + [|b|], a + [x])
  {
    var b', idx', a' := b + [x], idx + [|b|], a + [x];
    forall k | 0 <= k < |idx'|
      ensures idx'[k] < |b'| && b'[idx'[k]] == a'[k]
    {
      if k < |idx| {
        assert idx'[k] == idx[k] && a'[k] == a[k];
      }
    }
  }

  /** The positions the report draws from: exactly those of the kept entries. */
  lemma {:induction false} ReportPositions(log: seq<Event>, now: DateTime) returns (idx: seq<nat>)
    requires ValidDateTime(now) && WellFormed(log)
    ensures Selects(log, idx, WeeklyReport(log, now).value)
    ensures forall i :: 0 <= i < |log| ==> (i in idx <==> Kept(log[i], now))
  {
    if log == [] {
      idx := [];
    } else {
      var n: nat := |log| - 1;
      var init, last := log[..n], log[n];
      assert log == init + [last];
      assert WellFormed(init) by {
        assert forall i :: 0 <= i < n ==> init[i] == log[i];
      }
      var prev := ReportPositions(init, now);
      ReportAfterAppend(init, last, now);
      SelectsExtend(init, prev, WeeklyReport(init, now).value, last);
      var keep := Kept(last, now);
      idx := if keep then prev + [n] else prev;
      PositionsExtend(prev, n, keep, idx);
      forall i | 0 <= i < |log|
        ensures i in idx <==> Kept(log[i], now)
      {
        if i < n {
          assert log[i] == init[i];
          assert i in idx <==> i in prev;
        } else {
          assert log[i] == last && i == n;
        }
      }
    }
  }

  /** Extending a list of positions below n by n, or not, keeps the old ones. */
  lemma PositionsExtend(prev: seq<nat>, n: nat, keepLast: bool, idx: seq<nat>)
    requires forall k :: 0 <= k < |prev| ==> prev[k] < n
    requires idx == if keepLast then prev + [n] else prev
    ensures forall i :: 0 <= i < n ==> (i in idx <==> i in prev)
    ensures n in idx <==> keepLast
  {
    assert n !in prev;
  }

  /** The report is an order-preserving selection from the log that keeps an
      entry exactly when it is later than one week ago. */
  lemma ReportIsFilter(log: seq<Event>, now: DateTime)
    requires ValidDateTime(now) && WellFormed(log)
    ensures exists idx :: Selects(log, idx, WeeklyReport(log, now).value) &&
                          forall i :: 0 <= i < |log| ==> (i in idx <==> Kept(log[i], now))
  {
    var idx := ReportPositions(log, now);
  }

  /** Every row of the report is a kept entry of the log, and every kept entry
      appears in it as often as in the log. */
  lemma {:induction false} ReportCounts(log: seq<Event>, now: DateTime)
    requires ValidDateTime(now) && WellFormed(log)
    ensures forall e :: multiset(WeeklyReport(log, now).value)[e] == if Kept(e, now) then multiset(log)[e] else 0
  {
    if log != [] {
      var n := |log| - 1;
      var init, last := log[..n], log[n];
      assert log == init + [last];
      ReportCounts(init, now);
      ReportAfterAppend(init, last, now);
    }
  }

  /** Appending an entry made by NewEvent keeps the log readable. */
  lemma LoggedEventReadable(log: seq<Event>, now: DateTime, manual: bool, level: Level)
    requires ValidDateTime(now) && WellFormed(log)
    ensures WellFormed(log + [NewEvent(now, manual, level)])
  {
  }

  /** An entry logged at instant at is reported at any later now less than a
      week after at's minute began (the seconds are dropped by the format). */
  lemma RecentEventReported(log: seq<Event>, at: DateTime, manual: bool, level: Level, now: DateTime)
    requires ValidDateTime(at) && ValidDateTime(now) && WellFormed(log)
    requires Micros(now) < StampMicros(at.stamp) + WeekMicros
    ensures var e := NewEvent(at, manual, level);
            WeeklyReport(log + [e], now) == Ok(WeeklyReport(log, now).value + [e])
  {
    ReportAfterAppend(log, NewEvent(at, manual, level), now);
  }

  /** An entry logged a week or more before now (counted from its minute) is
      left out of the report. */
  lemma StaleEventDropped(log: seq<Event>, at: DateTime, manual: bool, level: Level, now: DateTime)
    requires ValidDateTime(at) && ValidDateTime(now) && WellFormed(log)
    requires StampMicros(at.stamp) + WeekMicros <= Micros(now)
    ensures WeeklyReport(log + [NewEvent(at, manual, level)], now) == WeeklyReport(log, now)
  {
    ReportAfterAppend(log, NewEvent(at, manual, level), now);
  }
}
