/** The externally visible steps the controller takes, recorded in order.
    RPi.GPIO calls become entries of a trace instead of hardware writes. */
module Trace {

  import opened Wrappers

  /** A digital level as RPi.GPIO reads and writes it: LOW is 0, HIGH is 1.
      The pump relay is active-low: LOW runs the pump, HIGH stops it. */
  datatype Level = Low | High

  /** One step, in the order the program takes it. */
  datatype Command =
    | Output(pin: nat, level: Level)  // GPIO.output(pin, level)
    | Sleep(seconds: nat)             // time.sleep(seconds)
    | WriteMarker(text: string)       // overwrite last_watered.txt with text

  /** The levels written to `pin`, in the order written. */
  function Levels(t: seq<Command>, pin: nat): (r: seq<Level>)
    ensures |r| <= |t|
  {
    if t == [] then []
    else (if t[0].Output? && t[0].pin == pin then [t[0].level] else []) + Levels(t[1..], pin)
  }

  /** How many times the trace overwrites the last-watered marker. */
  function Markers(t: seq<Command>): (n: nat)
    ensures n <= |t|
  {
    if t == [] then 0 else (if t[0].WriteMarker? then 1 else 0) + Markers(t[1..])
  }

  lemma {:induction false} MarkersAppend(a: seq<Command>, b: seq<Command>)
    ensures Markers(a + b) == Markers(a) + Markers(b)
  {
    if a == [] {
      assert a + b == b;
    } else {
      assert (a + b)[1..] == a[1..] + b;
      MarkersAppend(a[1..], b);
    }
  }

  /** The content of the marker file after the trace ran on a file holding `file`
      (None: no file): the last text written, since every write truncates. */
  function MarkerFile(t: seq<Command>, file: Option<string>): (r: Option<string>)
    ensures Markers(t) == 0 ==> r == file
    ensures Markers(t) > 0 ==> r.Some? && WriteMarker(r.value) in t
  {
    if t == [] then file
    else MarkerFile(t[1..], if t[0].WriteMarker? then Some(t[0].text) else file)
  }

  /** When a trace writes the marker, the file ends up holding the text of its last
      write: the write at some index k with no write after it. */
  lemma {:induction false} MarkerFileLastWrite(t: seq<Command>, file: Option<string>) returns (k: nat)
    requires Markers(t) > 0
    ensures k < |t| && t[k].WriteMarker? && Markers(t[k + 1..]) == 0
    ensures MarkerFile(t, file) == Some(t[k].text)
  {
    var next := if t[0].WriteMarker? then Some(t[0].text) else file;
    if Markers(t[1..]) == 0 {
      k := 0;
    } else {
      var j := MarkerFileLastWrite(t[1..], next);
      k := j + 1;
      assert t[1..][j + 1..] == t[k + 1..];
    }
  }

  /** Once a trace writes the marker, what the file held before no longer matters. */
  lemma {:induction false} MarkerFileOverwritten(t: seq<Command>, file: Option<string>)
    requires Markers(t) > 0
    ensures MarkerFile(t, file) == MarkerFile(t, None)
  {
    if !t[0].WriteMarker? {
      MarkerFileOverwritten(t[1..], file);
      MarkerFileOverwritten(t[1..], None);
    }
  }

  /** The level last written to pin, if any. */
  function LastLevel(t: seq<Command>, pin: nat): Option<Level> {
    if t == [] then None
    else
      var c := t[|t| - 1];
      if c.Output? && c.pin == pin then Some(c.level) else LastLevel(t[..|t| - 1], pin)
  }

  lemma {:induction false} LastLevelAppend(a: seq<Command>, b: seq<Command>, pin: nat)
    ensures LastLevel(a + b, pin) == if LastLevel(b, pin).Some? then LastLevel(b, pin) else LastLevel(a, pin)
    decreases |b|
  {
    if b == [] {
      assert a + b == a;
    } else {
      assert (a + b)[..|a + b| - 1] == a + b[..|b| - 1];
      LastLevelAppend(a, b[..|b| - 1], pin);
    }
  }
}
