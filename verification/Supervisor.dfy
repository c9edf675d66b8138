/**
 The executor's watch over the worker's output: event handlers that update flags,
 a line buffer and a byte count, until the child closes.  The specification is a
 fold over lines; the theorems say that cutting the stream into chunks does not
 matter and that the accepted streams are exactly the ten-line transcripts.
 */
module Supervisor {
  import opened Wrappers
  import opened Messages
  import Lines
  import Utf8
  type Byte = Utf8.Byte

  const OUTPUT_LIMIT := 2048

  /** What the handlers remember between events. */
  datatype Watch = Watch(
    ready: bool, validated: bool, done: bool, aborted: bool,
    dir: Option<Identity>, records: map<nat, Identity>,
    output: string, outputBytes: nat)

  const START := Watch(false, false, false, false, None, map[], "", 0)

  /** toString("ascii") keeps the low seven bits of every byte. */
  function Ascii(bytes: seq<Byte>): string {
    seq(|bytes|, k requires 0 <= k < |bytes| => (bytes[k] % 128) as char)
  }

  /** A byte from 128 on is read as the character 128 below it: the transcript may be spelled in both. */
  lemma HighBitIgnored(bytes: seq<Byte>, k: nat)
    requires k < |bytes|
    ensures |Ascii(bytes)| == |bytes|
    ensures Ascii(bytes)[k] as int == if bytes[k] < 128 then bytes[k] else bytes[k] - 128
  {
  }

  /** The handling of one line.  `admit` is whether, at READY, the directory and
      time checks pass and the approval is consumed. */
  function Step(w: Watch, m: Message, admit: bool): Watch {
    if m.Ready? && !w.ready then
      if admit then w.(ready := true) else w.(aborted := true)
    else if m.Valid? && w.ready && !w.validated then w.(validated := true)
    else if m.Dir? && w.validated && w.dir.None? then w.(dir := Some(m.identity))
    else if m.File? && w.dir.Some? then
      if m.index in w.records then w.(aborted := true)
      else w.(records := w.records[m.index := m.identity])
    else if m.Done? && |w.records| == FILE_COUNT && !w.done then w.(done := true)
    else w.(aborted := true)
  }

  /** Handles the complete lines in the buffer; stops at an abort. */
  function Drain(w: Watch, admit: bool): Watch
    decreases |w.output|
  {
    var k := Lines.IndexOf(w.output, '\n');
    if k == |w.output| || w.aborted then w
    else Drain(Step(w.(output := w.output[k + 1..]), Read(w.output[..k]), admit), admit)
  }

  datatype Event = Stdout(chunk: seq<Byte>) | Stderr(chunk: seq<Byte>) | Kill

  function Handle(w: Watch, e: Event, admit: bool): Watch {
    match e
    case Kill => w.(aborted := true)
    case Stderr(chunk) =>
      var n := w.outputBytes + |chunk|;
      w.(outputBytes := n, aborted := w.aborted || n > OUTPUT_LIMIT)
    case Stdout(chunk) =>
      var n := w.outputBytes + |chunk|;
      if w.aborted then w
      else if n > OUTPUT_LIMIT then w.(outputBytes := n, aborted := true)
      else Drain(w.(outputBytes := n, output := w.output + Ascii(chunk)), admit)
  }

  function Run(events: seq<Event>, admit: bool): Watch {
    if events == [] then START
    else Handle(Run(events[..|events| - 1], admit), events[|events| - 1], admit)
  }

  /** What the promise resolves to when the child closes, and the check after it; `inTime` is whether
      the overall time has not run out by then. */
  predicate Accepted(w: Watch, code: int, inTime: bool) {
    && !w.aborted && code == 0 && inTime && w.ready && w.validated && w.done && |w.records| == FILE_COUNT
    && w.output == ""
  }

  // ---- The handlers -------------------------------------------------------

  class Handlers {
    var ready: bool
    var validated: bool
    var done: bool
    var aborted: bool
    var recordedDir: Option<Identity>
    var records: map<nat, Identity>
    var output: string
    var outputBytes: nat

    function State(): Watch
      reads this
    {
      Watch(ready, validated, done, aborted, recordedDir, records, output, outputBytes)
    }

    constructor ()
      ensures State() == START
    {
      ready, validated, done, aborted := false, false, false, false;
      recordedDir, records, output, outputBytes := None, map[], "", 0;
    }

    /** A timer, or an error on the child's stdin. */
    method OnKill()
      modifies this
      ensures State() == Handle(old(State()), Kill, false)
    {
      aborted := true;
    }

    method OnStderr(chunk: seq<Byte>)
      modifies this
      ensures State() == Handle(old(State()), Stderr(chunk), false)
    {
      outputBytes := outputBytes + |chunk|;
      if outputBytes > 2048 { aborted := true; }
    }

    method OnStdout(chunk: seq<Byte>, admit: bool)
      modifies this
      ensures State() == Handle(old(State()), Stdout(chunk), admit)
    {
      hide Step, Read, Ascii, Lines.IndexOf;
      if aborted { return; }
      outputBytes := outputBytes + |chunk|;
      if outputBytes > 2048 {
        aborted := true;
        return;
      }
      output := output + Ascii(chunk);
      while '\n' in output
        invariant Drain(State(), admit) == Handle(old(State()), Stdout(chunk), admit)
        decreases |output|
      {
        var newline := Lines.IndexOf(output, '\n');
        if aborted { break; }
        var line := output[..newline];
        output := output[newline + 1..];
        OnLine(line, admit);
      }
    }

    method OnLine(line: string, admit: bool)
      modifies this
      ensures State() == Step(old(State()), Read(line), admit)
      ensures output == old(output)
    {
      var m := Read(line);
      if line == "READY" && !ready {
        if admit { ready := true; } else { aborted := true; }
      } else if line == "VALID" && ready && !validated {
        validated := true;
      } else if m.Dir? && validated && recordedDir.None? {
        recordedDir := Some(m.identity);
      } else if m.File? && recordedDir.Some? {
        if m.index in records { aborted := true; } else { records := records[m.index := m.identity]; }
      } else if line == "DONE" && |records| == 6 && !done {
        done := true;
      } else {
        aborted := true;
      }
    }

    /** The child has closed and its output has been delivered. */
    method OnClose(code: int, inTime: bool) returns (accepted: bool)
      ensures accepted == Accepted(State(), code, inTime)
    {
      accepted := !aborted && code == 0 && ready && validated && done && |records| == 6;
      accepted := accepted && |output| == 0 && inTime;
    }
  }

  // ---- Chunks do not matter -----------------------------------------------

  function StdoutText(events: seq<Event>): string {
    if events == [] then ""
    else
      var e := events[|events| - 1];
      StdoutText(events[..|events| - 1]) + (if e.Stdout? then Ascii(e.chunk) else "")
  }

  function TotalBytes(events: seq<Event>): nat {
    if events == [] then 0
    else
      var e := events[|events| - 1];
      TotalBytes(events[..|events| - 1]) + (if e.Kill? then 0 else |e.chunk|)
  }

  ghost predicate Killed(events: seq<Event>) {
    Kill in events
  }

  /** The watch after a whole text delivered at once. */
  function Whole(text: string, bytes: nat, admit: bool): Watch {
    Drain(START.(output := text, outputBytes := bytes), admit)
  }

  lemma DrainKeepsAbort(w: Watch, admit: bool)
    requires w.aborted
    ensures Drain(w, admit).aborted
  {
  }

  lemma DrainKeepsBytes(w: Watch, admit: bool)
    ensures Drain(w, admit).outputBytes == w.outputBytes
    decreases |w.output|
  {
    hide Step, Read, Lines.IndexOf;
    var k := Lines.IndexOf(w.output, '\n');
    if k < |w.output| && !w.aborted {
      StepIgnores(w.(output := w.output[k + 1..]), Read(w.output[..k]), admit, "", 0);
      DrainKeepsBytes(Step(w.(output := w.output[k + 1..]), Read(w.output[..k]), admit), admit);
    }
  }

  lemma StepIgnores(w: Watch, m: Message, admit: bool, text: string, bytes: nat)
    ensures Step(w, m, admit).output == w.output && Step(w, m, admit).outputBytes == w.outputBytes
    ensures Step(w.(output := text, outputBytes := bytes), m, admit) ==
            Step(w, m, admit).(output := text, outputBytes := bytes)
  {
    var v := w.(output := text, outputBytes := bytes);
    assert v.records == w.records;
  }

  /** Draining, then receiving more and draining again, is draining once. */
  lemma DrainAppend(w: Watch, more: string, bytes: nat, admit: bool)
    ensures
      var d := Drain(w, admit);
      var once := Drain(w.(output := w.output + more, outputBytes := bytes), admit);
      if d.aborted then once.aborted
      else once == Drain(d.(output := d.output + more, outputBytes := bytes), admit)
    decreases |w.output|
  {
    hide Drain, Step, Read, Lines.IndexOf;
    var k := Lines.IndexOf(w.output, '\n');
    if w.aborted {
      DrainStops(w, admit);
      DrainKeepsAbort(w.(output := w.output + more, outputBytes := bytes), admit);
    } else if k == |w.output| {
      DrainStops(w, admit);
    } else {
      var line, rest := w.output[..k], w.output[k + 1..];
      var v := w.(output := rest);
      assert w.output == line + ['\n'] + rest;
      DrainFirstLine(w, line, rest, admit);
      assert w.output + more == line + ['\n'] + (rest + more);
      DrainFirstLine(w.(output := w.output + more, outputBytes := bytes), line, rest + more, admit);
      StepIgnores(v, Read(line), admit, rest + more, bytes);
      DrainAppend(Step(v, Read(line), admit), more, bytes, admit);
    }
  }

  lemma DrainStops(w: Watch, admit: bool)
    requires w.aborted || Lines.IndexOf(w.output, '\n') == |w.output|
    ensures Drain(w, admit) == w
  {
  }

  lemma DrainFirstLine(w: Watch, line: string, rest: string, admit: bool)
    requires !w.aborted && w.output == line + ['\n'] + rest && Lines.NoNewline(line)
    ensures Drain(w, admit) == Drain(Step(w.(output := rest), Read(line), admit), admit)
  {
    hide Step, Read, Lines.IndexOf;
    Lines.IndexOfPrefix(line, '\n', rest);
    assert w.output[..|line|] == line && w.output[|line| + 1..] == rest;
  }

  /** `w` is what watching a text leaves, unless something aborted the watch. */
  ghost predicate Watched(w: Watch, text: string, bytes: nat, killed: bool, admit: bool) {
    var whole := Whole(text, bytes, admit);
    && (w.aborted <==> whole.aborted || killed || bytes > OUTPUT_LIMIT)
    && (!w.aborted ==> w == whole)
  }

  lemma WatchedStdout(w: Watch, text: string, bytes: nat, killed: bool, chunk: seq<Byte>, admit: bool)
    requires Watched(w, text, bytes, killed, admit)
    ensures Watched(Handle(w, Stdout(chunk), admit), text + Ascii(chunk), bytes + |chunk|, killed, admit)
  {
    hide Drain, Ascii, Whole;
    WholeAppend(text, Ascii(chunk), bytes, bytes + |chunk|, admit);
  }

  lemma WatchedStderr(w: Watch, text: string, bytes: nat, killed: bool, chunk: seq<Byte>, admit: bool)
    requires Watched(w, text, bytes, killed, admit)
    ensures Watched(Handle(w, Stderr(chunk), admit), text, bytes + |chunk|, killed, admit)
  {
    hide Drain, Ascii, Whole;
    WholeAppend(text, "", bytes, bytes + |chunk|, admit);
    assert text + "" == text;
  }

  /** Whatever the chunks: unless it is aborted, the watch is the one a single chunk gives. */
  lemma ChunksDoNotMatter(events: seq<Event>, admit: bool)
    ensures Watched(Run(events, admit), StdoutText(events), TotalBytes(events), Killed(events), admit)
    decreases |events|
  {
    hide Handle, Watched, Ascii;
    if events == [] {
      NothingWatched(admit);
    } else {
      var n := |events| - 1;
      var before, e := events[..n], events[n];
      ChunksDoNotMatter(before, admit);
      assert Killed(events) <==> Killed(before) || e.Kill? by { assert events == before + [e]; }
      var w, text, bytes := Run(before, admit), StdoutText(before), TotalBytes(before);
      assert text + "" == text;
      match e {
        case Kill => WatchedKill(w, text, bytes, Killed(before), admit);
        case Stdout(chunk) => WatchedStdout(w, text, bytes, Killed(before), chunk, admit);
        case Stderr(chunk) => WatchedStderr(w, text, bytes, Killed(before), chunk, admit);
      }
    }
  }

  lemma NothingWatched(admit: bool)
    ensures Watched(START, "", 0, false, admit)
  {
  }

  lemma WatchedKill(w: Watch, text: string, bytes: nat, killed: bool, admit: bool)
    requires Watched(w, text, bytes, killed, admit)
    ensures Watched(Handle(w, Kill, admit), text, bytes, true, admit)
  {
  }

  lemma WholeAppend(text: string, more: string, bytes: nat, bytes': nat, admit: bool)
    ensures
      var d := Whole(text, bytes, admit);
      var once := Whole(text + more, bytes', admit);
      && d.outputBytes == bytes
      && (d.aborted ==> once.aborted)
      && (!d.aborted ==> once == Drain(d.(output := d.output + more, outputBytes := bytes'), admit))
      && (!d.aborted && more == "" ==> once == d.(outputBytes := bytes'))
  {
    hide Step, Drain, Read;
    DrainAppend(START.(output := text, outputBytes := bytes), more, bytes', admit);
    DrainKeepsBytes(START.(output := text, outputBytes := bytes), admit);
    if more == "" && !Whole(text, bytes, admit).aborted {
      DrainedStays(START.(output := text, outputBytes := bytes), admit, bytes');
    }
  }

  lemma DrainedStays(w: Watch, admit: bool, bytes: nat)
    ensures var d := Drain(w, admit);
            && d.output + "" == d.output
            && (!d.aborted ==> Drain(d.(outputBytes := bytes), admit) == d.(outputBytes := bytes))
    decreases |w.output|
  {
    hide Step, Read, Lines.IndexOf;
    var k := Lines.IndexOf(w.output, '\n');
    if k < |w.output| && !w.aborted {
      var rest := w.output[k + 1..];
      StepIgnores(w.(output := rest), Read(w.output[..k]), admit, rest, w.outputBytes);
      DrainedStays(Step(w.(output := rest), Read(w.output[..k]), admit), admit, bytes);
    }
  }

  // ---- What was recorded stays recorded -----------------------------------

  /** `later` remembers the directory and every record of `w`. */
  predicate Remembers(w: Watch, later: Watch) {
    && (w.dir.Some? ==> later.dir == w.dir)
    && forall i :: i in w.records ==> i in later.records && later.records[i] == w.records[i]
  }

  lemma StepRemembers(w: Watch, m: Message, admit: bool)
    ensures Remembers(w, Step(w, m, admit))
  {
  }

  lemma {:induction false} DrainRemembers(w: Watch, admit: bool)
    ensures Remembers(w, Drain(w, admit))
    decreases |w.output|
  {
    hide Step, Read, Lines.IndexOf;
    var k := Lines.IndexOf(w.output, '\n');
    if k < |w.output| && !w.aborted {
      var next := Step(w.(output := w.output[k + 1..]), Read(w.output[..k]), admit);
      StepRemembers(w.(output := w.output[k + 1..]), Read(w.output[..k]), admit);
      StepIgnores(w.(output := w.output[k + 1..]), Read(w.output[..k]), admit, "", 0);
      DrainRemembers(next, admit);
    }
  }

  lemma HandleRemembers(w: Watch, e: Event, admit: bool)
    ensures Remembers(w, Handle(w, e, admit))
  {
    hide Drain, Ascii;
    if e.Stdout? {
      DrainRemembers(w.(outputBytes := w.outputBytes + |e.chunk|, output := w.output + Ascii(e.chunk)), admit);
    }
  }

  /** For all events and what follows them, killed or aborted or not: nothing recorded is forgotten. */
  lemma {:induction false} RunRemembers(events: seq<Event>, more: seq<Event>, admit: bool)
    ensures Remembers(Run(events, admit), Run(events + more, admit))
  {
    hide Handle;
    if more == [] {
      assert events + more == events;
    } else {
      var shorter := more[..|more| - 1];
      RunRemembers(events, shorter, admit);
      assert (events + more)[..|events + more| - 1] == events + shorter;
      HandleRemembers(Run(events + shorter, admit), more[|more| - 1], admit);
    }
  }

  /** Once aborted, nothing is recorded any more. */
  lemma AbortedRecordsNothing(w: Watch, e: Event, admit: bool)
    requires w.aborted
    ensures var h := Handle(w, e, admit); h.aborted && h.dir == w.dir && h.records == w.records
  {
    hide Drain;
  }
}
