/**
 Which worker output the executor accepts: exactly one transcript of ten lines,
 whatever the chunks it arrives in.  And an honest worker's transcript, with any
 64-bit device and inode numbers, always fits the byte budget and is understood.
 */
module Transcripts {
  import opened Wrappers
  import opened Messages
  import opened Supervisor
  import Lines

  /** Positions of the lines: READY, VALID, DIR, six FILEs, DONE. */
  const LENGTH := 10

  ghost predicate FitsAt(ms: seq<Message>, k: nat)
    requires k < |ms|
  {
    if k == 0 then ms[k].Ready?
    else if k == 1 then ms[k].Valid?
    else if k == 2 then ms[k].Dir?
    else if k < 9 then ms[k].File? && forall j :: 3 <= j < k && ms[j].File? ==> ms[j].index != ms[k].index
    else k == 9 && ms[k].Done?
  }

  /** `ms` is an initial part of a transcript. */
  ghost predicate Fits(ms: seq<Message>) {
    forall k :: 0 <= k < |ms| ==> FitsAt(ms, k)
  }

  ghost function Records(ms: seq<Message>): map<nat, Identity> {
    if ms == [] then map[]
    else
      var m, before := ms[|ms| - 1], Records(ms[..|ms| - 1]);
      if m.File? then before[m.index := m.identity] else before
  }

  /** The watch after an initial part of a transcript. */
  ghost function Progress(ms: seq<Message>): Watch
    requires Fits(ms)
  {
    Watch(|ms| > 0, |ms| > 1, |ms| > 9, false,
          if |ms| > 2 then assert FitsAt(ms, 2); Some(ms[2].identity) else None,
          Records(ms), "", 0)
  }

  function StepAll(ms: seq<Message>, admit: bool): Watch {
    if ms == [] then START else Step(StepAll(ms[..|ms| - 1], admit), ms[|ms| - 1], admit)
  }

  lemma FitsBefore(ms: seq<Message>)
    requires ms != []
    ensures Fits(ms) <==> Fits(ms[..|ms| - 1]) && FitsAt(ms, |ms| - 1)
  {
    var before := ms[..|ms| - 1];
    forall k | 0 <= k < |before| ensures FitsAt(ms, k) <==> FitsAt(before, k) {
      assert forall j :: 3 <= j < k ==> ms[j] == before[j];
    }
  }

  /** Line `j` is the FILE line that recorded index `i`. */
  ghost predicate RecordedAt(ms: seq<Message>, j: nat, i: nat) {
    3 <= j < 9 && j < |ms| && ms[j].File? && ms[j].index == i
  }

  lemma RecordsHold(ms: seq<Message>)
    requires Fits(ms)
    ensures forall i :: i in Records(ms) <==> exists j :: RecordedAt(ms, j, i)
    ensures forall j :: 3 <= j < |ms| && j < 9 ==>
              ms[j].File? && ms[j].index in Records(ms) && Records(ms)[ms[j].index] == ms[j].identity
  {
    hide FitsAt;
    if ms != [] {
      var n := |ms| - 1;
      var before, m := ms[..n], ms[n];
      FitsBefore(ms);
      RecordsHold(before);
      FileLineIsNew(ms);
      forall i, j: nat
        ensures RecordedAt(ms, j, i) <==> RecordedAt(before, j, i) || (j == n && 3 <= n < 9 && m.index == i)
      {
        assert j < n ==> ms[j] == before[j];
      }
      hide RecordedAt;
      forall i ensures i in Records(ms) <==> exists j :: RecordedAt(ms, j, i) {
        assert RecordedAt(ms, n, i) <==> RecordedAt(before, n, i) || (3 <= n < 9 && m.index == i);
        if i in Records(before) {
          var j: nat :| RecordedAt(before, j, i);
          assert RecordedAt(ms, j, i);
        }
      }
      assert forall j :: 0 <= j < n ==> ms[j] == before[j];
    }
  }

  lemma FileLineIsNew(ms: seq<Message>)
    requires Fits(ms) && ms != []
    ensures var n := |ms| - 1;
            && (ms[n].File? <==> 3 <= n < 9)
            && (3 <= n < 9 ==> forall j :: !RecordedAt(ms[..n], j, ms[n].index))
  {
    var n := |ms| - 1;
    assert FitsAt(ms, n);
    assert forall j :: 0 <= j < n ==> ms[..n][j] == ms[j];
  }

  lemma RecordsSize(ms: seq<Message>)
    requires Fits(ms)
    ensures |Records(ms)| == if |ms| < 3 then 0 else if |ms| < 9 then |ms| - 3 else 6
  {
    hide FitsAt, RecordedAt;
    if ms != [] {
      var n := |ms| - 1;
      var before, m := ms[..n], ms[n];
      FitsBefore(ms);
      RecordsSize(before);
      RecordsHold(before);
      FileLineIsNew(ms);
      if 3 <= n < 9 {
        assert m.index !in Records(before);
        assert Records(ms).Keys == Records(before).Keys + {m.index};
      }
    }
  }

  /** Every index names one of the six files. */
  predicate Indexed(ms: seq<Message>) {
    forall k :: 0 <= k < |ms| && ms[k].File? ==> ms[k].index < FILE_COUNT
  }

  const ALL_INDICES: set<nat> := {0, 1, 2, 3, 4, 5}

  lemma SubsetOfSameSize<T>(a: set<T>, b: set<T>)
    requires a <= b && |a| == |b|
    ensures a == b
  {
    assert b == a + (b - a);
    assert |b| == |a| + |b - a|;
  }

  /** Six distinct indices below six are all of them. */
  lemma RecordsFull(ms: seq<Message>)
    requires Fits(ms) && Indexed(ms)
    ensures Records(ms).Keys <= ALL_INDICES
    ensures |ms| >= 9 ==> Records(ms).Keys == ALL_INDICES
  {
    hide FitsAt;
    RecordsSize(ms);
    RecordsHold(ms);
    if |ms| >= 9 {
      assert |ALL_INDICES| == 6 by {
        assert ALL_INDICES == {0, 1, 2, 3, 4} + {5};
      }
      SubsetOfSameSize(Records(ms).Keys, ALL_INDICES);
    }
  }

  lemma FitsStep(before: seq<Message>, m: Message, admit: bool)
    requires Fits(before) && Indexed(before + [m]) && (before != [] ==> admit)
    ensures
      var ms := before + [m];
      if FitsAt(ms, |before|) && admit then Fits(ms) && Step(Progress(before), m, admit) == Progress(ms)
      else Step(Progress(before), m, admit).aborted
  {
    var ms, n := before + [m], |before|;
    assert ms[..n] == before;
    FitsBefore(ms);
    RecordsSize(before);
    assert Indexed(before) by { assert forall k :: 0 <= k < n ==> before[k] == ms[k]; }
    assert m.File? ==> ms[n].index < FILE_COUNT;
    RecordsFull(before);
    FitsHere(before, m);
    AtMostTen(before);
    hide FitsAt, Fits, Indexed;
    if FitsAt(ms, n) { RecordsNext(before, m); }
  }

  lemma AtMostTen(ms: seq<Message>)
    requires Fits(ms)
    ensures |ms| <= LENGTH
  {
    assert LENGTH < |ms| ==> !FitsAt(ms, LENGTH);
  }

  lemma RecordsNext(before: seq<Message>, m: Message)
    ensures Records(before + [m]) == if m.File? then Records(before)[m.index := m.identity] else Records(before)
  {
    assert (before + [m])[..|before|] == before;
  }

  /** Where a message fits, by the records so far. */
  lemma FitsHere(before: seq<Message>, m: Message)
    requires Fits(before)
    ensures
      var n := |before|;
      && (FitsAt(before + [m], n) <==>
            if n == 0 then m.Ready? else if n == 1 then m.Valid? else if n == 2 then m.Dir?
            else if n < 9 then m.File? && m.index !in Records(before) else n == 9 && m.Done?)
      && (n > 2 ==> before[2].Dir? && (before + [m])[2] == before[2])
      && (n == 3 ==> Records(before) == map[])
  {
    var ms, n := before + [m], |before|;
    RecordsHold(before);
    if n > 2 { assert FitsAt(before, 2); }
    if 3 <= n < 9 && m.File? {
      forall j | 3 <= j < n ensures ms[j] == before[j] && before[j].File? { assert FitsAt(before, j); }
      if m.index in Records(before) {
        var j: nat :| RecordedAt(before, j, m.index);
        assert ms[j].index == ms[n].index;
      } else {
        assert forall j :: 3 <= j < n ==> !RecordedAt(before, j, m.index);
      }
    }
    if n == 3 { RecordsSize(before); }
  }

  /** Line by line: the watch is not aborted exactly on initial parts of transcripts. */
  lemma StepAllFits(ms: seq<Message>, admit: bool)
    requires Indexed(ms)
    ensures
      var w := StepAll(ms, admit);
      && (!w.aborted <==> Fits(ms) && (ms == [] || admit))
      && (!w.aborted ==> w == Progress(ms))
  {
    if ms != [] {
      hide Step, Progress, FitsAt;
      var before, m := ms[..|ms| - 1], ms[|ms| - 1];
      StepAllFits(before, admit);
      FitsBefore(ms);
      assert before + [m] == ms;
      if !StepAll(before, admit).aborted && (before == [] || admit) {
        FitsStep(before, m, admit);
      } else {
        StepKeepsAbort(StepAll(before, admit), m, admit);
      }
    }
  }

  lemma StepKeepsAbort(w: Watch, m: Message, admit: bool)
    ensures w.aborted ==> Step(w, m, admit).aborted
  {
  }

  // ---- From text to lines -------------------------------------------------

  function ReadAll(ls: seq<string>): (ms: seq<Message>)
    ensures Indexed(ms)
  {
    seq(|ls|, k requires 0 <= k < |ls| => Read(ls[k]))
  }

  /** The messages on the complete lines of a text. */
  function Said(text: string): (ms: seq<Message>)
    ensures Indexed(ms)
  {
    var ls := Lines.Split(text);
    ReadAll(ls[..|ls| - 1])
  }

  /** What follows the last newline. */
  function Unfinished(text: string): string {
    var ls := Lines.Split(text);
    ls[|ls| - 1]
  }

  lemma SaidCons(text: string)
    requires '\n' in text
    ensures var k := Lines.IndexOf(text, '\n');
            && Said(text) == [Read(text[..k])] + Said(text[k + 1..])
            && Unfinished(text) == Unfinished(text[k + 1..])
  {
    hide Read, Lines.IndexOf, Lines.Split, ReadAll;
    var k := Lines.IndexOf(text, '\n');
    var line, rest := text[..k], Lines.Split(text[k + 1..]);
    SplitAtNewline(text);
    assert ([line] + rest)[..|rest|] == [line] + rest[..|rest| - 1];
    ReadAllCons(line, rest[..|rest| - 1]);
  }

  lemma SplitAtNewline(text: string)
    requires '\n' in text
    ensures var k := Lines.IndexOf(text, '\n'); Lines.Split(text) == [text[..k]] + Lines.Split(text[k + 1..])
  {
    hide Lines.IndexOf;
  }

  lemma ReadAllCons(line: string, ls: seq<string>)
    ensures ReadAll([line] + ls) == [Read(line)] + ReadAll(ls)
  {
    hide Read;
  }

  lemma StepAllKeepsAbort(a: seq<Message>, b: seq<Message>, admit: bool)
    requires StepAll(a, admit).aborted
    ensures StepAll(a + b, admit).aborted
  {
    if b == [] {
      assert a + b == a;
    } else {
      StepAllKeepsAbort(a, b[..|b| - 1], admit);
      assert (a + b)[..|a + b| - 1] == a + b[..|b| - 1];
    }
  }

  /** Draining a buffer after the messages `before` is stepping through its complete lines. */
  lemma DrainSteps(before: seq<Message>, text: string, bytes: nat, admit: bool)
    requires !StepAll(before, admit).aborted
    ensures
      var d := Drain(StepAll(before, admit).(output := text, outputBytes := bytes), admit);
      var w := StepAll(before + Said(text), admit);
      if w.aborted then d.aborted else d == w.(output := Unfinished(text), outputBytes := bytes)
    decreases |text|
  {
    hide Read, Lines.IndexOf, Step, Said, Unfinished;
    var k := Lines.IndexOf(text, '\n');
    var w := StepAll(before, admit);
    if k == |text| {
      NothingSaid(text);
      assert before + [] == before;
    } else {
      var m, rest := Read(text[..k]), text[k + 1..];
      SaidCons(text);
      assert before + Said(text) == before + [m] + Said(rest);
      assert (before + [m])[..|before|] == before;
      StepIgnores(w, m, admit, rest, bytes);
      var next := StepAll(before + [m], admit);
      assert next == Step(w, m, admit);
      if next.aborted {
        StepAllKeepsAbort(before + [m], Said(rest), admit);
      } else {
        DrainSteps(before + [m], rest, bytes, admit);
      }
    }
  }

  lemma NothingSaid(text: string)
    requires '\n' !in text
    ensures Said(text) == [] && Unfinished(text) == text
  {
    Lines.SplitOne(text);
  }

  // ---- The accepted streams -----------------------------------------------

  /** READY, VALID, one DIR, six FILEs with six indices, DONE, and nothing else. */
  ghost predicate IsTranscript(text: string) {
    |Said(text)| == LENGTH && Fits(Said(text)) && Unfinished(text) == ""
  }

  lemma WholeFits(text: string, bytes: nat, admit: bool)
    ensures
      var w := Whole(text, bytes, admit);
      var ms := Said(text);
      && (!w.aborted <==> Fits(ms) && (ms == [] || admit))
      && (!w.aborted ==> w == Progress(ms).(output := Unfinished(text), outputBytes := bytes))
  {
    hide Drain, Fits, Progress, Said, Unfinished, Step;
    var ms := Said(text);
    DrainSteps([], text, bytes, admit);
    assert [] + ms == ms;
    StepAllFits(ms, admit);
    if StepAll(ms, admit).aborted { WholeAborts(text, bytes, admit); }
  }

  lemma WholeAborts(text: string, bytes: nat, admit: bool)
    requires Drain(StepAll([], admit).(output := text, outputBytes := bytes), admit).aborted
    ensures Whole(text, bytes, admit).aborted
  {
  }

  /** For every way the output is cut into chunks and mixed with stderr: the run is accepted
      exactly when the approval was consumed, nothing killed the child, it exited with 0 and in time,
      both streams fit the budget together, and stdout is a transcript. */
  lemma AcceptedExactly(events: seq<Event>, admit: bool, code: int, inTime: bool)
    ensures Accepted(Run(events, admit), code, inTime) <==>
            && admit && code == 0 && inTime && !Killed(events)
            && TotalBytes(events) <= OUTPUT_LIMIT && IsTranscript(StdoutText(events))
  {
    hide Run, Killed, TotalBytes, StdoutText, Whole, Said, Unfinished;
    var text, bytes, w := StdoutText(events), TotalBytes(events), Run(events, admit);
    var ms := Said(text);
    ChunksDoNotMatter(events, admit);
    WholeFits(text, bytes, admit);
    if !w.aborted {
      RecordsSize(ms);
      AtMostTen(ms);
    }
  }

  /** What an accepted run recorded: the directory, and one identity for each of the six files. */
  lemma AcceptedRecords(events: seq<Event>, admit: bool, code: int)
    requires Accepted(Run(events, admit), code, true)
    ensures
      var w, ms := Run(events, admit), Said(StdoutText(events));
      && |ms| == LENGTH && ms[2].Dir? && w.dir == Some(ms[2].identity)
      && w.records.Keys == ALL_INDICES
      && forall j :: 3 <= j < 9 ==> ms[j].File? && ms[j].index in w.records && w.records[ms[j].index] == ms[j].identity
  {
    hide Run, Killed, TotalBytes, StdoutText, Whole, Said, Unfinished, Drain;
    var text := StdoutText(events);
    var ms := Said(text);
    AcceptedExactly(events, admit, code, true);
    ChunksDoNotMatter(events, admit);
    WholeFits(text, TotalBytes(events), admit);
    RecordsHold(ms);
    RecordsFull(ms);
    assert FitsAt(ms, 2);
  }

  // ---- What is recorded when it goes wrong --------------------------------

  /** Draining handles the lines up to the first that does not fit, and records what they say. */
  lemma {:induction false} DrainHolds(before: seq<Message>, text: string, bytes: nat, admit: bool) returns (n: nat)
    requires !StepAll(before, admit).aborted
    ensures
      var d := Drain(StepAll(before, admit).(output := text, outputBytes := bytes), admit);
      && n <= |Said(text)| && (!d.aborted ==> n == |Said(text)|)
      && var w := StepAll(before + Said(text)[..n], admit);
         !w.aborted && d.dir == w.dir && d.records == w.records
    decreases |text|
  {
    hide Read, Lines.IndexOf, Step, Said, Unfinished;
    var k := Lines.IndexOf(text, '\n');
    var w := StepAll(before, admit);
    n := 0;
    assert before + Said(text)[..0] == before;
    if k == |text| {
      NothingSaid(text);
    } else {
      var m, rest := Read(text[..k]), text[k + 1..];
      SaidCons(text);
      assert (before + [m])[..|before|] == before;
      StepIgnores(w, m, admit, rest, bytes);
      var next := StepAll(before + [m], admit);
      assert next == Step(w, m, admit);
      if next.aborted {
        AbortingStep(w, m, admit);
      } else {
        var later := DrainHolds(before + [m], rest, bytes, admit);
        n := 1 + later;
        assert before + Said(text)[..n] == before + [m] + Said(rest)[..later];
      }
    }
  }

  lemma AbortingStep(w: Watch, m: Message, admit: bool)
    ensures var s := Step(w, m, admit); !w.aborted && s.aborted ==> s.dir == w.dir && s.records == w.records
  {
  }

  lemma {:induction false} SaidGrows(text: string, more: string)
    ensures Said(text) <= Said(text + more)
    decreases |text|
  {
    hide Read, Lines.IndexOf, Said, Unfinished;
    var k := Lines.IndexOf(text, '\n');
    if k == |text| {
      NothingSaid(text);
    } else {
      var line, rest := text[..k], text[k + 1..];
      assert text + more == line + ['\n'] + (rest + more);
      Lines.IndexOfPrefix(line, '\n', rest + more);
      SaidCons(text);
      SaidCons(text + more);
      assert (text + more)[..k] == line && (text + more)[k + 1..] == rest + more;
      SaidGrows(rest, more);
    }
  }

  /** The watch has recorded exactly what the first `n` lines of the text say, and they fit. */
  ghost predicate Holds(w: Watch, text: string, n: nat, admit: bool) {
    && n <= |Said(text)| && Fits(Said(text)[..n]) && (n > 0 ==> admit)
    && w.dir == Progress(Said(text)[..n]).dir && w.records == Records(Said(text)[..n])
  }

  lemma WholeHolds(text: string, bytes: nat, admit: bool) returns (n: nat)
    ensures Holds(Whole(text, bytes, admit), text, n, admit)
  {
    hide Drain, Said, Unfinished, Step, Fits, Records;
    n := DrainHolds([], text, bytes, admit);
    var ms := Said(text)[..n];
    assert [] + ms == ms;
    assert Indexed(ms) by { assert forall k :: 0 <= k < n ==> ms[k] == Said(text)[k]; }
    StepAllFits(ms, admit);
  }

  /** For all events, aborted or not: what the executor has recorded is exactly what some beginning of
      the complete lines says, each line of it in its place. */
  lemma {:induction false} RecordsAreSaid(events: seq<Event>, admit: bool)
    ensures exists n: nat :: Holds(Run(events, admit), StdoutText(events), n, admit)
  {
    hide Drain, Said, Unfinished, Step, Fits, Records, Ascii, Progress, Whole;
    if events == [] {
      NothingHeld(admit);
      assert Holds(Run(events, admit), StdoutText(events), 0, admit);
    } else {
      var before, e := events[..|events| - 1], events[|events| - 1];
      var w, text := Run(before, admit), StdoutText(before);
      RecordsAreSaid(before, admit);
      var n: nat :| Holds(w, text, n, admit);
      assert text + "" == text;
      if e.Stdout? && !w.aborted && w.outputBytes + |e.chunk| <= OUTPUT_LIMIT {
        ChunksDoNotMatter(before, admit);
        var bytes := w.outputBytes + |e.chunk|;
        assert w == Whole(text, TotalBytes(before), admit);
        WholeAppend(text, Ascii(e.chunk), TotalBytes(before), bytes, admit);
        assert Run(events, admit) == Whole(text + Ascii(e.chunk), bytes, admit);
        var k := WholeHolds(text + Ascii(e.chunk), bytes, admit);
        assert Holds(Run(events, admit), StdoutText(events), k, admit);
      } else if e.Stdout? {
        SaidGrows(text, Ascii(e.chunk));
        assert Said(text + Ascii(e.chunk))[..n] == Said(text)[..n];
        assert Holds(Run(events, admit), StdoutText(events), n, admit);
      } else {
        assert Holds(Run(events, admit), StdoutText(events), n, admit);
      }
    }
  }

  lemma NothingHeld(admit: bool)
    ensures Holds(START, "", 0, admit)
  {
    NothingSaid("");
  }

  // ---- The honest worker --------------------------------------------------

  predicate Printable(ms: seq<Message>) {
    forall k :: 0 <= k < |ms| ==> !ms[k].Other? && (ms[k].Dir? || ms[k].File? ==> Is64Bit(ms[k].identity))
  }

  function PrintAll(ms: seq<Message>): string
    requires Indexed(ms) && Printable(ms)
  {
    if ms == [] then "" else Print(ms[0]) + "\n" + PrintAll(ms[1..])
  }

  /** What the worker says when it creates the directory `dir` and the six `files` in it. */
  function Honest(dir: Identity, files: seq<Identity>): (ms: seq<Message>)
    requires |files| == FILE_COUNT
    ensures |ms| == LENGTH && Indexed(ms)
  {
    [Ready, Valid, Dir(dir),
     File(0, files[0]), File(1, files[1]), File(2, files[2]),
     File(3, files[3]), File(4, files[4]), File(5, files[5]), Done]
  }

  lemma SaidPrinted(ms: seq<Message>)
    requires Indexed(ms) && Printable(ms)
    ensures Said(PrintAll(ms)) == ms && Unfinished(PrintAll(ms)) == ""
  {
    if ms == [] {
      NothingSaid("");
    } else {
      hide Print, Read, Said, Unfinished, Lines.IndexOf;
      SaidPrinted(ms[1..]);
      PrintedIsOneLine(ms[0]);
      ReadPrinted(ms[0]);
      SaidLine(Print(ms[0]), PrintAll(ms[1..]));
      assert ms == [ms[0]] + ms[1..];
    }
  }

  lemma SaidLine(line: string, rest: string)
    requires Lines.NoNewline(line)
    ensures Said(line + "\n" + rest) == [Read(line)] + Said(rest) && Unfinished(line + "\n" + rest) == Unfinished(rest)
  {
    hide Read, Said, Unfinished, Lines.IndexOf;
    var text := line + "\n" + rest;
    Lines.IndexOfPrefix(line, '\n', rest);
    assert text == line + ['\n'] + rest && text[..|line|] == line && text[|line| + 1..] == rest;
    assert text[|line|] == '\n';
    SaidCons(text);
  }

  function Budget(ms: seq<Message>): nat {
    if ms == [] then 0 else LineBudget(ms[0]) + 1 + Budget(ms[1..])
  }

  lemma PrintAllFits(ms: seq<Message>)
    requires Indexed(ms) && Printable(ms)
    ensures |PrintAll(ms)| <= Budget(ms)
  {
    if ms != [] {
      hide Print;
      PrintedFits(ms[0]);
      PrintAllFits(ms[1..]);
    }
  }

  const HONEST_LIMIT := 358

  lemma HonestBudget(dir: Identity, files: seq<Identity>)
    requires |files| == FILE_COUNT
    ensures Budget(Honest(dir, files)) == HONEST_LIMIT
  {
    hide Budget;
    var ms := Honest(dir, files);
    NoBudget(ms[10..]);
    BudgetFiles(ms, 9);
    BudgetFiles(ms, 8);
    BudgetFiles(ms, 7);
    BudgetFiles(ms, 6);
    BudgetFiles(ms, 5);
    BudgetFiles(ms, 4);
    BudgetFiles(ms, 3);
    BudgetFiles(ms, 2);
    BudgetFiles(ms, 1);
    BudgetFiles(ms, 0);
    assert ms[0..] == ms;
  }

  lemma NoBudget(ms: seq<Message>)
    requires ms == []
    ensures Budget(ms) == 0
  {
  }

  lemma BudgetFiles(ms: seq<Message>, k: nat)
    requires k < |ms|
    ensures Budget(ms[k..]) == LineBudget(ms[k]) + 1 + Budget(ms[k + 1..])
  {
    assert ms[k..][1..] == ms[k + 1..];
  }

  lemma HonestFits(dir: Identity, files: seq<Identity>)
    requires |files| == FILE_COUNT
    ensures Fits(Honest(dir, files))
  {
  }

  function StderrBytes(events: seq<Event>): nat {
    if events == [] then 0
    else
      var e := events[|events| - 1];
      StderrBytes(events[..|events| - 1]) + (if e.Stderr? then |e.chunk| else 0)
  }

  lemma BytesAddUp(events: seq<Event>)
    ensures TotalBytes(events) == |StdoutText(events)| + StderrBytes(events)
  {
  }

  /** The identities by their positions. */
  function Numbered(files: seq<Identity>): map<nat, Identity> {
    map i: nat | i < |files| :: files[i]
  }

  /** An honest worker whose stderr leaves it room is accepted, however its output is cut,
      and the executor ends up with the identities the worker saw. */
  lemma HonestIsAccepted(events: seq<Event>, dir: Identity, files: seq<Identity>)
    requires |files| == FILE_COUNT && Printable(Honest(dir, files))
    requires StdoutText(events) == PrintAll(Honest(dir, files))
    requires !Killed(events) && StderrBytes(events) + HONEST_LIMIT <= OUTPUT_LIMIT
    ensures
      var w := Run(events, true);
      Accepted(w, 0, true) && w.dir == Some(dir) && w.records == Numbered(files)
  {
    hide Run, Killed, TotalBytes, StdoutText, Said, Unfinished, PrintAll, Accepted, Honest, Printable, Fits;
    var ms := Honest(dir, files);
    SaidPrinted(ms);
    HonestFits(dir, files);
    PrintAllFits(ms);
    HonestBudget(dir, files);
    BytesAddUp(events);
    AcceptedExactly(events, true, 0, true);
    AcceptedRecords(events, true, 0);
    HonestAt(dir, files);
    HonestNumbered(Run(events, true).records, ms, files);
  }

  lemma HonestNumbered(records: map<nat, Identity>, ms: seq<Message>, files: seq<Identity>)
    requires |files| == FILE_COUNT && |ms| == LENGTH && records.Keys == ALL_INDICES
    requires forall i :: 0 <= i < FILE_COUNT ==> ms[3 + i] == File(i, files[i])
    requires forall j :: 3 <= j < 9 ==> ms[j].File? && ms[j].index in records && records[ms[j].index] == ms[j].identity
    ensures records == Numbered(files)
  {
    forall i: nat | i < FILE_COUNT ensures i in records && records[i] == files[i] {
      assert ms[3 + i] == File(i, files[i]);
    }
  }

  lemma HonestAt(dir: Identity, files: seq<Identity>)
    requires |files| == FILE_COUNT
    ensures var ms := Honest(dir, files);
            ms[2] == Dir(dir) && forall i :: 0 <= i < FILE_COUNT ==> ms[3 + i] == File(i, files[i])
  {
  }
}
