/** One gate command run on the host: the child's events, two timers, and the exit code they settle. */
module GateRun {
  import opened Wrappers

  /** What the event loop may deliver. `Close` carries the exit code, or none and the number of the
      signal that ended the child if it has one. A timer that is not armed never fires. */
  datatype Event = KillTimer | GraceTimer | Exit | Close(code: Option<int>, signal: Option<nat>) | SpawnError

  datatype Settled = Pending | Resolved(code: int, timedOut: bool) | Rejected

  datatype Signal = Term | Kill

  datatype Child = Child(timedOut: bool, killArmed: bool, graceArmed: bool, settled: Settled, sent: seq<Signal>)

  const TIMEOUT_EXIT := 124

  // ---- The handlers -------------------------------------------------------

  function Start(timed: bool): Child {
    Child(false, timed, false, Pending, [])
  }

  function Settle(c: Child, s: Settled): Child {
    c.(killArmed := false, graceArmed := false, settled := if c.settled.Pending? then s else c.settled)
  }

  function CloseCode(code: Option<int>, signal: Option<nat>): int {
    if code.Some? then code.value else if signal.Some? then 128 + signal.value else 1
  }

  function Handle(c: Child, e: Event, killOnExit: bool): Child {
    match e
    case KillTimer =>
      if !c.killArmed then c
      else c.(timedOut := true, killArmed := false, graceArmed := true, sent := c.sent + [Term])
    case GraceTimer => if c.graceArmed then c.(graceArmed := false, sent := c.sent + [Kill]) else c
    case Exit => if killOnExit then c.(sent := c.sent + [Term]) else c
    case Close(code, signal) =>
      Settle(c, if c.timedOut then Resolved(TIMEOUT_EXIT, true) else Resolved(CloseCode(code, signal), false))
    case SpawnError => Settle(c, Rejected)
  }

  function Run(events: seq<Event>, timed: bool, killOnExit: bool): Child {
    if events == [] then Start(timed)
    else Handle(Run(events[..|events| - 1], timed, killOnExit), events[|events| - 1], killOnExit)
  }

  /** The promise of runGateNative and its handlers. */
  class NativeRun {
    const killOnExit: bool
    var timedOut: bool
    var killArmed: bool
    var graceArmed: bool
    var settled: Settled
    var sent: seq<Signal>

    ghost function State(): Child
      reads this
    {
      Child(timedOut, killArmed, graceArmed, settled, sent)
    }

    constructor (timed: bool, killOnExit: bool)
      ensures State() == Start(timed) && this.killOnExit == killOnExit
    {
      this.killOnExit := killOnExit;
      timedOut := false;
      killArmed := timed;
      graceArmed := false;
      settled := Pending;
      sent := [];
    }

    method OnKillTimer()
      requires killArmed
      modifies this
      ensures State() == Handle(old(State()), KillTimer, killOnExit)
    {
      killArmed := false;
      timedOut := true;
      sent := sent + [Term];
      graceArmed := true;
    }

    method OnGraceTimer()
      requires graceArmed
      modifies this
      ensures State() == Handle(old(State()), GraceTimer, killOnExit)
    {
      graceArmed := false;
      sent := sent + [Kill];
    }

    method OnExit()
      modifies this
      ensures State() == Handle(old(State()), Exit, killOnExit)
    {
      if killOnExit { sent := sent + [Term]; }
    }

    method ClearTimers()
      modifies this`killArmed, this`graceArmed
      ensures !killArmed && !graceArmed
    {
      killArmed := false;
      graceArmed := false;
    }

    /** Only the first settlement of a promise takes. */
    method Resolve(s: Settled)
      modifies this`settled
      ensures settled == if old(settled).Pending? then s else old(settled)
    {
      if settled.Pending? { settled := s; }
    }

    method OnClose(code: Option<int>, signal: Option<nat>)
      modifies this
      ensures State() == Handle(old(State()), Close(code, signal), killOnExit)
    {
      ClearTimers();
      if timedOut {
        Resolve(Resolved(TIMEOUT_EXIT, true));
        return;
      }
      if code.Some? {
        Resolve(Resolved(code.value, false));
        return;
      }
      Resolve(Resolved(if signal.Some? then 128 + signal.value else 1, false));
    }

    method OnError()
      modifies this
      ensures State() == Handle(old(State()), SpawnError, killOnExit)
    {
      ClearTimers();
      Resolve(Rejected);
    }
  }

  // ---- What a run settles to ----------------------------------------------

  /** The first event that settles, or the number of events. */
  function FirstEnd(events: seq<Event>): (k: nat)
    ensures k <= |events|
    ensures k < |events| ==> events[k].Close? || events[k].SpawnError?
    ensures forall i :: 0 <= i < k ==> !events[i].Close? && !events[i].SpawnError?
  {
    if events == [] then 0
    else
      var k := FirstEnd(events[..|events| - 1]);
      if k < |events| - 1 then k
      else if events[|events| - 1].Close? || events[|events| - 1].SpawnError? then |events| - 1 else |events|
  }

  /** The kill timer fired before the child closed. */
  predicate TimedOut(events: seq<Event>, timed: bool) {
    timed && KillTimer in events[..FirstEnd(events)]
  }

  /** The settlement in terms of the first closing event and whether the timer fired before it. */
  function Outcome(events: seq<Event>, timed: bool): Settled {
    var k := FirstEnd(events);
    if k == |events| then Pending
    else if events[k].SpawnError? then Rejected
    else if TimedOut(events, timed) then Resolved(TIMEOUT_EXIT, true)
    else Resolved(CloseCode(events[k].code, events[k].signal), false)
  }

  /** For every order of events: what is settled, when the timed-out mark is set, and that no timer
      outlives the settlement. */
  lemma {:induction false} Settles(events: seq<Event>, timed: bool, killOnExit: bool)
    ensures
      var c := Run(events, timed, killOnExit);
      && c.settled == Outcome(events, timed)
      && (c.settled.Pending? ==> c.timedOut == TimedOut(events, timed) && c.killArmed == (timed && !c.timedOut))
      && (!c.settled.Pending? ==> !c.killArmed && !c.graceArmed)
  {
    hide CloseCode;
    if events != [] {
      var n := |events| - 1;
      Settles(events[..n], timed, killOnExit);
      var k, k' := FirstEnd(events[..n]), FirstEnd(events);
      if k < n {
        assert events[..n][..k] == events[..k'];
      } else {
        assert events[..n][..k] == events[..n];
        if k' == |events| { assert events[..k'] == events[..n] + [events[n]]; }
      }
    }
  }

  /** A run is green, code 0, exactly when the child closed with code 0, not by a signal, before any
      settling event and before its timer fired. */
  ghost predicate Green(events: seq<Event>, timed: bool) {
    var k := FirstEnd(events);
    k < |events| && events[k].Close? && events[k].code == Some(0) && !TimedOut(events, timed)
  }

  lemma GreenExactly(events: seq<Event>, timed: bool, killOnExit: bool)
    ensures
      var s := Run(events, timed, killOnExit).settled;
      && ((s.Resolved? && s.code == 0) <==> Green(events, timed))
      && (s.Resolved? && s.timedOut ==> s.code == TIMEOUT_EXIT)
      && (s.Resolved? ==> (s.timedOut <==> TimedOut(events, timed)))
  {
    hide FirstEnd, TimedOut, Run;
    Settles(events, timed, killOnExit);
  }

  /** What the promise settles to, for every order of events: by the first closing event, and for a child
      that closed before its timer fired by the code, the signal or the want of both. */
  lemma SettlesTo(events: seq<Event>, timed: bool, killOnExit: bool, c: int)
    ensures
      var s, k := Run(events, timed, killOnExit).settled, FirstEnd(events);
      && (s.Rejected? <==> k < |events| && events[k].SpawnError?)
      && (s.Resolved? <==> k < |events| && events[k].Close?)
      && (s == Resolved(c, true) <==> k < |events| && events[k].Close? && TimedOut(events, timed) && c == 124)
      && (s == Resolved(c, false) <==>
            && k < |events| && events[k].Close? && !TimedOut(events, timed)
            && match (events[k].code, events[k].signal)
               case (Some(code), _) => c == code
               case (None, Some(signal)) => c - 128 == signal
               case (None, None) => c == 1)
  {
    hide FirstEnd, TimedOut, Run;
    Settles(events, timed, killOnExit);
  }

  // ---- Which signals are sent ---------------------------------------------

  /** The kill timer fired before the end, and the grace timer between the two. */
  ghost predicate Escalated(events: seq<Event>, timed: bool) {
    timed && exists i, j :: 0 <= i < j < FirstEnd(events) && events[i] == KillTimer && events[j] == GraceTimer
  }

  /** Without killing on exit: nothing is sent unless the timer fires before the end, then SIGTERM, and
      SIGKILL after it only once the grace has run out too. */
  lemma {:induction false} SignalsSent(events: seq<Event>, timed: bool)
    ensures
      var c := Run(events, timed, false);
      && c.sent == (if Escalated(events, timed) then [Term, Kill] else if TimedOut(events, timed) then [Term] else [])
      && (c.settled.Pending? ==> c.graceArmed == (TimedOut(events, timed) && !Escalated(events, timed)))
  {
    hide CloseCode, Outcome;
    if events != [] {
      var n := |events| - 1;
      var before, e := events[..n], events[n];
      SignalsSent(before, timed);
      Settles(before, timed, false);
      EndMoves(events);
      assert Run(events, timed, false) == Handle(Run(before, timed, false), e, false);
      EscalatesNext(events, timed);
      TimesOutNext(events, timed);
      PendingMeans(before, timed);
    }
  }

  /** With killing on exit, every exit of the parent sends SIGTERM and settles nothing; without, it does
      nothing at all. */
  lemma ExitOnly(events: seq<Event>, timed: bool, killOnExit: bool)
    ensures
      var c, d := Run(events, timed, killOnExit), Run(events + [Exit], timed, killOnExit);
      d == c.(sent := d.sent) && d.sent == c.sent + if killOnExit then [Term] else []
  {
    assert (events + [Exit])[..|events|] == events;
  }

  lemma PendingMeans(events: seq<Event>, timed: bool)
    ensures Outcome(events, timed).Pending? <==> FirstEnd(events) == |events|
  {
    hide CloseCode;
  }

  lemma EndMoves(events: seq<Event>)
    requires events != []
    ensures
      var n := |events| - 1;
      var k := FirstEnd(events[..n]);
      FirstEnd(events) == if k < n then k else if events[n].Close? || events[n].SpawnError? then n else n + 1
  {
  }

  lemma TimesOutNext(events: seq<Event>, timed: bool)
    requires events != []
    ensures
      var n := |events| - 1;
      TimedOut(events, timed) <==>
        TimedOut(events[..n], timed) || (timed && FirstEnd(events[..n]) == n && events[n] == KillTimer)
  {
    var n := |events| - 1;
    EndMoves(events);
    var k := FirstEnd(events);
    if k == |events| {
      assert events[..k] == events[..n] + [events[n]];
      assert events[..n][..n] == events[..n];
    } else {
      assert events[..k] == events[..n][..k];
      assert FirstEnd(events[..n]) == k;
    }
  }

  lemma EscalatesNext(events: seq<Event>, timed: bool)
    requires events != []
    ensures
      var n := |events| - 1;
      Escalated(events, timed) <==>
        || Escalated(events[..n], timed)
        || (FirstEnd(events[..n]) == n && TimedOut(events[..n], timed) && events[n] == GraceTimer)
  {
    var n := |events| - 1;
    var before, k := events[..n], FirstEnd(events[..n]);
    EndMoves(events);
    if Escalated(before, timed) {
      var i, j :| 0 <= i < j < k && before[i] == KillTimer && before[j] == GraceTimer;
      assert events[i] == KillTimer && events[j] == GraceTimer;
    }
    if k == n && TimedOut(before, timed) && events[n] == GraceTimer {
      var i :| 0 <= i < n && before[..k][i] == KillTimer;
      assert events[i] == KillTimer && events[n] == GraceTimer;
    }
    if Escalated(events, timed) {
      var i, j :| 0 <= i < j < FirstEnd(events) && events[i] == KillTimer && events[j] == GraceTimer;
      if j < n {
        assert before[i] == KillTimer && before[j] == GraceTimer;
      } else {
        assert before[..k][i] == KillTimer;
      }
    }
  }
}
