/** The gate phase: every gate reports once, in order, and only blocking failures stop the build. */
module GatePhase {
  import opened Wrappers
  import GateRun

  datatype Gate = Gate(
    id: string, blocking: bool, changed: bool, image: Option<string>, run: seq<string>, timeout: Option<nat>)

  /** How one command went: its directory leaves the project, it ran on the host, or in a container
      (which exits with a code and a timed-out mark, or cannot be started). */
  datatype Attempt =
    | Escapes
    | Native(events: seq<GateRun.Event>)
    | Container(result: Option<(int, bool)>)

  /** What every command of every gate will do. */
  type Oracle = (nat, nat) -> Attempt

  /** An awaited command does settle, on the host without an image and in a container with one. */
  predicate Fits(gate: Gate, a: Attempt) {
    a.Escapes? || (if gate.image.Some? then a.Container? else a.Native? && GateRun.FirstEnd(a.events) < |a.events|)
  }

  datatype CommandResult = Threw | Ran(code: int, timedOut: bool)

  datatype Scope = Files(files: seq<string>) | Skip

  datatype Status = Done | Error | Warning | Skipped

  datatype Outcome = Outcome(id: string, blocking: bool, status: Status, exitCode: Option<int>, timedOut: bool)

  // ---- One command --------------------------------------------------------

  /** The command did what it was for. */
  ghost predicate Green(gate: Gate, a: Attempt) {
    match a
    case Escapes => false
    case Native(events) => GateRun.Green(events, gate.timeout.Some?)
    case Container(result) => result == Some((0, false))
  }

  /** The command could not be started, or its directory was refused. */
  predicate Broke(gate: Gate, a: Attempt) {
    || a.Escapes?
    || a == Container(None)
    || (a.Native? && GateRun.Outcome(a.events, gate.timeout.Some?).Rejected?)
  }

  /** The timer of the command fired before it closed, on the host or around its container. */
  predicate TimeOutOf(gate: Gate, a: Attempt) {
    match a
    case Escapes => false
    case Native(events) =>
      GateRun.Outcome(events, gate.timeout.Some?).Resolved? && GateRun.TimedOut(events, gate.timeout.Some?)
    case Container(result) => result.Some? && result.value.1
  }

  /** The exit code of the command: 124 after a timeout, else what its child or container closed with,
      and 0 when it never ran. */
  function ExitOf(gate: Gate, a: Attempt): int {
    if Broke(gate, a) then 0
    else if TimeOutOf(gate, a) then GateRun.TIMEOUT_EXIT
    else match a
      case Native(events) =>
        var k := GateRun.FirstEnd(events);
        if k < |events| && events[k].Close? then GateRun.CloseCode(events[k].code, events[k].signal) else 0
      case Container(result) => if result.Some? then result.value.0 else 0
      case Escapes => 0
  }

  /** runGateCommand. */
  method RunGateCommand(gate: Gate, a: Attempt) returns (r: CommandResult)
    requires Fits(gate, a)
    ensures (r.Ran? && r.code == 0) <==> Green(gate, a)
    ensures r.Threw? <==> Broke(gate, a)
    ensures r.Threw? ==> ExitOf(gate, a) == 0 && !TimeOutOf(gate, a)
    ensures r.Ran? && r.timedOut ==> r.code == GateRun.TIMEOUT_EXIT
    ensures r.Ran? ==> r.code == ExitOf(gate, a) && (r.timedOut <==> TimeOutOf(gate, a))
  {
    hide GateRun.TimedOut;
    if a.Escapes? { return Threw; }
    if gate.image.None? {
      GateRun.Settles(a.events, gate.timeout.Some?, false);
      GateRun.GreenExactly(a.events, gate.timeout.Some?, false);
      var settled := GateRun.Run(a.events, gate.timeout.Some?, false).settled;
      return if settled.Rejected? then Threw else Ran(settled.code, settled.timedOut);
    }
    if a.result.None? { return Threw; }
    var (code, timedOut) := a.result.value;
    return Ran(if timedOut then GateRun.TIMEOUT_EXIT else code, timedOut);
  }

  // ---- Docker and the changed files ---------------------------------------

  /** The memoised Docker probe of a run. */
  class Docker {
    const noDocker: bool
    const up: bool
    var cache: Option<bool>
    var probes: nat

    constructor (noDocker: bool, up: bool)
      ensures this.noDocker == noDocker && this.up == up && cache.None? && probes == 0
    {
      this.noDocker := noDocker;
      this.up := up;
      cache := None;
      probes := 0;
    }

    ghost predicate Valid()
      reads this
    {
      probes <= 1 && (cache.None? ==> probes == 0) && (cache.Some? ==> cache.value == up)
    }

    method IsAvailable() returns (r: bool)
      requires Valid()
      modifies this
      ensures Valid() && r == up
    {
      if cache.None? {
        probes := probes + 1;
        cache := Some(up);
      }
      return cache.value;
    }
  }

  /** The memoised base ref and diff of a run; `scope` is what they come to. */
  class Diff {
    const scope: Scope
    var cache: Option<Scope>
    var probes: nat

    constructor (scope: Scope)
      ensures this.scope == scope && cache.None? && probes == 0
    {
      this.scope := scope;
      cache := None;
      probes := 0;
    }

    ghost predicate Valid()
      reads this
    {
      if cache.None? then probes == 0 else probes == 1 && cache.value == scope
    }

    method Resolve() returns (r: Scope)
      requires Valid()
      modifies this
      ensures Valid() && r == scope && cache.Some?
    {
      if cache.None? {
        probes := probes + 1;
        cache := Some(scope);
      }
      return cache.value;
    }
  }

  // ---- The phase ----------------------------------------------------------

  /** An image gate that cannot have a container. */
  predicate Refused(gate: Gate, noDocker: bool, up: bool) {
    gate.image.Some? && (noDocker || !up)
  }

  predicate SkipsGate(gate: Gate, scope: Scope) {
    gate.changed && (scope.Skip? || scope.files == [])
  }

  function Failure(gate: Gate): Status {
    if gate.blocking then Error else Warning
  }

  /** The outcome of gate number `g` and how many of its commands were started: none when it is
      refused or skipped; otherwise up to the first that is not green. */
  ghost predicate Reported(gate: Gate, g: nat, noDocker: bool, up: bool, scope: Scope, oracle: Oracle,
                           ran: nat, o: Outcome)
  {
    && o.id == gate.id && o.blocking == gate.blocking
    && if Refused(gate, noDocker, up) then ran == 0 && o.status == Failure(gate) && o.exitCode.None? && !o.timedOut
       else if SkipsGate(gate, scope) then ran == 0 && o.status == Skipped && o.exitCode.None? && !o.timedOut
       else
         && ran <= |gate.run|
         && (forall k :: 0 <= k < ran - 1 ==> Green(gate, oracle(g, k)))
         && (if o.status == Done then ran == |gate.run| && (ran > 0 ==> Green(gate, oracle(g, ran - 1)))
             else
               && o.status == Failure(gate) && ran > 0 && !Green(gate, oracle(g, ran - 1))
               && o.exitCode == Some(ExitOf(gate, oracle(g, ran - 1)))
               && (o.exitCode == Some(0) <==> Broke(gate, oracle(g, ran - 1))))
         && (o.timedOut <==> o.status != Done && TimeOutOf(gate, oracle(g, ran - 1)))
         && (o.status == Done ==> o.exitCode.None?)
  }

  /** The commands of one gate, up to the first that fails. */
  method RunCommands(gate: Gate, g: nat, oracle: Oracle) returns (o: Outcome, ghost ran: nat)
    requires forall k :: 0 <= k < |gate.run| ==> Fits(gate, oracle(g, k))
    ensures o.id == gate.id && o.blocking == gate.blocking && ran <= |gate.run|
    ensures forall k :: 0 <= k < ran - 1 ==> Green(gate, oracle(g, k))
    ensures o.status == Done ==> ran == |gate.run| && (ran > 0 ==> Green(gate, oracle(g, ran - 1)))
    ensures o.status != Done ==>
              o.status == Failure(gate) && ran > 0 && !Green(gate, oracle(g, ran - 1))
    ensures o.status != Done ==> o.exitCode == Some(ExitOf(gate, oracle(g, ran - 1)))
    ensures o.status != Done ==> (o.exitCode == Some(0) <==> Broke(gate, oracle(g, ran - 1)))
    ensures o.timedOut <==> o.status != Done && TimeOutOf(gate, oracle(g, ran - 1))
    ensures o.status == Done ==> o.exitCode.None?
  {
    hide Green, Fits, Broke, ExitOf, TimeOutOf;
    var exitCode := 0;
    var timedOut := false;
    var spawnError := false;
    ran := 0;
    for k := 0 to |gate.run|
      invariant ran == k && exitCode == 0 && !spawnError && !timedOut
      invariant forall j :: 0 <= j < k ==> Green(gate, oracle(g, j))
    {
      ran := k + 1;
      var result := RunGateCommand(gate, oracle(g, k));
      if result.Threw? {
        spawnError := true;
        break;
      }
      exitCode := result.code;
      timedOut := result.timedOut;
      if exitCode != 0 { break; }
    }
    if !spawnError && exitCode == 0 {
      return Outcome(gate.id, gate.blocking, Done, None, false), ran;
    }
    return Outcome(gate.id, gate.blocking, Failure(gate), Some(exitCode), timedOut), ran;
  }

  /** The gate needs to know what changed. */
  predicate NeedsDiff(gate: Gate, noDocker: bool, up: bool) {
    gate.changed && !Refused(gate, noDocker, up)
  }

  /** One turn of the loop of runGates. */
  method RunGate(gate: Gate, g: nat, docker: Docker, diff: Diff, oracle: Oracle)
    returns (o: Outcome, ghost ran: nat)
    requires docker.Valid() && diff.Valid()
    requires forall k :: 0 <= k < |gate.run| ==> Fits(gate, oracle(g, k))
    modifies docker, diff
    ensures docker.Valid() && diff.Valid()
    ensures Reported(gate, g, docker.noDocker, docker.up, diff.scope, oracle, ran, o)
    ensures diff.cache.Some? <==> old(diff.cache).Some? || NeedsDiff(gate, docker.noDocker, docker.up)
    ensures docker.noDocker || gate.image.None? ==> docker.probes == old(docker.probes)
  {
    hide Green, Fits, Broke;
    ran := 0;
    if gate.image.Some? {
      var refused := docker.noDocker;
      if !refused {
        var up := docker.IsAvailable();
        refused := !up;
      }
      if refused {
        return Outcome(gate.id, gate.blocking, Failure(gate), None, false), ran;
      }
    }
    if gate.changed {
      var scope := diff.Resolve();
      if scope.Skip? || scope.files == [] {
        return Outcome(gate.id, gate.blocking, Skipped, None, false), ran;
      }
    }
    o, ran := RunCommands(gate, g, oracle);
  }

  /** What runGates promises of its outcomes, `ran` being how many commands of each gate were started. */
  ghost predicate AllReported(gates: seq<Gate>, noDocker: bool, up: bool, scope: Scope, oracle: Oracle,
                              ran: seq<nat>, outcomes: seq<Outcome>)
  {
    && |outcomes| == |ran| == |gates|
    && forall g :: 0 <= g < |gates| ==> Reported(gates[g], g, noDocker, up, scope, oracle, ran[g], outcomes[g])
  }

  /** runGates; `scope` is what the base ref and the diff come to, asked for `baseProbes` times. */
  method RunGates(gates: seq<Gate>, docker: Docker, scope: Scope, oracle: Oracle)
    returns (outcomes: seq<Outcome>, threw: bool, baseProbes: nat, ghost ran: seq<nat>)
    requires docker.Valid()
    requires forall g, k :: 0 <= g < |gates| && 0 <= k < |gates[g].run| ==> Fits(gates[g], oracle(g, k))
    modifies docker
    ensures docker.Valid() && AllReported(gates, docker.noDocker, docker.up, scope, oracle, ran, outcomes)
    ensures threw <==> exists g :: 0 <= g < |gates| && outcomes[g].status == Error
    ensures baseProbes <= 1
    ensures baseProbes == 1 <==>
            exists g :: 0 <= g < |gates| && gates[g].changed
                        && (gates[g].image.None? || (docker.up && !docker.noDocker))
    ensures docker.noDocker || (forall g :: 0 <= g < |gates| ==> gates[g].image.None?) ==>
              docker.probes == old(docker.probes)
  {
    hide Reported, Fits, Refused, NeedsDiff;
    outcomes, ran := [], [];
    var blockingFailures: seq<string> := [];
    var diff := new Diff(scope);
    for g := 0 to |gates|
      invariant docker.Valid() && diff.Valid() && diff.scope == scope && fresh(diff)
      invariant AllReported(gates[..g], docker.noDocker, docker.up, scope, oracle, ran, outcomes)
      invariant blockingFailures != [] <==> exists j :: 0 <= j < g && outcomes[j].status == Error
      invariant diff.cache.Some? <==> exists j :: 0 <= j < g && NeedsDiff(gates[j], docker.noDocker, docker.up)
      invariant docker.noDocker || (forall j :: 0 <= j < |gates| ==> gates[j].image.None?) ==>
          docker.probes == old(docker.probes)
    {
      var o: Outcome;
      ghost var count: nat;
      o, count := RunGate(gates[g], g, docker, diff, oracle);
      if o.status == Error { blockingFailures := blockingFailures + [gates[g].id]; }
      outcomes, ran := outcomes + [o], ran + [count];
    }
    assert gates[..|gates|] == gates;
    threw, baseProbes := blockingFailures != [], diff.probes;
    DiffNeeded(gates, docker.noDocker, docker.up);
  }

  lemma DiffNeeded(gates: seq<Gate>, noDocker: bool, up: bool)
    ensures forall g :: 0 <= g < |gates| ==>
              (NeedsDiff(gates[g], noDocker, up) <==> gates[g].changed && (gates[g].image.None? || (up && !noDocker)))
  {
  }

  /** collectGateOutcomes; `crashed` is whether the run throws before it comes to the gates. */
  method CollectGateOutcomes(gates: seq<Gate>, docker: Docker, scope: Scope, oracle: Oracle, crashed: bool)
    returns (ok: bool, outcomes: seq<Outcome>, exitCode: int, ghost ran: seq<nat>)
    requires docker.Valid()
    requires forall g, k :: 0 <= g < |gates| && 0 <= k < |gates[g].run| ==> Fits(gates[g], oracle(g, k))
    modifies docker
    ensures crashed ==> outcomes == [] && ok && exitCode == 1
    ensures !crashed ==> AllReported(gates, docker.noDocker, docker.up, scope, oracle, ran, outcomes)
    ensures !crashed ==> (ok <==> exitCode == 0)
    ensures !crashed ==> (ok <==> forall g :: 0 <= g < |gates| && gates[g].blocking ==>
                                    Passed(gates[g], g, docker.noDocker, docker.up, scope, oracle))
  {
    hide Green, Fits, Passed;
    outcomes, ran := [], [];
    var threw := crashed;
    if !crashed {
      var baseProbes: nat;
      outcomes, threw, baseProbes, ran := RunGates(gates, docker, scope, oracle);
      forall g | 0 <= g < |gates| && gates[g].blocking
        ensures outcomes[g].status != Error <==> Passed(gates[g], g, docker.noDocker, docker.up, scope, oracle)
      {
        NoFalseGreen(gates[g], g, docker.noDocker, docker.up, scope, oracle, ran[g], outcomes[g]);
      }
    }
    var blockingErrored := exists g :: 0 <= g < |outcomes| && outcomes[g].blocking && outcomes[g].status == Error;
    ok := !blockingErrored;
    exitCode := if blockingErrored || threw then 1 else 0;
  }

  /** The gate had nothing to look at, or it could run and every one of its commands was green. */
  ghost predicate Passed(gate: Gate, g: nat, noDocker: bool, up: bool, scope: Scope, oracle: Oracle) {
    && !Refused(gate, noDocker, up)
    && (SkipsGate(gate, scope) || forall k :: 0 <= k < |gate.run| ==> Green(gate, oracle(g, k)))
  }

  /** No false green and no false red: a reported gate failed exactly when it did not pass. */
  lemma NoFalseGreen(gate: Gate, g: nat, noDocker: bool, up: bool, scope: Scope, oracle: Oracle, ran: nat, o: Outcome)
    requires Reported(gate, g, noDocker, up, scope, oracle, ran, o)
    ensures o.status == Done || o.status == Skipped <==> Passed(gate, g, noDocker, up, scope, oracle)
    ensures !(o.status == Done || o.status == Skipped) <==> o.status == Failure(gate)
  {
    hide Green;
    if !Refused(gate, noDocker, up) && !SkipsGate(gate, scope) && o.status == Done {
      forall k | 0 <= k < |gate.run| ensures Green(gate, oracle(g, k)) {
        assert k < ran - 1 || k == ran - 1;
      }
    }
  }

  /** Every status, and when an exit code is given, by what the gate asks for: an image that cannot be had
      fails it, a changed-files gate without changed files is skipped, and otherwise its commands decide. */
  lemma StatusExactly(gate: Gate, g: nat, noDocker: bool, up: bool, scope: Scope, oracle: Oracle, ran: nat, o: Outcome)
    requires Reported(gate, g, noDocker, up, scope, oracle, ran, o)
    ensures
      var startable := gate.image == None || (up && !noDocker);
      var idle := gate.changed && (scope == Skip || scope == Files([]));
      var green := forall k :: 0 <= k < |gate.run| ==> Green(gate, oracle(g, k));
      && (o.status == Skipped <==> startable && idle)
      && (o.status == Done <==> startable && !idle && green)
      && (o.status == Error <==> gate.blocking && (!startable || (!idle && !green)))
      && (o.status == Warning <==> !gate.blocking && (!startable || (!idle && !green)))
      && (o.exitCode.Some? <==> startable && !idle && !green)
      && (ran > 0 <==> startable && !idle && gate.run != [])
  {
    hide Green, TimeOutOf, ExitOf, Broke;
    if o.status == Done {
      forall k | 0 <= k < |gate.run| && !Refused(gate, noDocker, up) && !SkipsGate(gate, scope)
        ensures Green(gate, oracle(g, k))
      {
        assert k < ran - 1 || k == ran - 1;
      }
    }
  }

  /** A command that cannot be started makes its gate fail, with exit code 0 in the outcome. */
  lemma UnstartedReportsZero(id: string, blocking: bool, cmd: string, oracle: Oracle, ran: nat, o: Outcome)
    requires oracle(0, 0) == Native([GateRun.SpawnError])
    requires var gate := Gate(id, blocking, false, None, [cmd], None);
             Reported(gate, 0, false, false, Skip, oracle, ran, o)
    ensures o.status == (if blocking then Error else Warning) && o.exitCode == Some(0)
  {
    var gate, a := Gate(id, blocking, false, None, [cmd], None), Native([GateRun.SpawnError]);
    var events := [GateRun.SpawnError];
    assert events[..0] == [] && GateRun.FirstEnd(events) == 0;
    assert Broke(gate, a) && !Green(gate, a);
  }
}
