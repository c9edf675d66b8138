/**
 The whole preparation protocol as one transition system: any number of executors
 and revokers share a ledger and the destination directory, and each executor
 drives its own worker.  A run is a sequence of moves; a move that is not enabled
 changes nothing, and every step can fail, be killed or crash.
 */
module OneShot {
  import opened Wrappers
  import opened Messages
  import opened Destination
  import Approval
  import Supervisor

  /** Where the worker is in its program. */
  datatype Worker =
    | NotStarted
    | Preparing             // before the look for an existing attempt-3
    | Loaded                // payload in memory, sandboxed; about to print READY
    | AwaitGo               // reading one byte of stdin
    | Checking              // validating the payload
    | Making                // VALID printed; about to call mkdirat
    | Made                  // attempt-3 made; about to open it and print DIR
    | Opening(i: nat)       // about to create file i, or to print DONE when i is 6
    | Opened(i: nat)        // file i created; about to print FILE
    | Writing(i: nat)
    | Exited(code: nat)
    | Killed

  predicate Alive(w: Worker) {
    !w.NotStarted? && !w.Exited? && !w.Killed?
  }

  /** It has read the go byte. */
  predicate PastGo(w: Worker) {
    w.Checking? || w.Making? || AtWork(w)
  }

  /** It has made the directory and is still running. */
  predicate AtWork(w: Worker) {
    w.Made? || w.Opening? || w.Opened? || w.Writing?
  }

  datatype Phase =
    | Unverified
    | Verified
    | Claiming(at: int)     // the window was checked at time `at`; about to create the terminal file
    | Claimed               // the terminal file is this process's
    | Settled               // consume or revoke has returned
    | Refused
    | Unlinking(todo: set<nat>)
    | Over(prepared: bool, complete: bool)
    | Crashed

  /** A process.  The last six fields are history that no step reads to decide anything. */
  datatype Proc = Proc(
    isExecutor: bool, approval: Approval.Payload, phase: Phase,
    worker: Worker, pipe: seq<Message>, watch: Supervisor.Watch,
    claimedAt: Option<int>, succeeded: bool,
    made: Option<Identity>, files: map<nat, Identity>, unlinked: set<nat>, removed: bool)

  predicate Fresh(x: Proc) {
    && x.phase.Unverified? && x.worker.NotStarted? && x.pipe == [] && x.watch == Supervisor.START
    && x.claimedAt.None? && !x.succeeded
    && x.made.None? && x.files == map[] && x.unlinked == {} && !x.removed
  }

  /** What one process sees; `ledger` maps a burnt nonce to the process that burnt it. */
  datatype View = View(clock: int, ledger: map<string, nat>, out: Option<Folder>, me: Proc)

  datatype System = System(clock: int, ledger: map<string, nat>, out: Option<Folder>, procs: seq<Proc>)

  datatype Move =
    | Tick(elapsed: nat)
    | Verify(fault: bool)
    | Begin
    | Create(fault: bool)
    | Finish(fault: bool)
    | Spawn
    | Receive(fault: bool)
    | Abort
    | Deliver
    | Close(fault: bool)
    | Unlink(i: nat, fault: bool)
    | Rmdir(fault: bool)
    | Crash
    | Work(fault: bool, identity: Identity, bytes: nat)

  // ---- The approval -------------------------------------------------------

  function DoVerify(v: View, fault: bool): View {
    if !v.me.phase.Unverified? then v
    else if fault || v.me.approval.nonce in v.ledger || !Approval.ValidTime(v.me.approval, v.clock)
    then v.(me := v.me.(phase := Refused))
    else v.(me := v.me.(phase := Verified))
  }

  /** A revoker calls revoke; an executor gets here through READY. */
  function DoBegin(v: View): View {
    if !v.me.phase.Verified? || v.me.isExecutor then v else Claim(v, false)
  }

  function Claim(v: View, fault: bool): View {
    if fault || !Approval.ValidTime(v.me.approval, v.clock) then v.(me := Refuse(v.me))
    else v.(me := v.me.(phase := Claiming(v.clock)))
  }

  function Refuse(x: Proc): Proc {
    x.(phase := Refused, watch := x.watch.(aborted := true))
  }

  /** The exclusive creation of the nonce's terminal file. */
  function DoCreate(v: View, pid: nat, fault: bool): View {
    if !v.me.phase.Claiming? then v
    else if fault || v.me.approval.nonce in v.ledger then v.(me := Refuse(v.me))
    else v.(ledger := v.ledger[v.me.approval.nonce := pid],
            me := v.me.(phase := Claimed, claimedAt := Some(v.me.phase.at)))
  }

  /** Mode, write and syncs; only then does consume or revoke return. */
  function DoFinish(v: View, fault: bool): View {
    if !v.me.phase.Claimed? then v
    else if fault then v.(me := Refuse(v.me))
    else v.(me := v.me.(phase := Settled, succeeded := true, watch := Supervisor.Step(v.me.watch, Ready, true)))
  }

  // ---- The executor -------------------------------------------------------

  function DoSpawn(v: View): View {
    if v.me.isExecutor && v.me.phase.Verified? && v.me.worker.NotStarted?
    then v.(me := v.me.(worker := Preparing)) else v
  }

  /** One line from the worker. */
  function DoReceive(v: View, fault: bool): View {
    var x := v.me;
    if !(x.phase.Verified? || x.phase.Settled?) || x.pipe == [] || x.watch.aborted then v
    else
      var m, w := x.pipe[0], v.(me := x.(pipe := x.pipe[1..]));
      if m.Ready? && !x.watch.ready then Claim(w, fault)
      else w.(me := w.me.(watch := Supervisor.Step(x.watch, m, true)))
  }

  /** A timer, an stdin error or too much output. */
  function DoAbort(v: View): View {
    if v.me.phase.Verified? || v.me.phase.Settled?
    then v.(me := v.me.(watch := v.me.watch.(aborted := true))) else v
  }

  /** SIGKILL reaches the worker, after an abort or the death of its parent. */
  function DoDeliver(v: View): View {
    if Alive(v.me.worker) && (v.me.watch.aborted || v.me.phase.Crashed?)
    then v.(me := v.me.(worker := Killed)) else v
  }

  /** The child has closed: post-check, or the start of the cleanup. */
  function DoClose(b: Bound, v: View, fault: bool): View
    requires |b.outputs| == FILE_COUNT
  {
    var x := v.me;
    if !x.isExecutor || !(x.phase.Verified? || x.phase.Settled? || x.phase.Refused?) || Alive(x.worker)
       || (x.pipe != [] && !x.watch.aborted) then v
    else if !fault && x.worker.Exited? && Supervisor.Accepted(x.watch, x.worker.code, true)
         && Checked(b, v.out, x.watch.dir, x.watch.records)
    then v.(me := x.(phase := Over(true, true)))
    else if x.watch.dir.None? then v.(me := x.(phase := Over(false, v.out.None? && !fault)))
    else if v.out.Some? && Some(v.out.value.identity) == x.watch.dir && !fault
    then v.(me := x.(phase := Unlinking(x.watch.records.Keys)))
    else v.(me := x.(phase := Over(false, false)))
  }

  function DoUnlink(v: View, i: nat, fault: bool): View {
    var x := v.me;
    if !x.phase.Unlinking? || i !in x.phase.todo then v
    else if fault || v.out.None? || i !in v.out.value.entries || i !in x.watch.records
            || v.out.value.entries[i].identity != x.watch.records[i]
    then v.(me := x.(phase := Over(false, false)))
    else v.(out := Some(v.out.value.(entries := v.out.value.entries - {i})),
            me := x.(phase := Unlinking(x.phase.todo - {i}), unlinked := x.unlinked + {i}))
  }

  function DoRmdir(v: View, fault: bool): View {
    var x := v.me;
    if !x.phase.Unlinking? || x.phase.todo != {} then v
    else if fault || v.out.None? || v.out.value.entries != map[] || Some(v.out.value.identity) != x.watch.dir
    then v.(me := x.(phase := Over(false, false)))
    else v.(out := None, me := x.(phase := Over(false, true), removed := true))
  }

  // ---- The worker ---------------------------------------------------------

  function Say(x: Proc, m: Message, next: Worker): Proc {
    x.(pipe := x.pipe + [m], worker := next)
  }

  function Fail(v: View, code: nat): View {
    v.(me := v.me.(worker := Exited(code)))
  }

  /** What the worker exits with when a call or a check of its own fails. */
  function FaultCode(w: Worker): nat {
    if w.Preparing? || w.Loaded? || w.AwaitGo? then 10 else if w.Checking? then 20 else 30
  }

  /** The worker's held directory, if attempt-3 still is that directory. */
  predicate Holds(v: View, pid: nat) {
    v.out.Some? && v.out.value.owner == Some(pid)
  }

  function DoWork(b: Bound, v: View, pid: nat, fault: bool, identity: Identity, bytes: nat): View
    requires |b.outputs| == FILE_COUNT
  {
    var x := v.me;
    if !Alive(x.worker) then v
    else if fault then Fail(v, FaultCode(x.worker))
    else match x.worker
      case Preparing => if v.out.Some? then Fail(v, 10) else v.(me := x.(worker := Loaded))
      case Loaded => v.(me := Say(x, Ready, AwaitGo))
      // Once consume has returned the byte is in the pipe, whatever becomes of the executor.
      case AwaitGo => if x.succeeded then v.(me := x.(worker := Checking)) else v
      case Checking => v.(me := Say(x, Valid, Making))
      case Making => WorkMaking(v, pid, identity)
      case Made => WorkMade(v)
      case Opening(i) => WorkOpening(v, pid, i, identity)
      case Opened(i) => WorkOpened(v, pid, i)
      case Writing(i) => WorkWriting(b, v, pid, i, bytes)
  }

  /** mkdirat, which succeeds only when nothing is there. */
  function WorkMaking(v: View, pid: nat, identity: Identity): View {
    if v.out.Some? then Fail(v, 30)
    else v.(out := Some(Folder(identity, Some(pid), DIRECTORY_MODE, map[])),
            me := v.me.(made := Some(identity), worker := Made))
  }

  function WorkMade(v: View): View {
    if v.out.None? then Fail(v, 30) else v.(me := Say(v.me, Dir(v.out.value.identity), Opening(0)))
  }

  /** Exclusive creation of file i; after the last one, the final line and exit. */
  function WorkOpening(v: View, pid: nat, i: nat, identity: Identity): View {
    if i >= FILE_COUNT then v.(me := Say(v.me, Done, Exited(0)))
    else if !Holds(v, pid) || i in v.out.value.entries then Fail(v, 30)
    else v.(out := Some(Created(v.out.value, i, identity)),
            me := v.me.(files := v.me.files[i := identity], worker := Opened(i)))
  }

  function WorkOpened(v: View, pid: nat, i: nat): View {
    if !Holds(v, pid) || i !in v.out.value.entries || i >= FILE_COUNT then Fail(v, 30)
    else v.(me := Say(v.me, File(i, v.out.value.entries[i].identity), Writing(i)))
  }

  /** One write call: at most `bytes` more of the payload reach the file. */
  function WorkWriting(b: Bound, v: View, pid: nat, i: nat, bytes: nat): View
    requires |b.outputs| == FILE_COUNT
  {
    if !Holds(v, pid) || i !in v.out.value.entries || i >= FILE_COUNT then Fail(v, 30)
    else
      var written := |v.out.value.entries[i].content|;
      var n := if written + bytes < |b.outputs[i]| then written + bytes else |b.outputs[i]|;
      v.(out := Some(Written(v.out.value, i, b.outputs[i][..n])),
         me := v.me.(worker := if n == |b.outputs[i]| then Opening(i + 1) else Writing(i)))
  }

  function Created(d: Folder, i: nat, identity: Identity): Folder {
    d.(entries := d.entries[i := Node(identity, true, 1, FILE_MODE, [])])
  }

  function Written(d: Folder, i: nat, content: seq<int>): Folder
    requires i in d.entries
  {
    d.(entries := d.entries[i := d.entries[i].(content := content)])
  }

  // ---- Moves and runs -----------------------------------------------------

  function Act(b: Bound, v: View, pid: nat, m: Move): View
    requires |b.outputs| == FILE_COUNT
  {
    match m
    case Tick(elapsed) => v.(clock := v.clock + elapsed)
    case Verify(fault) => DoVerify(v, fault)
    case Begin => DoBegin(v)
    case Create(fault) => DoCreate(v, pid, fault)
    case Finish(fault) => DoFinish(v, fault)
    case Spawn => DoSpawn(v)
    case Receive(fault) => DoReceive(v, fault)
    case Abort => DoAbort(v)
    case Deliver => DoDeliver(v)
    case Close(fault) => DoClose(b, v, fault)
    case Unlink(i, fault) => DoUnlink(v, i, fault)
    case Rmdir(fault) => DoRmdir(v, fault)
    case Crash => if v.me.phase.Over? then v else v.(me := v.me.(phase := Phase.Crashed))
    case Work(fault, identity, bytes) => DoWork(b, v, pid, fault, identity, bytes)
  }

  function Look(s: System, pid: nat): View
    requires pid < |s.procs|
  {
    View(s.clock, s.ledger, s.out, s.procs[pid])
  }

  function Next(b: Bound, s: System, pid: nat, m: Move): (s': System)
    requires |b.outputs| == FILE_COUNT
    ensures |s'.procs| == |s.procs|
  {
    if pid >= |s.procs| then s
    else
      var v := Act(b, Look(s, pid), pid, m);
      System(v.clock, v.ledger, v.out, s.procs[pid := v.me])
  }

  /** Any clock, any burnt nonces, anything at the destination that no process here made. */
  predicate Initial(s: System) {
    && (forall p :: 0 <= p < |s.procs| ==> Fresh(s.procs[p]))
    && (forall n :: n in s.ledger ==> s.ledger[n] >= |s.procs|)
    && (s.out.Some? ==> s.out.value.owner.None?)
  }

  function Run(b: Bound, s: System, moves: seq<(nat, Move)>): (s': System)
    requires |b.outputs| == FILE_COUNT
    ensures |s'.procs| == |s.procs|
  {
    if moves == [] then s
    else
      var (pid, m) := moves[|moves| - 1];
      Next(b, Run(b, s, moves[..|moves| - 1]), pid, m)
  }
}
