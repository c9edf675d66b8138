/**
 Safety of the preparation protocol over every run: one consume or revoke per
 nonce, one execution per approval and only inside its window, and an honest
 account of what is left behind.
 */
module OneShotSafety {
  import opened Wrappers
  import opened Messages
  import opened Destination
  import opened OneShot
  import Approval
  import Supervisor

  // ---- The invariant of one process ---------------------------------------

  /** The terminal file of a claimed nonce names this process, and the claim was inside the window. */
  predicate ClaimInv(ledger: map<string, nat>, pid: nat, x: Proc) {
    && (x.claimedAt.Some? ==>
          && x.approval.nonce in ledger && ledger[x.approval.nonce] == pid
          && Approval.ValidTime(x.approval, x.claimedAt.value))
    && (x.succeeded ==> x.claimedAt.Some?)
    && (x.phase.Unverified? || x.phase.Verified? || x.phase.Claiming? ==> x.claimedAt.None?)
    && (x.phase.Claiming? ==> Approval.ValidTime(x.approval, x.phase.at))
    && (x.phase.Claimed? ==> x.claimedAt.Some? && !x.succeeded)
    && (x.phase.Settled? ==> x.succeeded && x.watch.ready)
    && (x.phase.Unverified? || x.phase.Verified? || x.phase.Claiming? || x.phase.Claimed? ==> !x.watch.ready)
  }

  predicate Ended(p: Phase) {
    p.Unlinking? || p.Over?
  }

  /** What the worker has done, it was allowed to do, and it stops before the executor cleans up. */
  predicate WorkInv(x: Proc) {
    && (PastGo(x.worker) || x.made.Some? ==> x.succeeded)
    && (x.phase.Unverified? || !x.isExecutor ==> x.worker.NotStarted?)
    && (AtWork(x.worker) ==> x.made.Some?)
    && (x.worker.NotStarted? || (Alive(x.worker) && !AtWork(x.worker)) ==> x.made.None?)
    && (x.made.None? ==> x.files == map[])
    && (Ended(x.phase) ==> !Alive(x.worker))
    && (Alive(x.worker) || !(Ended(x.phase) || x.phase.Crashed?) ==> x.unlinked == {} && !x.removed)
    && (x.removed ==> x.made.Some? && x.phase.Over?)
  }

  predicate TellsTruth(x: Proc, m: Message) {
    && (m.Dir? ==> x.made == Some(m.identity))
    && (m.File? ==> m.index in x.files && x.files[m.index] == m.identity)
  }

  /** Everything the worker said, and the executor wrote down, is so. */
  predicate SaidInv(x: Proc) {
    && (forall k :: 0 <= k < |x.pipe| ==> TellsTruth(x, x.pipe[k]))
    && (x.watch.dir.Some? ==> x.made == x.watch.dir)
    && (forall i :: i in x.watch.records ==> i in x.files && x.files[i] == x.watch.records[i])
  }

  /** The process's worker made a directory that has not been removed. */
  predicate Owns(x: Proc) {
    x.made.Some? && !x.removed
  }

  predicate HoldInv(out: Option<Folder>, pid: nat, x: Proc) {
    Owns(x) ==>
      && out.Some? && out.value.owner == Some(pid) && Some(out.value.identity) == x.made
      && out.value.entries.Keys == x.files.Keys - x.unlinked
      && forall i :: i in out.value.entries ==> out.value.entries[i].identity == x.files[i]
  }

  ghost predicate EndInv(b: Bound, out: Option<Folder>, x: Proc)
    requires |b.outputs| == FILE_COUNT
  {
    && (x.phase.Unlinking? ==>
          && x.isExecutor && x.watch.dir.Some? && !x.removed
          && x.phase.todo <= x.watch.records.Keys && x.unlinked == x.watch.records.Keys - x.phase.todo)
    && (x.phase.Over? && x.phase.prepared ==>
          x.phase.complete && Owns(x) && out.Some? && HoldsOutputs(b, out.value))
    && (x.phase.Over? && !x.phase.prepared && x.phase.complete ==> !Owns(x))
  }

  ghost predicate ProcInv(b: Bound, ledger: map<string, nat>, out: Option<Folder>, pid: nat, x: Proc)
    requires |b.outputs| == FILE_COUNT
  {
    ClaimInv(ledger, pid, x) && WorkInv(x) && SaidInv(x) && HoldInv(out, pid, x) && EndInv(b, out, x)
  }

  /** A directory marked with this process is one it owns. */
  predicate OwnerInv(out: Option<Folder>, pid: nat, x: Proc) {
    out.Some? && out.value.owner == Some(pid) ==> Owns(x)
  }

  ghost predicate ViewInv(b: Bound, v: View, pid: nat)
    requires |b.outputs| == FILE_COUNT
  {
    ProcInv(b, v.ledger, v.out, pid, v.me) && OwnerInv(v.out, pid, v.me)
  }

  predicate MineOrNone(out: Option<Folder>, pid: nat) {
    out.None? || out.value.owner == Some(pid)
  }

  /** What a process's move may touch: its own claim in the ledger, its own directory. */
  predicate Frame(v: View, w: View, pid: nat) {
    && w.me.approval == v.me.approval && w.me.isExecutor == v.me.isExecutor && v.clock <= w.clock
    && (w.ledger == v.ledger ||
          (v.me.approval.nonce !in v.ledger && w.ledger == v.ledger[v.me.approval.nonce := pid]))
    && (w.out == v.out || (MineOrNone(v.out, pid) && MineOrNone(w.out, pid)))
  }

  // ---- Each move keeps it -------------------------------------------------

  lemma VerifyKeeps(b: Bound, v: View, pid: nat, m: Move)
    requires |b.outputs| == FILE_COUNT && ViewInv(b, v, pid) && (m.Verify? || m.Begin?)
    ensures var w := Act(b, v, pid, m); ViewInv(b, w, pid) && Frame(v, w, pid)
  {
    hide Approval.ValidTime, HoldsOutputs;
  }

  lemma ClaimKeeps(b: Bound, v: View, pid: nat, m: Move)
    requires |b.outputs| == FILE_COUNT && ViewInv(b, v, pid) && (m.Create? || m.Finish?)
    ensures var w := Act(b, v, pid, m); ViewInv(b, w, pid) && Frame(v, w, pid)
  {
    hide Approval.ValidTime, HoldsOutputs;
  }

  lemma SignalKeeps(b: Bound, v: View, pid: nat, m: Move)
    requires |b.outputs| == FILE_COUNT && ViewInv(b, v, pid)
    requires m.Tick? || m.Spawn? || m.Abort? || m.Deliver? || m.Crash?
    ensures var w := Act(b, v, pid, m); ViewInv(b, w, pid) && Frame(v, w, pid)
  {
    hide Approval.ValidTime, HoldsOutputs;
  }

  lemma TailTellsTruth(x: Proc)
    requires SaidInv(x) && x.pipe != []
    ensures var tail := x.(pipe := x.pipe[1..]);
            && SaidInv(tail)
            && SaidInv(tail.(watch := Supervisor.Step(x.watch, x.pipe[0], true)))
  {
    assert TellsTruth(x, x.pipe[0]);
    var tail := x.(pipe := x.pipe[1..]);
    forall k | 0 <= k < |tail.pipe| ensures TellsTruth(tail, tail.pipe[k]) {
      assert tail.pipe[k] == x.pipe[k + 1];
    }
  }

  lemma StepKeepsReady(w: Supervisor.Watch, m: Message)
    requires m.Ready? ==> w.ready
    ensures Supervisor.Step(w, m, true).ready == w.ready
  {
  }

  lemma ReceiveKeeps(b: Bound, v: View, pid: nat, fault: bool)
    requires |b.outputs| == FILE_COUNT && ViewInv(b, v, pid)
    ensures var w := DoReceive(v, fault); ViewInv(b, w, pid) && Frame(v, w, pid)
  {
    hide Approval.ValidTime, HoldsOutputs, TellsTruth, Supervisor.Step;
    var x := v.me;
    if x.pipe != [] {
      TailTellsTruth(x);
      if !(x.pipe[0].Ready? && !x.watch.ready) {
        StepKeepsReady(x.watch, x.pipe[0]);
      } else if x.phase.Verified? || x.phase.Settled? {
        ReadyKeeps(b, v, pid, fault);
      }
    }
  }

  /** READY makes the executor check the window, its line consumed. */
  lemma ReadyKeeps(b: Bound, v: View, pid: nat, fault: bool)
    requires |b.outputs| == FILE_COUNT && ViewInv(b, v, pid)
    requires v.me.pipe != [] && !v.me.watch.ready && (v.me.phase.Verified? || v.me.phase.Settled?)
    requires SaidInv(v.me.(pipe := v.me.pipe[1..]))
    ensures var w := Claim(v.(me := v.me.(pipe := v.me.pipe[1..])), fault);
            ViewInv(b, w, pid) && Frame(v, w, pid)
  {
    hide Approval.ValidTime, HoldsOutputs;
  }

  lemma CloseKeeps(b: Bound, v: View, pid: nat, fault: bool)
    requires |b.outputs| == FILE_COUNT && BoundOk(b) && ViewInv(b, v, pid)
    ensures var w := DoClose(b, v, fault); ViewInv(b, w, pid) && Frame(v, w, pid)
  {
    hide Approval.ValidTime, HoldsOutputs, Supervisor.Accepted, Checked, BoundOk;
    var x := v.me;
    if Checked(b, v.out, x.watch.dir, x.watch.records) {
      CheckedMeans(b, v.out, x.watch.dir, x.watch.records);
    }
  }

  lemma UnlinkKeeps(b: Bound, v: View, pid: nat, i: nat, fault: bool)
    requires |b.outputs| == FILE_COUNT && ViewInv(b, v, pid)
    ensures var w := DoUnlink(v, i, fault); ViewInv(b, w, pid) && Frame(v, w, pid)
  {
    hide Approval.ValidTime, HoldsOutputs;
  }

  lemma RmdirKeeps(b: Bound, v: View, pid: nat, fault: bool)
    requires |b.outputs| == FILE_COUNT && ViewInv(b, v, pid)
    ensures var w := DoRmdir(v, fault); ViewInv(b, w, pid) && Frame(v, w, pid)
  {
    hide Approval.ValidTime, HoldsOutputs;
  }

  lemma EarlyWorkKeeps(b: Bound, v: View, pid: nat, fault: bool, identity: Identity, bytes: nat)
    requires |b.outputs| == FILE_COUNT && ViewInv(b, v, pid)
    requires fault || !(AtWork(v.me.worker) || v.me.worker.Making?)
    ensures var w := DoWork(b, v, pid, fault, identity, bytes); ViewInv(b, w, pid) && Frame(v, w, pid)
  {
    hide Approval.ValidTime, HoldsOutputs, WorkMaking, WorkMade, WorkOpening, WorkOpened, WorkWriting;
  }

  lemma MakingKeeps(b: Bound, v: View, pid: nat, identity: Identity)
    requires |b.outputs| == FILE_COUNT && ViewInv(b, v, pid) && v.me.worker.Making?
    ensures var w := WorkMaking(v, pid, identity); ViewInv(b, w, pid) && Frame(v, w, pid)
  {
    hide Approval.ValidTime, HoldsOutputs;
  }

  lemma MadeKeeps(b: Bound, v: View, pid: nat)
    requires |b.outputs| == FILE_COUNT && ViewInv(b, v, pid) && v.me.worker.Made?
    ensures var w := WorkMade(v); ViewInv(b, w, pid) && Frame(v, w, pid)
  {
    hide Approval.ValidTime, HoldsOutputs;
  }

  lemma OpeningKeeps(b: Bound, v: View, pid: nat, identity: Identity)
    requires |b.outputs| == FILE_COUNT && ViewInv(b, v, pid) && v.me.worker.Opening?
    ensures var w := WorkOpening(v, pid, v.me.worker.i, identity); ViewInv(b, w, pid) && Frame(v, w, pid)
  {
    hide Approval.ValidTime, HoldsOutputs;
  }

  lemma OpenedKeeps(b: Bound, v: View, pid: nat)
    requires |b.outputs| == FILE_COUNT && ViewInv(b, v, pid) && v.me.worker.Opened?
    ensures var w := WorkOpened(v, pid, v.me.worker.i); ViewInv(b, w, pid) && Frame(v, w, pid)
  {
    hide Approval.ValidTime, HoldsOutputs;
  }

  lemma WritingKeeps(b: Bound, v: View, pid: nat, bytes: nat)
    requires |b.outputs| == FILE_COUNT && ViewInv(b, v, pid) && v.me.worker.Writing?
    ensures var w := WorkWriting(b, v, pid, v.me.worker.i, bytes); ViewInv(b, w, pid) && Frame(v, w, pid)
  {
    hide Approval.ValidTime, HoldsOutputs;
  }

  lemma WorkKeeps(b: Bound, v: View, pid: nat, fault: bool, identity: Identity, bytes: nat)
    requires |b.outputs| == FILE_COUNT && ViewInv(b, v, pid)
    ensures var w := DoWork(b, v, pid, fault, identity, bytes); ViewInv(b, w, pid) && Frame(v, w, pid)
  {
    hide ViewInv, Frame, WorkMaking, WorkMade, WorkOpening, WorkOpened, WorkWriting;
    if fault {
      EarlyWorkKeeps(b, v, pid, fault, identity, bytes);
      return;
    }
    match v.me.worker {
      case Making => MakingKeeps(b, v, pid, identity);
      case Made => MadeKeeps(b, v, pid);
      case Opening(_) => OpeningKeeps(b, v, pid, identity);
      case Opened(_) => OpenedKeeps(b, v, pid);
      case Writing(_) => WritingKeeps(b, v, pid, bytes);
      case _ => EarlyWorkKeeps(b, v, pid, fault, identity, bytes);
    }
  }

  /** Every move of a process keeps its invariant and stays within its frame. */
  lemma ActKeeps(b: Bound, v: View, pid: nat, m: Move)
    requires |b.outputs| == FILE_COUNT && BoundOk(b) && ViewInv(b, v, pid)
    ensures var w := Act(b, v, pid, m); ViewInv(b, w, pid) && Frame(v, w, pid)
  {
    hide ViewInv, Frame, DoWork, DoRmdir, DoUnlink, DoClose, DoReceive, DoVerify, DoBegin, DoCreate, DoFinish;
    match m {
      case Verify(_) => VerifyKeeps(b, v, pid, m);
      case Begin => VerifyKeeps(b, v, pid, m);
      case Create(_) => ClaimKeeps(b, v, pid, m);
      case Finish(_) => ClaimKeeps(b, v, pid, m);
      case Receive(fault) => ReceiveKeeps(b, v, pid, fault);
      case Close(fault) => CloseKeeps(b, v, pid, fault);
      case Unlink(i, fault) => UnlinkKeeps(b, v, pid, i, fault);
      case Rmdir(fault) => RmdirKeeps(b, v, pid, fault);
      case Work(fault, identity, bytes) => WorkKeeps(b, v, pid, fault, identity, bytes);
      case _ => SignalKeeps(b, v, pid, m);
    }
  }

  // ---- The invariant of the system ----------------------------------------

  ghost predicate Inv(b: Bound, s: System)
    requires |b.outputs| == FILE_COUNT
  {
    && (forall p :: 0 <= p < |s.procs| ==> ProcInv(b, s.ledger, s.out, p, s.procs[p]))
    && (forall p :: 0 <= p < |s.procs| ==> OwnerInv(s.out, p, s.procs[p]))
  }

  /** A move within another process's frame leaves this one's invariant alone. */
  lemma OthersKeep(b: Bound, v: View, w: View, pid: nat, q: nat, x: Proc)
    requires |b.outputs| == FILE_COUNT && q != pid && Frame(v, w, pid)
    requires ProcInv(b, v.ledger, v.out, q, x) && OwnerInv(v.out, q, x)
    ensures ProcInv(b, w.ledger, w.out, q, x) && OwnerInv(w.out, q, x)
  {
    hide Approval.ValidTime, HoldsOutputs, WorkInv, SaidInv;
  }

  lemma InitialInv(b: Bound, s: System)
    requires |b.outputs| == FILE_COUNT && Initial(s)
    ensures Inv(b, s)
  {
  }

  lemma NextKeeps(b: Bound, s: System, pid: nat, m: Move)
    requires |b.outputs| == FILE_COUNT && BoundOk(b) && Inv(b, s)
    ensures Inv(b, Next(b, s, pid, m))
  {
    hide ProcInv, OwnerInv, Frame, Act;
    if pid < |s.procs| {
      var v := Look(s, pid);
      ActKeeps(b, v, pid, m);
      var w, t := Act(b, v, pid, m), Next(b, s, pid, m);
      forall q | 0 <= q < |t.procs|
        ensures ProcInv(b, t.ledger, t.out, q, t.procs[q]) && OwnerInv(t.out, q, t.procs[q])
      {
        if q != pid { OthersKeep(b, v, w, pid, q, s.procs[q]); }
      }
    }
  }

  lemma RunInv(b: Bound, s: System, moves: seq<(nat, Move)>)
    requires |b.outputs| == FILE_COUNT && BoundOk(b) && Initial(s)
    ensures Inv(b, Run(b, s, moves))
  {
    hide Inv, Initial, Next, BoundOk;
    if moves == [] {
      InitialInv(b, s);
    } else {
      var (pid, m) := moves[|moves| - 1];
      RunInv(b, s, moves[..|moves| - 1]);
      NextKeeps(b, Run(b, s, moves[..|moves| - 1]), pid, m);
    }
  }

  // ---- One terminal event, one execution ----------------------------------

  /** Over every run: of the processes holding one nonce, at most one ever has its consume or revoke return. */
  lemma AtMostOneTerminal(b: Bound, s: System, moves: seq<(nat, Move)>, p: nat, q: nat)
    requires |b.outputs| == FILE_COUNT && BoundOk(b) && Initial(s) && p < |s.procs| && q < |s.procs|
    ensures
      var t := Run(b, s, moves);
      t.procs[p].approval.nonce == t.procs[q].approval.nonce && t.procs[p].succeeded && t.procs[q].succeeded ==> p == q
  {
    hide Initial, Run, BoundOk;
    RunInv(b, s, moves);
    var t := Run(b, s, moves);
    assert ProcInv(b, t.ledger, t.out, p, t.procs[p]) && ProcInv(b, t.ledger, t.out, q, t.procs[q]);
  }

  /** A worker past its go byte, and so one that has made attempt-3, belongs to the executor whose
      consume returned after checking the window; no other process with that nonce gets as far. */
  lemma ExecutesOnceInWindow(b: Bound, s: System, moves: seq<(nat, Move)>, p: nat, q: nat)
    requires |b.outputs| == FILE_COUNT && BoundOk(b) && Initial(s) && p < |s.procs| && q < |s.procs|
    ensures
      var t := Run(b, s, moves);
      var x, y := t.procs[p], t.procs[q];
      PastGo(x.worker) || x.made.Some? ==>
        && x.succeeded && x.claimedAt.Some?
        && x.approval.issuedAt <= x.claimedAt.value < x.approval.expiresAt
        && x.approval.expiresAt - x.approval.issuedAt <= Approval.LIFETIME_MS
        && x.approval.nonce in t.ledger && t.ledger[x.approval.nonce] == p
        && (p != q && y.approval.nonce == x.approval.nonce ==> !y.succeeded && !PastGo(y.worker) && y.made.None?)
  {
    hide Initial, Run, BoundOk, SaidInv, HoldInv, EndInv;
    RunInv(b, s, moves);
    var t := Run(b, s, moves);
    assert ProcInv(b, t.ledger, t.out, p, t.procs[p]) && ProcInv(b, t.ledger, t.out, q, t.procs[q]);
  }

  lemma ClaimUntouched(b: Bound, v: View, pid: nat, m: Move)
    requires |b.outputs| == FILE_COUNT && (m.Work? || m.Close?)
    ensures
      var w := Act(b, v, pid, m);
      && w.ledger == v.ledger && w.me.claimedAt == v.me.claimedAt && w.me.succeeded == v.me.succeeded
      && (w.me.phase == v.me.phase || w.me.phase.Over? || w.me.phase.Unlinking?)
  {
    hide Checked, Supervisor.Accepted;
    if m.Work? { WorkUntouched(b, v, pid, m.fault, m.identity, m.bytes); }
    hide DoWork;
  }

  lemma WorkUntouched(b: Bound, v: View, pid: nat, fault: bool, identity: Identity, bytes: nat)
    requires |b.outputs| == FILE_COUNT
    ensures
      var w := DoWork(b, v, pid, fault, identity, bytes);
      && w.ledger == v.ledger && w.me.claimedAt == v.me.claimedAt && w.me.succeeded == v.me.succeeded
      && w.me.phase == v.me.phase
  {
    hide Created, Written, Holds;
  }

  /** The time that counts for the window is the clock at the moment of the check. */
  lemma WindowIsCheckedNow(b: Bound, v: View, pid: nat, m: Move)
    requires |b.outputs| == FILE_COUNT
    ensures
      var w := Act(b, v, pid, m);
      && (w.me.phase.Claiming? && w.me.phase != v.me.phase ==> w.me.phase.at == v.clock)
      && (w.me.claimedAt != v.me.claimedAt ==> v.me.phase.Claiming? && w.me.claimedAt == Some(v.me.phase.at))
  {
    hide DoWork, DoClose, Supervisor.Step, Approval.ValidTime;
    if m.Work? || m.Close? { ClaimUntouched(b, v, pid, m); }
  }

  /** The worker has not yet asked for the go byte. */
  predicate BeforeReady(w: Worker) {
    w.NotStarted? || w.Preparing? || w.Loaded?
  }

  /** An executor asks its authority to consume only after its worker said READY. */
  predicate ReadyFirst(x: Proc) {
    && (BeforeReady(x.worker) ==> x.pipe == [])
    && (x.isExecutor && (x.phase.Claiming? || x.phase.Claimed? || x.claimedAt.Some? || x.succeeded) ==>
          !BeforeReady(x.worker))
  }

  lemma ActReadyFirst(b: Bound, v: View, pid: nat, m: Move)
    requires |b.outputs| == FILE_COUNT && ReadyFirst(v.me)
    ensures ReadyFirst(Act(b, v, pid, m).me)
  {
    hide DoWork, DoClose, Supervisor.Step, Approval.ValidTime;
    match m {
      case Work(fault, identity, bytes) => WorkReadyFirst(b, v, pid, fault, identity, bytes);
      case Close(_) => CloseReadyFirst(b, v, pid, m);
      case _ =>
    }
  }

  lemma WorkReadyFirst(b: Bound, v: View, pid: nat, fault: bool, identity: Identity, bytes: nat)
    requires |b.outputs| == FILE_COUNT && ReadyFirst(v.me)
    ensures ReadyFirst(DoWork(b, v, pid, fault, identity, bytes).me)
  {
    hide DoWork;
    WorkUntouched(b, v, pid, fault, identity, bytes);
    StillBeforeReady(b, v, pid, fault, identity, bytes);
  }

  lemma StillBeforeReady(b: Bound, v: View, pid: nat, fault: bool, identity: Identity, bytes: nat)
    requires |b.outputs| == FILE_COUNT
    ensures var x, y := v.me, DoWork(b, v, pid, fault, identity, bytes).me;
            && (BeforeReady(y.worker) ==> BeforeReady(x.worker) && y.pipe == x.pipe)
            && y.isExecutor == x.isExecutor
  {
    hide WorkMaking, WorkMade, WorkOpening, WorkOpened, WorkWriting;
    var u := v.me.worker;
    if u.Making? || AtWork(u) { LaterWork(b, v, pid, identity, bytes, if u.Making? || u.Made? then 0 else u.i); }
  }

  lemma LaterWork(b: Bound, v: View, pid: nat, identity: Identity, bytes: nat, i: nat)
    requires |b.outputs| == FILE_COUNT
    ensures forall w :: w in [WorkMaking(v, pid, identity), WorkMade(v), WorkOpening(v, pid, i, identity),
                              WorkOpened(v, pid, i), WorkWriting(b, v, pid, i, bytes)] ==>
              !BeforeReady(w.me.worker) && w.me.isExecutor == v.me.isExecutor
  {
    hide Created, Written, Holds;
  }

  lemma CloseReadyFirst(b: Bound, v: View, pid: nat, m: Move)
    requires |b.outputs| == FILE_COUNT && m.Close?
    ensures var x, y := v.me, Act(b, v, pid, m).me;
            && y.worker == x.worker && y.pipe == x.pipe
            && (y.phase.Claiming? || y.phase.Claimed? ==> y.phase == x.phase)
            && y.isExecutor == x.isExecutor && y.claimedAt == x.claimedAt && y.succeeded == x.succeeded
  {
    hide Checked, Supervisor.Accepted;
  }

  /** Over every run: what an executor consumed, or is about to, its worker asked for. */
  lemma ConsumesAfterReady(b: Bound, s: System, moves: seq<(nat, Move)>, p: nat)
    requires |b.outputs| == FILE_COUNT && Initial(s) && p < |s.procs|
    ensures ReadyFirst(Run(b, s, moves).procs[p])
  {
    hide ReadyFirst, Act;
    if moves == [] {
      FreshIsReadyFirst(s.procs[p]);
    } else {
      var (pid, m) := moves[|moves| - 1];
      var t := Run(b, s, moves[..|moves| - 1]);
      ConsumesAfterReady(b, s, moves[..|moves| - 1], p);
      if p == pid { ActReadyFirst(b, Look(t, pid), pid, m); }
    }
  }

  lemma FreshIsReadyFirst(x: Proc)
    requires Fresh(x)
    ensures ReadyFirst(x)
  {
  }

  /** A worker changes nothing but a directory of its own, or a vacant destination. */
  lemma WorksOnItsOwn(b: Bound, v: View, pid: nat, fault: bool, identity: Identity, bytes: nat)
    requires |b.outputs| == FILE_COUNT
    ensures
      var w := Act(b, v, pid, Work(fault, identity, bytes));
      w.out != v.out ==> (v.out.None? && v.me.worker.Making?) || (v.out.Some? && v.out.value.owner == Some(pid))
  {
    hide Created, Written;
  }

  predicate Faulty(m: Move) {
    match m
    case Verify(fault) => fault
    case Create(fault) => fault
    case Finish(fault) => fault
    case Receive(fault) => fault
    case Close(fault) => fault
    case Unlink(_, fault) => fault
    case Rmdir(fault) => fault
    case Work(fault, _, _) => fault
    case _ => false
  }

  /** A step in which a call fails brings no process further than to a refusal or a report of failure. */
  lemma FaultDenies(b: Bound, v: View, pid: nat, m: Move)
    requires |b.outputs| == FILE_COUNT && Faulty(m)
    ensures
      var x, y := v.me, Act(b, v, pid, m).me;
      y.phase == x.phase || y.phase.Refused? || y.phase == Over(false, false)
  {
    hide Checked, Supervisor.Accepted, Approval.ValidTime, Supervisor.Step, DoWork;
    if m.Work? { WorkUntouched(b, v, pid, m.fault, m.identity, m.bytes); }
  }

  /** With its nonce burnt, no process is verified or creates the terminal file. */
  lemma BurntDenies(b: Bound, v: View, pid: nat, m: Move)
    requires |b.outputs| == FILE_COUNT && v.me.approval.nonce in v.ledger
    ensures
      var w := Act(b, v, pid, m);
      && w.ledger == v.ledger
      && (w.me.phase.Verified? ==> v.me.phase.Verified?)
      && w.me.claimedAt == v.me.claimedAt
      && (w.me.phase.Claimed? ==> v.me.phase.Claimed?)
      && (w.me.succeeded && !v.me.succeeded ==> v.me.phase.Claimed?)
  {
    hide DoWork, DoClose, Supervisor.Step, Approval.ValidTime;
    if m.Work? || m.Close? { ClaimUntouched(b, v, pid, m); }
  }

  lemma NextGrows(b: Bound, s: System, pid: nat, m: Move)
    requires |b.outputs| == FILE_COUNT && BoundOk(b) && Inv(b, s)
    ensures
      var t := Next(b, s, pid, m);
      && s.clock <= t.clock
      && (forall n :: n in s.ledger ==> n in t.ledger && t.ledger[n] == s.ledger[n])
      && (forall p :: 0 <= p < |s.procs| ==> t.procs[p].approval == s.procs[p].approval)
  {
    hide ProcInv, OwnerInv, Act;
    if pid < |s.procs| { ActKeeps(b, Look(s, pid), pid, m); }
  }

  /** Over every run: a burnt nonce stays burnt, by the same process, and approvals never change. */
  lemma RunGrows(b: Bound, s: System, moves: seq<(nat, Move)>, more: seq<(nat, Move)>)
    requires |b.outputs| == FILE_COUNT && BoundOk(b) && Initial(s)
    ensures
      var t, u := Run(b, s, moves), Run(b, s, moves + more);
      && t.clock <= u.clock
      && (forall n :: n in t.ledger ==> n in u.ledger && u.ledger[n] == t.ledger[n])
      && (forall p :: 0 <= p < |s.procs| ==> u.procs[p].approval == t.procs[p].approval)
  {
    hide Initial, Next, BoundOk, Inv;
    if more == [] {
      assert moves + more == moves;
    } else {
      var shorter := more[..|more| - 1];
      RunGrows(b, s, moves, shorter);
      RunInv(b, s, moves + shorter);
      assert (moves + more)[..|moves + more| - 1] == moves + shorter;
      var (pid, m) := more[|more| - 1];
      NextGrows(b, Run(b, s, moves + shorter), pid, m);
    }
  }

  // ---- What is left behind ------------------------------------------------

  /** An entry disappears only when its process's worker made and reported a file with that very identity. */
  lemma RemovesOnlyReported(b: Bound, v: View, pid: nat, m: Move, i: nat)
    requires |b.outputs| == FILE_COUNT && BoundOk(b) && ViewInv(b, v, pid)
    requires v.out.Some? && i in v.out.value.entries
    ensures
      var w, x := Act(b, v, pid, m), v.me;
      w.out.None? || i !in w.out.value.entries ==>
        && x.phase.Unlinking? && v.out.value.owner == Some(pid)
        && i in x.watch.records && i in x.files
        && v.out.value.entries[i].identity == x.watch.records[i] == x.files[i]
  {
    hide ClaimInv, WorkInv, DoVerify, DoBegin, DoCreate, DoFinish, DoReceive, DoClose;
    if m.Work? { WorkRemovesNothing(b, v, pid, m, i); }
    hide DoWork;
    if !m.Unlink? && !m.Rmdir? && !m.Work? { OutStays(b, v, pid, m); }
  }

  lemma OutStays(b: Bound, v: View, pid: nat, m: Move)
    requires |b.outputs| == FILE_COUNT && !m.Unlink? && !m.Rmdir? && !m.Work?
    ensures Act(b, v, pid, m).out == v.out
  {
  }

  lemma WorkRemovesNothing(b: Bound, v: View, pid: nat, m: Move, i: nat)
    requires |b.outputs| == FILE_COUNT && m.Work? && v.out.Some? && i in v.out.value.entries
    ensures var w := Act(b, v, pid, m); w.out.Some? && i in w.out.value.entries
  {
  }

  /** When a denied attempt reports a complete cleanup, attempt-3 does not exist. */
  lemma CompleteMeansAbsent(b: Bound, v: View, pid: nat, m: Move)
    requires |b.outputs| == FILE_COUNT && !v.me.phase.Over?
    ensures var w := Act(b, v, pid, m); w.me.phase == Over(false, true) ==> w.out.None?
  {
    hide Supervisor.Accepted, Supervisor.Step, Checked, DoWork, DoReceive, Approval.ValidTime;
    if m.Work? || m.Receive? { NotOver(b, v, pid, m); }
  }

  lemma NotOver(b: Bound, v: View, pid: nat, m: Move)
    requires |b.outputs| == FILE_COUNT && !v.me.phase.Over? && (m.Work? || m.Receive?)
    ensures !Act(b, v, pid, m).me.phase.Over?
  {
  }

  /** What was at the destination before any process here is still there, or nothing was reported clean. */
  predicate ForeignInv(s: System) {
    s.out.Some? && s.out.value.owner.None? ==>
      forall p :: 0 <= p < |s.procs| ==> s.procs[p].phase != Over(false, true)
  }

  lemma NextForeign(b: Bound, s: System, pid: nat, m: Move)
    requires |b.outputs| == FILE_COUNT && BoundOk(b) && Inv(b, s) && ForeignInv(s)
    ensures ForeignInv(Next(b, s, pid, m))
  {
    hide ProcInv, OwnerInv, Act;
    if pid < |s.procs| {
      var v := Look(s, pid);
      ActKeeps(b, v, pid, m);
      if !v.me.phase.Over? { CompleteMeansAbsent(b, v, pid, m); } else { OverStays(b, v, pid, m); }
    }
  }

  lemma OverStays(b: Bound, v: View, pid: nat, m: Move)
    requires |b.outputs| == FILE_COUNT && v.me.phase.Over?
    ensures Act(b, v, pid, m).me.phase == v.me.phase
  {
  }

  /** A directory made by a process here names one of them. */
  predicate OwnerKnown(s: System) {
    s.out.Some? && s.out.value.owner.Some? ==> s.out.value.owner.value < |s.procs|
  }

  lemma RunOwnerKnown(b: Bound, s: System, moves: seq<(nat, Move)>)
    requires |b.outputs| == FILE_COUNT && BoundOk(b) && Initial(s)
    ensures OwnerKnown(Run(b, s, moves))
  {
    hide Inv, Act, BoundOk, ViewInv, ProcInv, OwnerInv;
    if moves != [] {
      var (pid, m) := moves[|moves| - 1];
      var before := moves[..|moves| - 1];
      RunOwnerKnown(b, s, before);
      RunInv(b, s, before);
      hide Initial;
      NextOwnerKnown(b, Run(b, s, before), pid, m);
    }
  }

  lemma NextOwnerKnown(b: Bound, s: System, pid: nat, m: Move)
    requires |b.outputs| == FILE_COUNT && BoundOk(b) && Inv(b, s) && OwnerKnown(s)
    ensures OwnerKnown(Next(b, s, pid, m))
  {
    hide ProcInv, OwnerInv, Act;
    if pid < |s.procs| { ActKeeps(b, Look(s, pid), pid, m); }
  }

  lemma RunForeign(b: Bound, s: System, moves: seq<(nat, Move)>)
    requires |b.outputs| == FILE_COUNT && BoundOk(b) && Initial(s)
    ensures ForeignInv(Run(b, s, moves))
  {
    hide Inv, Next, BoundOk;
    if moves != [] {
      hide Initial, ForeignInv;
      var (pid, m) := moves[|moves| - 1];
      var before := moves[..|moves| - 1];
      RunForeign(b, s, before);
      RunInv(b, s, before);
      NextForeign(b, Run(b, s, before), pid, m);
    }
  }

  /** Over every run: after a denial reported complete, whatever is at attempt-3 was made by the
      worker of another executor, which owns it: it has not removed it. */
  lemma DeniedCompleteLeavesNothing(b: Bound, s: System, moves: seq<(nat, Move)>, p: nat)
    requires |b.outputs| == FILE_COUNT && BoundOk(b) && Initial(s) && p < |s.procs|
    ensures
      var t := Run(b, s, moves);
      t.procs[p].phase == Over(false, true) && t.out.Some? ==>
        && !Owns(t.procs[p]) && t.out.value.owner.Some?
        && var q := t.out.value.owner.value;
           q != p && q < |t.procs| && Owns(t.procs[q]) && t.procs[q].made == Some(t.out.value.identity)
  {
    hide Initial, Run, BoundOk, ClaimInv, WorkInv, SaidInv;
    RunInv(b, s, moves);
    RunForeign(b, s, moves);
    RunOwnerKnown(b, s, moves);
    var t := Run(b, s, moves);
    assert ProcInv(b, t.ledger, t.out, p, t.procs[p]) && OwnerInv(t.out, p, t.procs[p]);
    if t.out.Some? && t.out.value.owner.Some? {
      var q := t.out.value.owner.value;
      assert ProcInv(b, t.ledger, t.out, q, t.procs[q]) && OwnerInv(t.out, q, t.procs[q]);
    }
  }

  /** Over every run: a prepared attempt was consumed, and attempt-3 is the directory its worker made
      and reported, with the six bound outputs in it and nothing else; and it stays so. */
  lemma PreparedHolds(b: Bound, s: System, moves: seq<(nat, Move)>, p: nat)
    requires |b.outputs| == FILE_COUNT && BoundOk(b) && Initial(s) && p < |s.procs|
    ensures
      var t := Run(b, s, moves);
      var x := t.procs[p];
      x.phase.Over? && x.phase.prepared ==>
        && x.succeeded && x.made.Some?
        && t.out.Some? && t.out.value.owner == Some(p) && x.made == Some(t.out.value.identity)
        && HoldsOutputs(b, t.out.value)
  {
    hide Initial, Run, BoundOk, ClaimInv, SaidInv, HoldsOutputs;
    RunInv(b, s, moves);
    var t := Run(b, s, moves);
    assert ProcInv(b, t.ledger, t.out, p, t.procs[p]);
  }
}
