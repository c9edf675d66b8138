/**
 The protocol can succeed: an executor with a valid, unburnt approval and a vacant
 destination has a run in which it is prepared, whatever the other processes hold.
 */
module OneShotProgress {
  import opened Wrappers
  import opened Messages
  import opened Destination
  import opened OneShot
  import Approval
  import Supervisor
  import Transcripts

  // ---- Runs of one process ------------------------------------------------

  function ActAll(b: Bound, v: View, pid: nat, ms: seq<Move>): View
    requires |b.outputs| == FILE_COUNT
  {
    if ms == [] then v else Act(b, ActAll(b, v, pid, ms[..|ms| - 1]), pid, ms[|ms| - 1])
  }

  function Place(s: System, pid: nat, v: View): System
    requires pid < |s.procs|
  {
    System(v.clock, v.ledger, v.out, s.procs[pid := v.me])
  }

  function By(pid: nat, ms: seq<Move>): seq<(nat, Move)> {
    seq(|ms|, i requires 0 <= i < |ms| => (pid, ms[i]))
  }

  /** When only one process moves, the system follows its view. */
  lemma RunPlaces(b: Bound, s: System, pid: nat, ms: seq<Move>)
    requires |b.outputs| == FILE_COUNT && pid < |s.procs|
    ensures Run(b, s, By(pid, ms)) == Place(s, pid, ActAll(b, Look(s, pid), pid, ms))
  {
    hide Act;
    if ms == [] {
      assert s.procs[pid := s.procs[pid]] == s.procs;
    } else {
      var front := ms[..|ms| - 1];
      assert By(pid, ms)[..|ms| - 1] == By(pid, front);
      RunPlaces(b, s, pid, front);
      assert s.procs[pid := Run(b, s, By(pid, front)).procs[pid]] == Run(b, s, By(pid, front)).procs;
    }
  }

  lemma ActAllConcat(b: Bound, v: View, pid: nat, a: seq<Move>, c: seq<Move>)
    requires |b.outputs| == FILE_COUNT
    ensures ActAll(b, v, pid, a + c) == ActAll(b, ActAll(b, v, pid, a), pid, c)
  {
    hide Act;
    if c == [] {
      assert a + c == a;
    } else {
      ActAllConcat(b, v, pid, a, c[..|c| - 1]);
      assert (a + c)[..|a + c| - 1] == a + c[..|c| - 1];
    }
  }

  lemma ActOne(b: Bound, v: View, pid: nat, ms: seq<Move>, m: Move)
    requires |b.outputs| == FILE_COUNT
    ensures ActAll(b, v, pid, ms + [m]) == Act(b, ActAll(b, v, pid, ms), pid, m)
  {
    hide Act;
    assert (ms + [m])[..|ms|] == ms;
  }

  // ---- The stages of a success --------------------------------------------

  const STEP := Work(false, Identity(0, 0), 0)

  /** Ready to begin: verified by nobody yet, valid, unburnt, and nothing at the destination. */
  predicate CanSucceed(v: View) {
    && Fresh(v.me) && v.me.isExecutor && v.out.None?
    && v.me.approval.nonce !in v.ledger && Approval.ValidTime(v.me.approval, v.clock)
  }

  /** The moves up to a consumed approval, and from there to an empty directory. */
  const CONSUMING := [Verify(false), Spawn, STEP, STEP, Receive(false), Create(false), Finish(false)]

  function MovesToFolder(dir: Identity): seq<Move> {
    [STEP, STEP, Receive(false), Work(false, dir, 0), STEP, Receive(false), Tick(0)]
  }

  /** The approval is consumed and the worker waits for its byte. */
  function Consumed(v: View, pid: nat): View {
    v.(ledger := v.ledger[v.me.approval.nonce := pid],
       me := v.me.(phase := Settled, worker := AwaitGo, claimedAt := Some(v.clock), succeeded := true,
                   watch := Supervisor.START.(ready := true)))
  }

  lemma ReachConsumed(b: Bound, v: View, pid: nat)
    requires |b.outputs| == FILE_COUNT && CanSucceed(v)
    ensures ActAll(b, v, pid, CONSUMING) == Consumed(v, pid)
  {
    hide Approval.ValidTime;
    var v1 := Act(b, v, pid, Verify(false));
    var v2 := Act(b, v1, pid, Spawn);
    var v3 := Act(b, v2, pid, STEP);
    var v4 := Act(b, v3, pid, STEP);
    assert v4.me.pipe == [Ready];
    var v5 := Act(b, v4, pid, Receive(false));
    assert v5.me.phase == Claiming(v.clock) && v5.me.pipe == [];
    var v6 := Act(b, v5, pid, Create(false));
    var v7 := Act(b, v6, pid, Finish(false));
    assert v7 == Consumed(v, pid);
    SevenMoves(b, v, pid, Verify(false), Spawn, STEP, STEP, Receive(false), Create(false), Finish(false));
  }

  lemma SevenMoves(b: Bound, v: View, pid: nat, m1: Move, m2: Move, m3: Move, m4: Move, m5: Move, m6: Move, m7: Move)
    requires |b.outputs| == FILE_COUNT
    ensures
      var half := Act(b, Act(b, Act(b, Act(b, v, pid, m1), pid, m2), pid, m3), pid, m4);
      ActAll(b, v, pid, [m1, m2, m3, m4, m5, m6, m7]) == Act(b, Act(b, Act(b, half, pid, m5), pid, m6), pid, m7)
  {
    hide Act, ActAll;
    NoMoves(b, v, pid);
    ActOne(b, v, pid, [], m1);
    ActOne(b, v, pid, [m1], m2);
    ActOne(b, v, pid, [m1, m2], m3);
    ActOne(b, v, pid, [m1, m2, m3], m4);
    ActOne(b, v, pid, [m1, m2, m3, m4], m5);
    ActOne(b, v, pid, [m1, m2, m3, m4, m5], m6);
    ActOne(b, v, pid, [m1, m2, m3, m4, m5, m6], m7);
    assert [] + [m1] == [m1] && [m1] + [m2] == [m1, m2] && [m1, m2] + [m3] == [m1, m2, m3];
    assert [m1, m2, m3] + [m4] == [m1, m2, m3, m4] && [m1, m2, m3, m4] + [m5] == [m1, m2, m3, m4, m5];
    assert [m1, m2, m3, m4, m5] + [m6] == [m1, m2, m3, m4, m5, m6];
    assert [m1, m2, m3, m4, m5, m6] + [m7] == [m1, m2, m3, m4, m5, m6, m7];
  }

  lemma NoMoves(b: Bound, v: View, pid: nat)
    requires |b.outputs| == FILE_COUNT
    ensures ActAll(b, v, pid, []) == v
  {
  }

  lemma FourMoves(b: Bound, v: View, pid: nat, m1: Move, m2: Move, m3: Move, m4: Move)
    requires |b.outputs| == FILE_COUNT
    ensures ActAll(b, v, pid, [m1, m2, m3, m4]) == Act(b, Act(b, Act(b, Act(b, v, pid, m1), pid, m2), pid, m3), pid, m4)
  {
    hide Act, ActAll;
    NoMoves(b, v, pid);
    ActOne(b, v, pid, [], m1);
    ActOne(b, v, pid, [m1], m2);
    ActOne(b, v, pid, [m1, m2], m3);
    ActOne(b, v, pid, [m1, m2, m3], m4);
    assert [] + [m1] == [m1] && [m1] + [m2] == [m1, m2] && [m1, m2] + [m3] == [m1, m2, m3];
    assert [m1, m2, m3] + [m4] == [m1, m2, m3, m4];
  }

  // ---- The files, one by one ----------------------------------------------

  function Recorded(ids: seq<Identity>, k: nat): map<nat, Identity>
    requires k <= |ids|
  {
    map i: nat | i < k :: ids[i]
  }

  function Entries(b: Bound, ids: seq<Identity>, k: nat): map<nat, Node>
    requires |b.outputs| == FILE_COUNT == |ids| && k <= FILE_COUNT
  {
    map i: nat | i < k :: Node(ids[i], true, 1, FILE_MODE, b.outputs[i])
  }

  /** `k` files are written, reported and recorded. */
  function Filled(b: Bound, v: View, pid: nat, dir: Identity, ids: seq<Identity>, k: nat): View
    requires |b.outputs| == FILE_COUNT == |ids| && k <= FILE_COUNT
  {
    var w := Consumed(v, pid);
    w.(out := Some(Folder(dir, Some(pid), DIRECTORY_MODE, Entries(b, ids, k))),
       me := w.me.(worker := Opening(k), pipe := [], made := Some(dir), files := Recorded(ids, k),
                   watch := Supervisor.Watch(true, true, false, false, Some(dir), Recorded(ids, k), "", 0)))
  }

  lemma ReachFolder(b: Bound, v: View, pid: nat, dir: Identity, ids: seq<Identity>)
    requires |b.outputs| == FILE_COUNT == |ids| && CanSucceed(v)
    ensures ActAll(b, Consumed(v, pid), pid, MovesToFolder(dir)) == Filled(b, v, pid, dir, ids, 0)
  {
    hide Act, ActAll, Approval.ValidTime;
    var w := Consumed(v, pid);
    Checks(b, w, pid);
    var v2 := Act(b, Act(b, w, pid, STEP), pid, STEP);
    Receives(b, v2, pid, Valid);
    var v3 := Act(b, v2, pid, Receive(false));
    MakesFolder(b, v3, pid, dir);
    var v5 := Act(b, Act(b, v3, pid, Work(false, dir, 0)), pid, STEP);
    Receives(b, v5, pid, Dir(dir));
    var v6 := Act(b, v5, pid, Receive(false));
    assert Entries(b, ids, 0) == map[] && Recorded(ids, 0) == map[];
    Waits(b, v6, pid);
    SevenMoves(b, w, pid, STEP, STEP, Receive(false), Work(false, dir, 0), STEP, Receive(false), Tick(0));
  }

  lemma Checks(b: Bound, v: View, pid: nat)
    requires |b.outputs| == FILE_COUNT && v.me.worker == AwaitGo && v.me.succeeded && v.me.pipe == []
    ensures Act(b, Act(b, v, pid, STEP), pid, STEP) == v.(me := v.me.(pipe := [Valid], worker := Making))
  {
  }

  lemma MakesFolder(b: Bound, v: View, pid: nat, dir: Identity)
    requires |b.outputs| == FILE_COUNT && v.me.worker == Making && v.out.None? && v.me.pipe == []
    ensures Act(b, Act(b, v, pid, Work(false, dir, 0)), pid, STEP) ==
            v.(out := Some(Folder(dir, Some(pid), DIRECTORY_MODE, map[])),
               me := v.me.(made := Some(dir), pipe := [Dir(dir)], worker := Opening(0)))
  {
  }

  lemma Opens(b: Bound, v: View, pid: nat, i: nat, identity: Identity)
    requires |b.outputs| == FILE_COUNT && v.me.worker == Opening(i) && i < FILE_COUNT
    requires Holds(v, pid) && i !in v.out.value.entries
    ensures Act(b, v, pid, Work(false, identity, 0)) ==
            v.(out := Some(Created(v.out.value, i, identity)),
               me := v.me.(files := v.me.files[i := identity], worker := Opened(i)))
  {
  }

  lemma Reports(b: Bound, v: View, pid: nat, i: nat)
    requires |b.outputs| == FILE_COUNT && v.me.worker == Opened(i) && i < FILE_COUNT
    requires Holds(v, pid) && i in v.out.value.entries
    ensures Act(b, v, pid, STEP) == v.(me := Say(v.me, File(i, v.out.value.entries[i].identity), Writing(i)))
  {
  }

  lemma Receives(b: Bound, v: View, pid: nat, m: Message)
    requires |b.outputs| == FILE_COUNT && v.me.phase.Settled? && v.me.pipe == [m]
    requires !v.me.watch.aborted && v.me.watch.ready
    ensures Act(b, v, pid, Receive(false)) == v.(me := v.me.(pipe := [], watch := Supervisor.Step(v.me.watch, m, true)))
  {
  }

  lemma WritesAll(b: Bound, v: View, pid: nat, i: nat, identity: Identity)
    requires |b.outputs| == FILE_COUNT && v.me.worker == Writing(i) && i < FILE_COUNT
    requires Holds(v, pid) && i in v.out.value.entries && v.out.value.entries[i].content == []
    ensures Act(b, v, pid, Work(false, identity, |b.outputs[i]|)) ==
            v.(out := Some(Written(v.out.value, i, b.outputs[i])), me := v.me.(worker := Opening(i + 1)))
  {
    assert b.outputs[i][..|b.outputs[i]|] == b.outputs[i];
  }

  lemma NextFile(b: Bound, v: View, pid: nat, dir: Identity, ids: seq<Identity>, k: nat)
    requires |b.outputs| == FILE_COUNT == |ids| && k < FILE_COUNT
    ensures
      var file := [Work(false, ids[k], 0), STEP, Receive(false), Work(false, dir, |b.outputs[k]|)];
      ActAll(b, Filled(b, v, pid, dir, ids, k), pid, file) == Filled(b, v, pid, dir, ids, k + 1)
  {
    hide Act, ActAll, Consumed;
    var w := Filled(b, v, pid, dir, ids, k);
    var entries, records := Entries(b, ids, k), Recorded(ids, k);
    Opens(b, w, pid, k, ids[k]);
    var v1 := Act(b, w, pid, Work(false, ids[k], 0));
    assert v1.out.value.entries == entries[k := Node(ids[k], true, 1, FILE_MODE, [])];
    Reports(b, v1, pid, k);
    var v2 := Act(b, v1, pid, STEP);
    assert v2.me.pipe == [File(k, ids[k])];
    SettledStays(v, pid);
    Receives(b, v2, pid, File(k, ids[k]));
    var v3 := Act(b, v2, pid, Receive(false));
    assert v3.me.watch == w.me.watch.(records := records[k := ids[k]]);
    WritesAll(b, v3, pid, k, dir);
    OneMore(b, ids, k);
    FourMoves(b, w, pid, Work(false, ids[k], 0), STEP, Receive(false), Work(false, dir, |b.outputs[k]|));
  }

  lemma SettledStays(v: View, pid: nat)
    ensures Consumed(v, pid).me.phase.Settled? && Consumed(v, pid).me.isExecutor == v.me.isExecutor
  {
  }

  lemma OneMore(b: Bound, ids: seq<Identity>, k: nat)
    requires |b.outputs| == FILE_COUNT == |ids| && k < FILE_COUNT
    ensures Recorded(ids, k)[k := ids[k]] == Recorded(ids, k + 1)
    ensures
      var empty, full := Node(ids[k], true, 1, FILE_MODE, []), Node(ids[k], true, 1, FILE_MODE, b.outputs[k]);
      Entries(b, ids, k)[k := empty][k := full] == Entries(b, ids, k + 1)
  {
  }

  lemma ReachFilled(b: Bound, v: View, pid: nat, dir: Identity, ids: seq<Identity>, k: nat) returns (ms: seq<Move>)
    requires |b.outputs| == FILE_COUNT == |ids| && k <= FILE_COUNT && CanSucceed(v)
    ensures ActAll(b, v, pid, ms) == Filled(b, v, pid, dir, ids, k)
  {
    hide Act, ActAll, CanSucceed, Filled;
    if k == 0 {
      ReachConsumed(b, v, pid);
      ReachFolder(b, v, pid, dir, ids);
      ActAllConcat(b, v, pid, CONSUMING, MovesToFolder(dir));
      ms := CONSUMING + MovesToFolder(dir);
    } else {
      var before := ReachFilled(b, v, pid, dir, ids, k - 1);
      NextFile(b, v, pid, dir, ids, k - 1);
      var file := [Work(false, ids[k - 1], 0), STEP, Receive(false), Work(false, dir, |b.outputs[k - 1]|)];
      ActAllConcat(b, v, pid, before, file);
      ms := before + file;
    }
  }

  lemma ReachPrepared(b: Bound, v: View, pid: nat, dir: Identity, ids: seq<Identity>)
    requires |b.outputs| == FILE_COUNT == |ids| && v.me.isExecutor
    requires forall i :: 0 <= i < FILE_COUNT ==> |b.outputs[i]| <= MAX_BYTES
    ensures
      var last := [STEP, Receive(false), Tick(0), Close(false)];
      ActAll(b, Filled(b, v, pid, dir, ids, FILE_COUNT), pid, last).me.phase == Over(true, true)
  {
    hide Act, ActAll, Consumed, Entries, Recorded, Checked, Supervisor.Accepted;
    var w := Filled(b, v, pid, dir, ids, FILE_COUNT);
    SettledStays(v, pid);
    AllFull(b, ids);
    Finishes(b, w, pid);
    var v1 := Act(b, w, pid, STEP);
    Receives(b, v1, pid, Done);
    var v2 := Act(b, v1, pid, Receive(false));
    assert v2.me.watch == w.me.watch.(done := true);
    Waits(b, v2, pid);
    AllChecked(b, w.out.value, dir, pid, ids);
    ClosesPrepared(b, v2, pid);
    FourMoves(b, w, pid, STEP, Receive(false), Tick(0), Close(false));
  }

  lemma Finishes(b: Bound, v: View, pid: nat)
    requires |b.outputs| == FILE_COUNT && v.me.worker == Opening(FILE_COUNT)
    ensures Act(b, v, pid, STEP) == v.(me := Say(v.me, Done, Exited(0)))
  {
  }

  lemma Waits(b: Bound, v: View, pid: nat)
    requires |b.outputs| == FILE_COUNT
    ensures Act(b, v, pid, Tick(0)) == v
  {
  }

  lemma ClosesPrepared(b: Bound, v: View, pid: nat)
    requires |b.outputs| == FILE_COUNT && v.me.isExecutor && v.me.phase.Settled? && v.me.pipe == []
    requires v.me.worker == Exited(0) && Checked(b, v.out, v.me.watch.dir, v.me.watch.records)
    requires var w := v.me.watch;
             !w.aborted && w.ready && w.validated && w.done && |w.records| == FILE_COUNT && w.output == ""
    ensures Act(b, v, pid, Close(false)).me.phase == Over(true, true)
  {
    hide Checked;
  }

  lemma AllFull(b: Bound, ids: seq<Identity>)
    requires |b.outputs| == FILE_COUNT == |ids|
    ensures |Recorded(ids, FILE_COUNT)| == FILE_COUNT == |Entries(b, ids, FILE_COUNT)|
  {
    FullMap(Recorded(ids, FILE_COUNT));
    FullMap(Entries(b, ids, FILE_COUNT));
  }

  lemma AllChecked(b: Bound, d: Folder, dir: Identity, pid: nat, ids: seq<Identity>)
    requires |b.outputs| == FILE_COUNT == |ids|
    requires forall i :: 0 <= i < FILE_COUNT ==> |b.outputs[i]| <= MAX_BYTES
    requires d == Folder(dir, Some(pid), DIRECTORY_MODE, Entries(b, ids, FILE_COUNT))
    ensures Checked(b, Some(d), Some(dir), Recorded(ids, FILE_COUNT))
  {
    AllFull(b, ids);
  }

  lemma FullMap<T>(m: map<nat, T>)
    requires forall i :: i in m <==> 0 <= i < FILE_COUNT
    ensures |m| == FILE_COUNT
  {
    assert m.Keys == Transcripts.ALL_INDICES;
    assert Transcripts.ALL_INDICES == {0, 1, 2, 3, 4} + {5};
  }

  /** For any other processes, identities and outputs of at most a mebibyte: some run prepares. */
  lemma CanPrepare(b: Bound, s: System, pid: nat, dir: Identity, ids: seq<Identity>)
    requires |b.outputs| == FILE_COUNT == |ids| && pid < |s.procs| && CanSucceed(Look(s, pid))
    requires forall i :: 0 <= i < FILE_COUNT ==> |b.outputs[i]| <= MAX_BYTES
    ensures exists moves :: Run(b, s, moves).procs[pid].phase == Over(true, true)
  {
    hide Act, ActAll, CanSucceed, Filled;
    var v := Look(s, pid);
    CanSucceedIsExecutor(v);
    var ms := ReachFilled(b, v, pid, dir, ids, FILE_COUNT);
    ReachPrepared(b, v, pid, dir, ids);
    var last := [STEP, Receive(false), Tick(0), Close(false)];
    ActAllConcat(b, v, pid, ms, last);
    RunPlaces(b, s, pid, ms + last);
    var moves := By(pid, ms + last);
    assert Run(b, s, moves).procs[pid].phase == Over(true, true);
  }

  lemma CanSucceedIsExecutor(v: View)
    requires CanSucceed(v)
    ensures v.me.isExecutor
  {
  }

  /** A revoker with a valid, unburnt approval can burn it. */
  lemma CanRevoke(b: Bound, s: System, pid: nat)
    requires |b.outputs| == FILE_COUNT && pid < |s.procs|
    requires var v := Look(s, pid);
             && Fresh(v.me) && !v.me.isExecutor && v.me.approval.nonce !in v.ledger
             && Approval.ValidTime(v.me.approval, v.clock)
    ensures exists moves ::
              var t := Run(b, s, moves);
              t.procs[pid].succeeded && t.ledger == s.ledger[s.procs[pid].approval.nonce := pid]
  {
    hide ActAll, Approval.ValidTime;
    var v := Look(s, pid);
    FourMoves(b, v, pid, Verify(false), Begin, Create(false), Finish(false));
    var ms := [Verify(false), Begin, Create(false), Finish(false)];
    var w := ActAll(b, v, pid, ms);
    assert w.me.succeeded && w.ledger == v.ledger[v.me.approval.nonce := pid];
    RunPlaces(b, s, pid, ms);
    assert Run(b, s, By(pid, ms)).procs[pid].succeeded;
  }

  /** A worker that finds the destination occupied stops before it asks for anything. */
  lemma OccupiedStops(b: Bound, v: View, pid: nat)
    requires |b.outputs| == FILE_COUNT && v.me.worker.Preparing? && v.out.Some?
    ensures Act(b, v, pid, STEP) == v.(me := v.me.(worker := Exited(10)))
  {
  }

  // ---- Single steps of the worker -----------------------------------------

  /** The directory at the destination is the one this process's worker made. */
  ghost predicate HasOwn(v: View, pid: nat) {
    exists d :: v.out == Some(d) && d.owner == Some(pid)
  }

  /** A failed call or check of the worker's own ends it with the code of its stage, and changes nothing else. */
  lemma FaultExits(b: Bound, v: View, pid: nat, identity: Identity, bytes: nat)
    requires |b.outputs| == FILE_COUNT && Alive(v.me.worker)
    ensures
      var w, u := Act(b, v, pid, Work(true, identity, bytes)), v.me.worker;
      && w == v.(me := v.me.(worker := w.me.worker))
      && (w.me.worker == Exited(10) <==> u.Preparing? || u.Loaded? || u.AwaitGo?)
      && (w.me.worker == Exited(20) <==> u.Checking?)
      && (w.me.worker == Exited(30) <==> u.Making? || AtWork(u))
  {
  }

  /** Otherwise, for every step of a running worker: whether it exits, and with which code. It stops for what
      stands at the destination, and for what is in a directory of its own. */
  lemma ExitsExactly(b: Bound, v: View, pid: nat, identity: Identity, bytes: nat)
    requires |b.outputs| == FILE_COUNT && Alive(v.me.worker)
    ensures
      var w, u := Act(b, v, pid, Work(false, identity, bytes)), v.me.worker;
      && (w.me.worker == Exited(10) <==> u.Preparing? && v.out != None)
      && (w.me.worker == Exited(0) <==> u.Opening? && u.i >= 6)
      && (w.me.worker == Exited(30) <==>
            || (u.Making? && v.out != None)
            || (u.Made? && v.out == None)
            || (u.Opening? && u.i < 6 && (!HasOwn(v, pid) || u.i in v.out.value.entries))
            || ((u.Opened? || u.Writing?) && (!HasOwn(v, pid) || u.i >= 6 || u.i !in v.out.value.entries)))
      && (w.me.worker.Exited? ==> w.out == v.out && w.ledger == v.ledger && w.me.worker.code in {0, 10, 30})
  {
    hide Created, Written;
    if Holds(v, pid) { assert v.out == Some(v.out.value) && v.out.value.owner == Some(pid); }
  }

  function Sum(counts: seq<nat>): nat {
    if counts == [] then 0 else Sum(counts[..|counts| - 1]) + counts[|counts| - 1]
  }

  function Writes(identity: Identity, counts: seq<nat>): seq<Move> {
    seq(|counts|, k requires 0 <= k < |counts| => Work(false, identity, counts[k]))
  }

  /** However short the single writes are, they put down the output from its beginning, and the worker
      goes on only once all of it is there. */
  lemma {:induction false} WritesByParts(b: Bound, v: View, pid: nat, i: nat, identity: Identity, counts: seq<nat>)
    requires |b.outputs| == FILE_COUNT && v.me.worker == Writing(i) && i < FILE_COUNT
    requires Holds(v, pid) && i in v.out.value.entries && v.out.value.entries[i].content == []
    requires counts != [] && Sum(counts[..|counts| - 1]) < |b.outputs[i]|
    ensures
      var w, n, all := ActAll(b, v, pid, Writes(identity, counts)), Sum(counts), |b.outputs[i]|;
      && w.out == Some(Written(v.out.value, i, b.outputs[i][..if n < all then n else all]))
      && w.me == v.me.(worker := if n < all then Writing(i) else Opening(i + 1))
  {
    hide Act, ActAll;
    var front, last := counts[..|counts| - 1], counts[|counts| - 1];
    assert Writes(identity, counts) == Writes(identity, front) + [Work(false, identity, last)];
    ActOne(b, v, pid, Writes(identity, front), Work(false, identity, last));
    if front == [] {
      NoMoves(b, v, pid);
      assert b.outputs[i][..0] == [];
      assert Written(v.out.value, i, []).entries == v.out.value.entries;
      WritesSome(b, v, pid, i, identity, last, 0, v.out.value);
    } else {
      WritesByParts(b, v, pid, i, identity, front);
      WritesSome(b, ActAll(b, v, pid, Writes(identity, front)), pid, i, identity, last, Sum(front), v.out.value);
    }
  }

  lemma WritesSome(b: Bound, v: View, pid: nat, i: nat, identity: Identity, bytes: nat, n: nat, d: Folder)
    requires |b.outputs| == FILE_COUNT && v.me.worker == Writing(i) && i < FILE_COUNT && n < |b.outputs[i]|
    requires i in d.entries && d.owner == Some(pid) && v.out == Some(Written(d, i, b.outputs[i][..n]))
    ensures
      var w, all := Act(b, v, pid, Work(false, identity, bytes)), |b.outputs[i]|;
      && w.out == Some(Written(d, i, b.outputs[i][..if n + bytes < all then n + bytes else all]))
      && w.me == v.me.(worker := if n + bytes < all then Writing(i) else Opening(i + 1))
  {
    var w := Act(b, v, pid, Work(false, identity, bytes));
    var all := |b.outputs[i]|;
    var put := b.outputs[i][..if n + bytes < all then n + bytes else all];
    assert Written(Written(d, i, b.outputs[i][..n]), i, put).entries == Written(d, i, put).entries;
  }
}
