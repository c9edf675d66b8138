/**
 The cleanup steps of the protocol and the executor's cleanup are the same: closing,
 unlinking what was reported in any order, and removing the directory, all without
 faults, are complete exactly when the cleanup can be.
 */
module CleanupSteps {
  import opened Wrappers
  import opened Messages
  import opened Destination
  import opened OneShot
  import opened OneShotProgress
  import opened Cleanup
  import Approval
  import Supervisor

  /** The child has closed, its lines are handled or ignored, and the attempt is not accepted. */
  predicate Denied(b: Bound, v: View)
    requires |b.outputs| == FILE_COUNT
  {
    var x := v.me;
    && x.isExecutor && (x.phase.Verified? || x.phase.Settled? || x.phase.Refused?)
    && !Alive(x.worker) && (x.pipe == [] || x.watch.aborted)
    && !(x.worker.Exited? && Supervisor.Accepted(x.watch, x.worker.code, true)
         && Checked(b, v.out, x.watch.dir, x.watch.records))
  }

  /** `order` lists the members of `s`, each once. */
  ghost predicate Lists(order: seq<nat>, s: set<nat>) {
    && (forall i :: i in order <==> i in s)
    && (forall j, k :: 0 <= j < k < |order| ==> order[j] != order[k])
  }

  function Unlinkings(order: seq<nat>): seq<Move> {
    seq(|order|, k requires 0 <= k < |order| => Unlink(order[k], false))
  }

  function CleanupMoves(order: seq<nat>): seq<Move> {
    [Close(false)] + Unlinkings(order) + [Rmdir(false)]
  }

  lemma OverIsStill(b: Bound, v: View, pid: nat, ms: seq<Move>)
    requires |b.outputs| == FILE_COUNT && v.me.phase.Over? && forall m :: m in ms ==> m.Unlink? || m.Rmdir?
    ensures ActAll(b, v, pid, ms) == v
  {
    if ms != [] {
      OverIsStill(b, v, pid, ms[..|ms| - 1]);
      assert ms[|ms| - 1] in ms;
    }
  }

  lemma ActFirst(b: Bound, v: View, pid: nat, m: Move, rest: seq<Move>)
    requires |b.outputs| == FILE_COUNT
    ensures ActAll(b, v, pid, [m] + rest) == ActAll(b, Act(b, v, pid, m), pid, rest)
  {
    hide Act, ActAll;
    NoMoves(b, v, pid);
    ActOne(b, v, pid, [], m);
    assert [] + [m] == [m];
    ActAllConcat(b, v, pid, [m], rest);
  }

  /** Every reported entry is there under the reported identity. */
  predicate AllThere(entries: map<nat, Node>, records: map<nat, Identity>, s: set<nat>) {
    forall i :: i in s ==> i in entries && i in records && entries[i].identity == records[i]
  }

  /** The unlinking loop: all of them go, or the first that is not as reported ends the cleanup. */
  lemma {:induction false} UnlinksAll(b: Bound, v: View, pid: nat, order: seq<nat>)
    requires |b.outputs| == FILE_COUNT && v.out.Some? && v.me.phase.Unlinking? && Lists(order, v.me.phase.todo)
    ensures
      var w, todo := ActAll(b, v, pid, Unlinkings(order)), v.me.phase.todo;
      var d := v.out.value;
      if AllThere(d.entries, v.me.watch.records, todo) then
        && w.me.phase == Unlinking({}) && w.me.watch == v.me.watch
        && w.out == Some(d.(entries := d.entries - todo))
      else w.me.phase == Over(false, false)
    decreases |order|
  {
    hide Act, ActAll;
    if order == [] {
      assert v.me.phase.todo == {};
      assert v.out.value.entries - {} == v.out.value.entries;
      NoMoves(b, v, pid);
      assert Unlinkings(order) == [];
    } else {
      var i, rest, todo := order[0], order[1..], v.me.phase.todo;
      assert i in order;
      assert Unlinkings(order) == [Unlink(i, false)] + Unlinkings(rest);
      ActFirst(b, v, pid, Unlink(i, false), Unlinkings(rest));
      UnlinksOne(b, v, pid, i);
      var w := Act(b, v, pid, Unlink(i, false));
      if w.me.phase.Over? {
        OverIsStill(b, w, pid, Unlinkings(rest));
      } else {
        RestLists(order, todo);
        UnlinksAll(b, w, pid, rest);
        var d := v.out.value;
        assert d.entries - {i} - (todo - {i}) == d.entries - todo;
        assert forall k :: k in todo && k != i ==> (k in d.entries - {i} <==> k in d.entries);
      }
    }
  }

  lemma RestLists(order: seq<nat>, s: set<nat>)
    requires Lists(order, s) && order != []
    ensures Lists(order[1..], s - {order[0]})
  {
    var rest := order[1..];
    assert forall k :: 0 <= k < |rest| ==> rest[k] == order[k + 1];
    forall i ensures i in rest <==> i in s - {order[0]} {
      if i in s && i != order[0] {
        var k :| 0 <= k < |order| && order[k] == i;
        assert rest[k - 1] == i;
      }
      if i in rest { assert i in order; }
    }
  }

  lemma UnlinksOne(b: Bound, v: View, pid: nat, i: nat)
    requires |b.outputs| == FILE_COUNT && v.out.Some? && v.me.phase.Unlinking? && i in v.me.phase.todo
    ensures
      var w, d := Act(b, v, pid, Unlink(i, false)), v.out.value;
      if AllThere(d.entries, v.me.watch.records, {i}) then
        && w.me.phase == Unlinking(v.me.phase.todo - {i}) && w.me.watch == v.me.watch
        && w.out == Some(d.(entries := d.entries - {i}))
      else w.me.phase == Over(false, false)
  {
  }

  lemma Closes(b: Bound, v: View, pid: nat)
    requires |b.outputs| == FILE_COUNT && Denied(b, v)
    ensures
      var w, x := Act(b, v, pid, Close(false)), v.me;
      && w.out == v.out
      && if x.watch.dir.None? then w.me.phase == Over(false, v.out.None?)
         else if v.out.Some? && Some(v.out.value.identity) == x.watch.dir then
           w.me.phase == Unlinking(x.watch.records.Keys) && w.me.watch == x.watch
         else w.me.phase == Over(false, false)
  {
    hide Supervisor.Accepted, Checked;
  }

  lemma Removes(b: Bound, v: View, pid: nat)
    requires |b.outputs| == FILE_COUNT && v.out.Some? && v.me.phase == Unlinking({})
    requires Some(v.out.value.identity) == v.me.watch.dir
    ensures
      var w := Act(b, v, pid, Rmdir(false));
      if v.out.value.entries == map[] then w.me.phase == Over(false, true) && w.out.None?
      else w.me.phase == Over(false, false) && w.out == v.out
  {
  }

  lemma AllGone(entries: map<nat, Node>, records: map<nat, Identity>)
    ensures (AllThere(entries, records, records.Keys) && entries - records.Keys == map[]) <==>
            entries.Keys == records.Keys == Reported(entries, records)
  {
    if AllThere(entries, records, records.Keys) && entries - records.Keys == map[] {
      AllRemoved(entries, records.Keys);
    }
    if entries.Keys == records.Keys == Reported(entries, records) {
      forall i | i in records.Keys ensures i in Reported(entries, records) {
      }
      assert entries - records.Keys == map[];
    }
  }

  /** A denied attempt, cleaned up without faults in any order: the report says complete, and nothing is
      left, if and only if the cleanup can be complete. */
  lemma CleanupIsComplete(b: Bound, v: View, pid: nat, order: seq<nat>)
    requires |b.outputs| == FILE_COUNT && Denied(b, v) && Lists(order, v.me.watch.records.Keys)
    ensures
      var w := ActAll(b, v, pid, CleanupMoves(order));
      && w.me.phase == Over(false, Clearable(v.out, v.me.watch.dir, v.me.watch.records))
      && (Clearable(v.out, v.me.watch.dir, v.me.watch.records) ==> w.out.None?)
  {
    hide Act, ActAll, Denied;
    var dir, records := v.me.watch.dir, v.me.watch.records;
    var unlinks, last := Unlinkings(order), [Rmdir(false)];
    var v1 := Act(b, v, pid, Close(false));
    assert CleanupMoves(order) == [Close(false)] + (unlinks + last);
    ActFirst(b, v, pid, Close(false), unlinks + last);
    Closes(b, v, pid);
    if v1.me.phase.Over? {
      OverIsStill(b, v1, pid, unlinks + last);
    } else {
      ActAllConcat(b, v1, pid, unlinks, last);
      UnlinksAll(b, v1, pid, order);
      var v2 := ActAll(b, v1, pid, unlinks);
      ActFirst(b, v2, pid, Rmdir(false), []);
      assert [Rmdir(false)] + [] == last;
      NoMoves(b, Act(b, v2, pid, Rmdir(false)), pid);
      AllGone(v.out.value.entries, records);
      if v2.me.phase.Over? {
        OverIsStill(b, v2, pid, last);
      } else {
        Removes(b, v2, pid);
      }
    }
  }

  /** The executor's cleanup on the same directory, without faults, reports the same. */
  method Cleans(site: Site, b: Bound, v: View, pid: nat, order: seq<nat>) returns (preserved: bool)
    requires |b.outputs| == FILE_COUNT && Denied(b, v) && Lists(order, v.me.watch.records.Keys)
    requires site.folder == v.out
    modifies site
    ensures !site.faulted ==>
              var w := ActAll(b, v, pid, CleanupMoves(order));
              w.me.phase == Over(false, !preserved) && (!preserved ==> site.folder == w.out == None)
  {
    hide ActAll, Denied, OnlyReportedGone;
    CleanupIsComplete(b, v, pid, order);
    preserved := Clean(site, v.me.watch.dir, v.me.watch.records);
  }

  // ---- Every attempt can be ended ------------------------------------------

  /** What puts an end to an attempt: a timer or another error while it is watched, or a refusal to
      consume its approval. */
  predicate Stops(v: View, m: Move) {
    match m
    case Abort => v.me.phase.Verified? || v.me.phase.Settled?
    case Receive(fault) =>
      && v.me.phase.Verified? && v.me.pipe != [] && v.me.pipe[0].Ready? && !v.me.watch.ready && !v.me.watch.aborted
      && (fault || !Approval.ValidTime(v.me.approval, v.clock))
    case Create(fault) => v.me.phase.Claiming? && (fault || v.me.approval.nonce in v.ledger)
    case Finish(fault) => v.me.phase.Claimed? && fault
    case _ => false
  }

  /** Whatever its worker is doing, an attempt that is stopped ends: the worker is killed, and the cleanup
      is as complete as the lines handled until then allow. */
  lemma StoppedEnds(b: Bound, v: View, pid: nat, m: Move, order: seq<nat>)
    requires |b.outputs| == FILE_COUNT && v.me.isExecutor && Stops(v, m) && Lists(order, v.me.watch.records.Keys)
    ensures
      var w, x := ActAll(b, v, pid, [m, Deliver] + CleanupMoves(order)), v.me.watch;
      && w.me.phase == Over(false, Clearable(v.out, x.dir, x.records))
      && (Clearable(v.out, x.dir, x.records) ==> w.out.None?)
  {
    hide Act, ActAll, Clearable, Stops;
    StoppedIsDenied(b, v, pid, m);
    var w := Act(b, Act(b, v, pid, m), pid, Deliver);
    ActFirst(b, v, pid, m, [Deliver] + CleanupMoves(order));
    ActFirst(b, Act(b, v, pid, m), pid, Deliver, CleanupMoves(order));
    assert [m] + ([Deliver] + CleanupMoves(order)) == [m, Deliver] + CleanupMoves(order);
    CleanupIsComplete(b, w, pid, order);
  }

  lemma StoppedIsDenied(b: Bound, v: View, pid: nat, m: Move)
    requires |b.outputs| == FILE_COUNT && v.me.isExecutor && Stops(v, m)
    ensures var w := Act(b, Act(b, v, pid, m), pid, Deliver);
            && Denied(b, w) && w.out == v.out
            && w.me.watch.dir == v.me.watch.dir && w.me.watch.records == v.me.watch.records
  {
    hide Checked, Approval.ValidTime;
  }

  /** A worker does not outlive its executor. */
  lemma CrashKills(b: Bound, v: View, pid: nat)
    requires |b.outputs| == FILE_COUNT && Alive(v.me.worker) && !v.me.phase.Over?
    ensures var w := Act(b, Act(b, v, pid, Crash), pid, Deliver); w.me.worker.Killed? && w.out == v.out
  {
  }

  // ---- A denied attempt can be cleaned up ---------------------------------

  function Counting(k: nat): (order: seq<nat>)
    ensures |order| == k && forall i :: 0 <= i < k ==> order[i] == i
  {
    seq(k, i => i)
  }

  /** However many files are written when a timer fires, the attempt can still be killed, denied and
      cleaned up completely. */
  lemma CanDenyCleanly(b: Bound, v: View, pid: nat, dir: Identity, ids: seq<Identity>, k: nat)
    requires |b.outputs| == FILE_COUNT == |ids| && k <= FILE_COUNT && v.me.isExecutor
    ensures
      var w := ActAll(b, Filled(b, v, pid, dir, ids, k), pid, [Abort, Deliver] + CleanupMoves(Counting(k)));
      w.me.phase == Over(false, true) && w.out.None?
  {
    hide ActAll, Clearable, Consumed;
    FilledIsClearable(b, v, pid, dir, ids, k);
    StoppedEnds(b, Filled(b, v, pid, dir, ids, k), pid, Abort, Counting(k));
  }

  lemma FilledIsClearable(b: Bound, v: View, pid: nat, dir: Identity, ids: seq<Identity>, k: nat)
    requires |b.outputs| == FILE_COUNT == |ids| && k <= FILE_COUNT
    ensures
      var w := Filled(b, v, pid, dir, ids, k);
      && w.me.phase.Settled? && w.me.isExecutor == v.me.isExecutor && Lists(Counting(k), w.me.watch.records.Keys)
      && Clearable(w.out, w.me.watch.dir, w.me.watch.records)
  {
    SettledStays(v, pid);
    var w := Filled(b, v, pid, dir, ids, k);
    assert w.me.watch.records == Recorded(ids, k);
    forall i: nat | i < k ensures i in Counting(k) {
      assert Counting(k)[i] == i;
    }
    assert Entries(b, ids, k).Keys == Recorded(ids, k).Keys;
    assert Reported(Entries(b, ids, k), Recorded(ids, k)) == Recorded(ids, k).Keys;
  }
}
