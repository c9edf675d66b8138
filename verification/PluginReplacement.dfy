/**
 Staged publication of a plugin directory: back the prior install up, promote the
 stage, restore on failure, discard the backup only after an identity read-back.
 The disk is adversarial: any read may fail, a move may be applied or not and may
 be reported either way, and a stranger may occupy a vacant destination at any time.
 */
module PluginReplacement {
  import opened Wrappers
  import CodexConfig

  /** The four paths involved; the stage and the backup lie inside the workspace. */
  datatype Place = Destination | Workspace | Stage | Backup

  /** A device and inode number, as one number. */
  type Identity = nat

  type Layout = map<Place, Identity>

  function Occupant(at: Layout, p: Place): Option<Identity> {
    if p in at then Some(at[p]) else None
  }

  /** The object `id` is at one of the two places an install may be. */
  predicate Kept(at: Layout, id: Identity) {
    Occupant(at, Destination) == Some(id) || Occupant(at, Backup) == Some(id)
  }

  /** What one move call may do: relocate, do nothing, or leave something new at a vacant
      target; it never overwrites and never loses what it was asked to move. */
  predicate Conserves(before: Layout, after: Layout, from: Place, to: Place) {
    && (forall p :: p != from && p != to ==> Occupant(after, p) == Occupant(before, p))
    && (to in before || from !in before ==> after == before)
    && (from in before && to !in before ==>
          || Occupant(after, from) == Some(before[from])
          || (from !in after && Occupant(after, to) == Some(before[from])))
  }

  /** A move that fully applies or does nothing. */
  predicate Atomic(before: Layout, after: Layout, from: Place, to: Place) {
    || after == before
    || (from in before && to !in before && after == before[to := before[from]] - {from})
  }

  /** The three things a move call on this disk does; an atomic disk leaves no partial copy. */
  predicate Outcome(before: Layout, after: Layout, from: Place, to: Place, atomic: bool) {
    || after == before
    || (from in before && to !in before &&
         (after == before[to := before[from]] - {from} || (!atomic && to in after && after == before[to := after[to]])))
  }

  lemma ThreeWays(before: Layout, after: Layout, from: Place, to: Place, atomic: bool)
    requires from != to && Outcome(before, after, from, to, atomic)
    ensures Conserves(before, after, from, to) && (atomic ==> Atomic(before, after, from, to))
    ensures from in before ==>
              || Occupant(after, from) == Some(before[from])
              || (from !in after && Occupant(after, to) == Some(before[from]))
    ensures forall p :: p != from && p != to ==> Occupant(after, p) == Occupant(before, p)
  {
  }

  /** What was at `from` is gone from there. */
  predicate Left(before: Layout, after: Layout, from: Place) {
    from in before && from !in after
  }

  /** The move is done in full. */
  predicate Relocated(before: Layout, after: Layout, from: Place, to: Place) {
    from in before && to !in before && after == before[to := before[from]] - {from}
  }

  /** A stranger is now at the destination, which was vacant. */
  predicate Came(before: Layout, after: Layout, strangers: set<Identity>) {
    && Destination !in before && Destination in after && after == before[Destination := after[Destination]]
    && after[Destination] in strangers
  }

  /** What every step keeps: until the promotion is confirmed the prior install is at one of its two
      places; objects are at one place each; and a stranger is at the destination. */
  predicate Sound(at: Layout, serial: Identity, prior: Option<Identity>, confirmed: bool, strangers: set<Identity>) {
    && (prior.Some? && !confirmed ==> Kept(at, prior.value))
    && (forall p :: p in at ==> at[p] < serial)
    && (forall p, q :: p in at && q in at && at[p] == at[q] ==> p == q)
    && (prior.Some? ==> prior.value < serial && prior.value !in strangers)
    && (forall id :: id in strangers ==> Occupant(at, Destination) == Some(id))
  }

  lemma RelocatedSound(at: Layout, serial: Identity, prior: Option<Identity>, confirmed: bool,
                       strangers: set<Identity>, from: Place, to: Place)
    requires Sound(at, serial, prior, confirmed, strangers) && from in at && to !in at
    requires prior.Some? && !confirmed && Some(at[from]) == prior ==> to == Destination || to == Backup
    requires from == Destination ==> strangers == {}
    ensures Sound(at[to := at[from]] - {from}, serial, prior, confirmed, strangers)
  {
  }

  lemma CopiedSound(at: Layout, serial: Identity, prior: Option<Identity>, confirmed: bool,
                    strangers: set<Identity>, to: Place)
    requires Sound(at, serial, prior, confirmed, strangers) && to !in at
    ensures Sound(at[to := serial], serial + 1, prior, confirmed, strangers)
  {
  }

  class Disk {
    var at: Layout
    /** Larger than the number of every object ever seen here. */
    var serial: Identity
    /** Whether every move on this disk is atomic. */
    const atomic: bool
    /** The objects that pass the ownership check: plain directories whose metadata and manifest name the plugin. */
    const managed: Identity -> bool

    // History.
    ghost var seen: map<Place, Option<Identity>>  // what the last read of each place showed, since the last move
    ghost var readFailed: bool
    ghost var strangers: set<Identity>            // objects that appeared unasked
    ghost var confirmed: bool                     // a read showed the stage at the destination
    ghost var removes: nat
    ghost var prior: Option<Identity>             // what was installed when the run looked first
    ghost var faulted: bool                       // something failed, came unasked or was not done as asked
    ghost var refused: set<(Place, Place)>        // moves asked for and not applied
    ghost var asked: set<(Place, Place)>          // moves asked for
    ghost var overruled: set<(Place, Place)>      // moves applied although they reported a failure

    ghost predicate Valid()
      reads this
    {
      Sound(at, serial, prior, confirmed, strangers) && (removes > 0 ==> confirmed)
    }

    /** At most a stranger has come to a vacant destination. */
    twostate predicate Undisturbed()
      reads this
    {
      && old(strangers) <= strangers && old(serial) <= serial
      && (old(faulted) ==> faulted) && (!faulted ==> at == old(at) && strangers == old(strangers))
      && ((at == old(at) && strangers == old(strangers)) || Came(old(at), at, strangers))
      && (strangers == old(strangers) ==> at == old(at))
    }

    /** A stranger may take the destination while it is vacant. */
    method Interfere()
      requires Valid()
      modifies this`at, this`strangers, this`serial, this`faulted
      ensures Valid() && Undisturbed()
    {
      var comes: bool := *;
      if comes && Destination !in at {
        at := at[Destination := serial];
        strangers := strangers + {serial};
        serial := serial + 1;
        faulted := true;
      }
    }

    /** lstat: a null for a missing entry, or a throw. */
    method Present(p: Place) returns (r: Result<Option<Identity>>)
      requires Valid()
      modifies this`at, this`strangers, this`serial, this`seen, this`readFailed, this`faulted
      ensures Valid() && Undisturbed()
      ensures r.Thrown? ==> readFailed && faulted && seen == old(seen)
      ensures r.Ok? ==> r.value == Occupant(at, p) && seen == old(seen)[p := r.value] && readFailed == old(readFailed)
    {
      Interfere();
      var fails: bool := *;
      if fails {
        readFailed, faulted := true, true;
        return Thrown;
      }
      r := Ok(Occupant(at, p));
      seen := seen[p := r.value];
    }

    /** The backup is moved back after a promotion only if a look since then has shown the stage in place. */
    ghost predicate MayMove(from: Place)
      reads this
    {
      from == Backup && (Stage, Destination) in asked ==> Stage in seen && seen[Stage].Some?
    }

    /** io.move: only ever asked of a source seen in place and a target seen vacant. */
    method IoMove(from: Place, to: Place) returns (rejected: bool)
      requires Valid() && from != to && MayMove(from)
      requires to in seen && seen[to] == None && from in seen && seen[from].Some?
      requires prior.Some? && !confirmed && Occupant(at, from) == prior ==> to == Destination || to == Backup
      requires from == Destination ==> Destination in at && strangers == {}
      modifies this`at, this`strangers, this`serial, this`faulted, this`refused, this`overruled, this`asked, this`seen
      ensures asked == old(asked) + {(from, to)} && seen == map[]
      ensures Valid() && old(strangers) <= strangers && old(serial) <= serial && (old(faulted) ==> faulted)
      ensures !faulted ==> !rejected && Relocated(old(at), at, from, to) && strangers == old(strangers)
      ensures refused == old(refused) + (if Relocated(old(at), at, from, to) then {} else {(from, to)})
      ensures overruled == old(overruled) + (if rejected && Left(old(at), at, from) then {(from, to)} else {})
      ensures forall p :: p != from && p != to && p != Destination ==> Occupant(at, p) == Occupant(old(at), p)
      ensures from in old(at) ==>
                Occupant(at, from) == Some(old(at)[from]) || (from !in at && Occupant(at, to) == Some(old(at)[from]))
      ensures strangers == old(strangers) ==> Conserves(old(at), at, from, to)
      ensures strangers == old(strangers) && atomic ==> Atomic(old(at), at, from, to)
    {
      hide Conserves, Atomic, Relocated, Sound, Left;
      asked, seen := asked + {(from, to)}, map[];
      ghost var before := at;
      ShiftObject(from, to);
      rejected := Answer(before, from, to);
    }

    /** What the move reports, and what is on record of it. */
    method Answer(ghost before: Layout, from: Place, to: Place) returns (rejected: bool)
      modifies this`faulted, this`refused, this`overruled
      ensures refused == old(refused) + (if Relocated(before, at, from, to) then {} else {(from, to)})
      ensures overruled == old(overruled) + (if rejected && Left(before, at, from) then {(from, to)} else {})
      ensures faulted <==> old(faulted) || rejected || !Relocated(before, at, from, to)
    {
      hide Relocated, Left;
      rejected := *;
      if rejected && Left(before, at, from) { overruled := overruled + {(from, to)}; }
      if !Relocated(before, at, from, to) { refused := refused + {(from, to)}; }
      if rejected || !Relocated(before, at, from, to) { faulted := true; }
    }

    method ShiftObject(from: Place, to: Place)
      requires Valid() && from != to
      requires prior.Some? && !confirmed && Occupant(at, from) == prior ==> to == Destination || to == Backup
      requires from == Destination ==> Destination in at && strangers == {}
      modifies this`at, this`strangers, this`serial, this`faulted
      ensures Valid() && old(strangers) <= strangers && old(serial) <= serial && (old(faulted) ==> faulted)
      ensures !faulted ==> strangers == old(strangers)
      ensures forall p :: p != from && p != to && p != Destination ==> Occupant(at, p) == Occupant(old(at), p)
      ensures from in old(at) ==>
                Occupant(at, from) == Some(old(at)[from]) || (from !in at && Occupant(at, to) == Some(old(at)[from]))
      ensures strangers == old(strangers) ==> Conserves(old(at), at, from, to)
      ensures strangers == old(strangers) && atomic ==> Atomic(old(at), at, from, to)
    {
      Interfere();
      ghost var mid := at;
      MoveNow(from, to);
      ThreeWays(mid, at, from, to, atomic);
      hide Outcome, Conserves, Atomic;
    }

    method MoveNow(from: Place, to: Place)
      requires Valid() && from != to
      requires prior.Some? && !confirmed && Occupant(at, from) == prior ==> to == Destination || to == Backup
      requires from == Destination ==> strangers == {}
      modifies this`at, this`serial
      ensures Valid() && old(serial) <= serial
      ensures Outcome(old(at), at, from, to, atomic)
    {
      hide Sound, Kept;
      var applied: bool, partial: bool := *, *;
      if from in at && to !in at {
        if applied {
          RelocatedSound(at, serial, prior, confirmed, strangers, from, to);
          at := at[to := at[from]] - {from};
        } else if partial && !atomic {
          CopiedSound(at, serial, prior, confirmed, strangers, to);
          at := at[to := serial];
          serial := serial + 1;
        }
      }
    }

    /** io.remove of the workspace, only after the promotion has been confirmed and a new look has shown
        the workspace as `owned`, the prior install in the backup, and nothing at the stage. */
    method IoRemove(ghost owned: Option<Identity>) returns (rejected: bool)
      requires Valid() && confirmed
      requires owned.Some? && Workspace in seen && seen[Workspace] == owned && Stage in seen && seen[Stage] == None
      requires prior.Some? ==> Backup in seen && seen[Backup] == prior
      modifies this`at, this`removes, this`faulted
      ensures Valid() && removes == old(removes) + 1 && (old(faulted) ==> faulted) && (rejected ==> faulted)
      ensures !rejected ==> at == old(at) - {Workspace, Stage, Backup}
      ensures Occupant(at, Destination) == Occupant(old(at), Destination)
      ensures !rejected ==> Workspace !in at && Stage !in at && Backup !in at
    {
      hide Kept;
      rejected := *;
      removes := removes + 1;
      if rejected {
        faulted := true;
        var inner: bool := *;
        if inner { at := at - {Stage}; }
      } else {
        at := at - {Workspace, Stage, Backup};
      }
    }
  }

  // ---- One move and its read-back -----------------------------------------

  datatype Mutation = Applied | NotApplied | Unknown

  datatype MoveResult = MoveResult(mutation: Mutation, error: bool)

  /** The outcome `r` fits what is on the disk. */
  predicate Reported(r: MoveResult, at: Layout, from: Place, to: Place, identity: Identity) {
    && (r.mutation.Applied? ==> Occupant(at, to) == Some(identity) && (from != Destination ==> from !in at))
    && (r.mutation.NotApplied? ==> Occupant(at, from) == Some(identity))
    && (!r.mutation.Applied? ==> r.error)
  }

  /** At most this move was added to the record. */
  predicate OneMoreMove(before: set<(Place, Place)>, after: set<(Place, Place)>, from: Place, to: Place) {
    before <= after <= before + {(from, to)}
  }

  /** While a stranger is about, it is what stands at the destination, and it is not the prior install. */
  lemma OnlyStrangers(at: Layout, serial: Identity, prior: Option<Identity>, confirmed: bool, strangers: set<Identity>)
    requires Sound(at, serial, prior, confirmed, strangers)
    ensures strangers != {} ==> Destination in at && at[Destination] in strangers
    ensures prior.Some? ==> prior.value !in strangers
  {
  }

  method Move(disk: Disk, from: Place, to: Place, identity: Identity) returns (r: MoveResult)
    requires disk.Valid() && from != to && (from == Destination || to == Destination)
    requires from == Destination ==> disk.prior == Some(identity)
    requires disk.prior == Some(identity) && !disk.confirmed ==> to == Destination || to == Backup
    requires identity !in disk.strangers && identity < disk.serial
    requires disk.prior.Some? && !disk.confirmed && disk.prior != Some(identity) ==>
               Occupant(disk.at, from) != disk.prior
    requires (from, to) !in disk.overruled && disk.MayMove(from)
    modifies disk`at, disk`strangers, disk`serial, disk`seen, disk`readFailed, disk`faulted,
             disk`refused, disk`overruled, disk`asked
    ensures OneMoreMove(old(disk.asked), disk.asked, from, to)
    ensures r.mutation.NotApplied? ==> from in disk.seen && disk.seen[from] == Some(identity)
    ensures disk.Valid() && old(disk.strangers) <= disk.strangers && (old(disk.readFailed) ==> disk.readFailed)
    ensures Reported(r, disk.at, from, to, identity)
    ensures (old(disk.faulted) ==> disk.faulted) && OneMoreMove(old(disk.refused), disk.refused, from, to)
    ensures OneMoreMove(old(disk.overruled), disk.overruled, from, to)
    ensures !disk.faulted && Occupant(old(disk.at), from) == Some(identity) && to !in old(disk.at) ==>
              r == MoveResult(Applied, false) && disk.at == old(disk.at)[to := identity] - {from}
    // A move that was done all the same, or not done, is on record.
    ensures r.mutation.Applied? ==> (r.error <==> (from, to) in disk.overruled)
    ensures (from, to) in disk.overruled ==> r.error
    ensures r.mutation.NotApplied? && !disk.readFailed && to !in old(disk.at) && disk.strangers == {} ==>
              (from, to) in disk.refused
    ensures from == Destination && r.mutation.Applied? && disk.strangers == {} ==> Destination !in disk.at
    ensures forall p :: p != from && p != to && p != Destination ==> Occupant(disk.at, p) == Occupant(old(disk.at), p)
    // Without read failures, strangers and partial moves, the outcome is known.
    ensures disk.atomic && !disk.readFailed && disk.strangers == {}
            && Occupant(old(disk.at), from) == Some(identity) ==>
              if r.mutation.Applied? then to !in old(disk.at) && disk.at == old(disk.at)[to := identity] - {from}
              else r.mutation.NotApplied? && disk.at == old(disk.at)
  {
    hide Sound, Kept;
    var seen := disk.Present(from);
    if seen.Thrown? { return MoveResult(Unknown, true); }
    if seen.value != Some(identity) { return MoveResult(Unknown, true); }
    seen := disk.Present(to);
    if seen.Thrown? { return MoveResult(Unknown, true); }
    if seen.value.Some? { return MoveResult(NotApplied, true); }
    OnlyStrangers(disk.at, disk.serial, disk.prior, disk.confirmed, disk.strangers);
    r := Attempt(disk, from, to, identity);
  }

  /** The move itself and the two reads that decide what it did. */
  method Attempt(disk: Disk, from: Place, to: Place, identity: Identity) returns (r: MoveResult)
    requires disk.Valid() && from != to && (from == Destination || to == Destination)
    requires to in disk.seen && disk.seen[to] == None && from in disk.seen && disk.seen[from] == Some(identity)
    requires Occupant(disk.at, from) == Some(identity)
    requires from == Destination ==> disk.strangers == {}
    requires disk.prior == Some(identity) && !disk.confirmed ==> to == Destination || to == Backup
    requires (from, to) !in disk.overruled && disk.MayMove(from)
    modifies disk`at, disk`strangers, disk`serial, disk`seen, disk`readFailed, disk`faulted,
             disk`refused, disk`overruled, disk`asked
    ensures OneMoreMove(old(disk.asked), disk.asked, from, to)
    ensures r.mutation.NotApplied? ==> from in disk.seen && disk.seen[from] == Some(identity)
    ensures disk.Valid() && old(disk.strangers) <= disk.strangers && (old(disk.readFailed) ==> disk.readFailed)
    ensures Reported(r, disk.at, from, to, identity)
    ensures (old(disk.faulted) ==> disk.faulted) && OneMoreMove(old(disk.refused), disk.refused, from, to)
    ensures OneMoreMove(old(disk.overruled), disk.overruled, from, to)
    ensures !disk.faulted && Occupant(old(disk.at), from) == Some(identity) && to !in old(disk.at) ==>
              r == MoveResult(Applied, false) && disk.at == old(disk.at)[to := identity] - {from}
    // A move that was done all the same, or not done, is on record.
    ensures r.mutation.Applied? ==> (r.error <==> (from, to) in disk.overruled)
    ensures (from, to) in disk.overruled ==> r.error
    ensures r.mutation.NotApplied? && !disk.readFailed && to !in old(disk.at) && disk.strangers == {} ==>
              (from, to) in disk.refused
    ensures from == Destination && r.mutation.Applied? && disk.strangers == {} ==> Destination !in disk.at
    ensures forall p :: p != from && p != to && p != Destination ==> Occupant(disk.at, p) == Occupant(old(disk.at), p)
    ensures disk.atomic && !disk.readFailed && disk.strangers == {} && to !in old(disk.at) ==>
              if r.mutation.Applied? then disk.at == old(disk.at)[to := identity] - {from}
              else r.mutation.NotApplied? && disk.at == old(disk.at)
  {
    var error := disk.IoMove(from, to);
    r := ReadBack(disk, from, to, identity, error);
  }

  method ReadBack(disk: Disk, from: Place, to: Place, identity: Identity, error: bool) returns (r: MoveResult)
    requires disk.Valid() && from != to
    modifies disk`at, disk`strangers, disk`serial, disk`seen, disk`readFailed, disk`faulted
    ensures disk.Valid() && disk.Undisturbed() && (old(disk.readFailed) ==> disk.readFailed)
    ensures Reported(r, disk.at, from, to, identity)
    ensures r.mutation.Applied? ==> r.error == error
    ensures r.mutation.NotApplied? ==> Occupant(disk.at, from) == Some(identity)
    ensures r.mutation.NotApplied? ==> from in disk.seen && disk.seen[from] == Some(identity)
    ensures !disk.faulted && from !in old(disk.at) && Occupant(old(disk.at), to) == Some(identity) ==>
              r == MoveResult(Applied, error)
    ensures !disk.readFailed && disk.strangers == {} ==>
              && (r.mutation.Applied? <==> from !in old(disk.at) && Occupant(old(disk.at), to) == Some(identity))
              && (r.mutation.NotApplied? <==> Occupant(old(disk.at), from) == Some(identity) && to !in old(disk.at))
  {
    var source := disk.Present(from);
    if source.Thrown? { return MoveResult(Unknown, true); }
    var target := disk.Present(to);
    if target.Thrown? { return MoveResult(Unknown, true); }
    if source.value.None? && target.value == Some(identity) { return MoveResult(Applied, error); }
    if source.value == Some(identity) && target.value.None? { return MoveResult(NotApplied, true); }
    return MoveResult(Unknown, true);
  }

  // ---- Publication --------------------------------------------------------

  datatype Cleanup = Complete | ManualReview

  datatype Publication = Publication(success: bool, cleanup: Cleanup, recovery: bool, warning: bool)

  /** `failure`: names the recovery paths once there is a workspace. */
  function Failure(workspace: bool): Publication {
    Publication(false, if workspace then ManualReview else Complete, workspace, false)
  }

  /** The ownership check of one path: a throw, nothing there, or the identity of a managed directory. */
  method Managed(disk: Disk, p: Place) returns (r: Result<Option<Identity>>)
    requires disk.Valid()
    modifies disk`at, disk`strangers, disk`serial, disk`seen, disk`readFailed, disk`faulted
    ensures disk.Valid() && disk.Undisturbed() && (old(disk.readFailed) ==> disk.readFailed)
    ensures r.Ok? ==> r.value == Occupant(disk.at, p) && (r.value.Some? ==> disk.managed(r.value.value))
    ensures r.Thrown? ==> disk.faulted
  {
    r := disk.Present(p);
    if r.Thrown? || r.value.None? { return; }
    if !disk.managed(r.value.value) {
      disk.faulted := true;
      return Thrown;
    }
  }

  /** mkdtemp or mkdir: a new directory at a vacant path inside the plugins root. */
  method MakeDirectory(disk: Disk, p: Place) returns (ok: bool)
    requires disk.Valid() && p !in disk.at && p != Destination
    modifies disk`at, disk`serial, disk`faulted
    ensures disk.Valid() && old(disk.serial) <= disk.serial
    ensures (old(disk.faulted) ==> disk.faulted) && (!ok ==> disk.faulted)
    ensures if ok then p in disk.at && disk.at == old(disk.at)[p := old(disk.serial)] else disk.at == old(disk.at)
  {
    ok := *;
    if ok {
      disk.at := disk.at[p := disk.serial];
      disk.serial := disk.serial + 1;
    } else {
      disk.faulted := true;
    }
  }

  /** Anything else on the way that can fail, without touching the places. */
  method Other(disk: Disk) returns (ok: bool)
    modifies disk`faulted
    ensures (old(disk.faulted) ==> disk.faulted) && (!ok ==> disk.faulted)
    ensures ok ==> disk.faulted == old(disk.faulted)
  {
    ok := *;
    if !ok { disk.faulted := true; }
  }

  predicate NameOk(name: string) {
    && (exists k :: 0 <= k < |name| && !CodexConfig.IsSpace(name[k]))
    && '/' !in name && '\\' !in name && name != "." && name != ".."
  }

  /** The names that are one path component: not blank, no separator, and neither dot name. */
  lemma NameOkExactly(name: string)
    ensures NameOk(name) <==>
            && CodexConfig.Trim(name) != "" && name !in {".", ".."}
            && forall c :: c in name ==> c != '/' && c != '\\'
  {
    hide CodexConfig.IsSpace, CodexConfig.Trim;
    CodexConfig.TrimExactly(name);
    var v, w :| CodexConfig.AllSpace(v) && CodexConfig.AllSpace(w) && name == v + CodexConfig.Trim(name) + w;
    var t := CodexConfig.Trim(name);
    if t != "" { assert name[|v|] == t[0]; }
  }

  /** What the run knows once everything before the first move has been checked. */
  datatype Plan = Plan(prior: Option<Identity>, staged: Identity, workspaceIdentity: Option<Identity>)

  /** Everything is where the plan says. */
  predicate Laid(at: Layout, plan: Plan) {
    && Occupant(at, Destination) == plan.prior && Occupant(at, Stage) == Some(plan.staged)
    && Occupant(at, Workspace) == plan.workspaceIdentity && plan.workspaceIdentity.Some? && Backup !in at
  }

  /** Everything before the first move; a throw leaves the install alone. */
  method Prepare(disk: Disk, name: string) returns (plan: Result<Plan>, workspace: bool)
    requires disk.Valid() && disk.strangers == {} && disk.prior.None? && !disk.confirmed && disk.removes == 0
    requires Workspace !in disk.at && Stage !in disk.at && Backup !in disk.at
    modifies disk
    ensures disk.Valid() && !disk.confirmed && disk.removes == 0 && (old(disk.readFailed) ==> disk.readFailed)
    ensures (old(disk.faulted) ==> disk.faulted) && disk.refused == old(disk.refused)
    ensures disk.overruled == old(disk.overruled) && disk.asked == old(disk.asked)
    ensures !NameOk(name) ==> plan.Thrown? && !workspace && disk.at == old(disk.at)
    ensures NameOk(name) && !disk.faulted ==>
              && plan.Ok? && disk.strangers == {} && Laid(disk.at, plan.value)
              && disk.prior == Occupant(old(disk.at), Destination)
    ensures !workspace ==> plan.Thrown? && Workspace !in disk.at && Stage !in disk.at
    ensures Backup !in disk.at
    ensures disk.prior.Some? ==> Occupant(disk.at, Destination) == disk.prior && disk.managed(disk.prior.value)
    ensures plan.Ok? ==>
              && plan.value.prior == disk.prior && Occupant(disk.at, Stage) == Some(plan.value.staged)
              && Occupant(disk.at, Destination) == disk.prior && disk.managed(plan.value.staged)
  {
    plan, workspace := Thrown, false;
    if !NameOk(name) { return; }
    var rootOk := Other(disk);
    if !rootOk { return; }
    var first := Managed(disk, Destination);
    if first.Thrown? { return; }
    disk.prior, disk.strangers := first.value, {};
    plan, workspace := MakeStage(disk, first.value);
  }

  /** The workspace and the checked stage inside it, and a last look at the destination. */
  method MakeStage(disk: Disk, prior: Option<Identity>) returns (plan: Result<Plan>, workspace: bool)
    requires disk.Valid() && disk.strangers == {} && disk.prior == prior && !disk.confirmed && disk.removes == 0
    requires Workspace !in disk.at && Stage !in disk.at && Backup !in disk.at
    requires Occupant(disk.at, Destination) == prior
    modifies disk`at, disk`strangers, disk`serial, disk`seen, disk`readFailed, disk`faulted
    ensures disk.Valid() && (old(disk.readFailed) ==> disk.readFailed) && (old(disk.faulted) ==> disk.faulted)
    ensures !workspace ==> plan.Thrown? && Workspace !in disk.at && Stage !in disk.at
    ensures Backup !in disk.at
    ensures disk.prior.Some? ==> Occupant(disk.at, Destination) == disk.prior
    ensures plan.Ok? ==>
              && plan.value.prior == disk.prior && Occupant(disk.at, Stage) == Some(plan.value.staged)
              && Occupant(disk.at, Destination) == disk.prior && disk.managed(plan.value.staged)
    ensures !disk.faulted ==> plan.Ok? && disk.strangers == {} && Laid(disk.at, plan.value)
  {
    hide Sound, Kept;
    plan := Thrown;
    workspace := MakeDirectory(disk, Workspace);
    if !workspace { return; }
    var workspaceIdentity := disk.Present(Workspace);
    if workspaceIdentity.Thrown? { return; }
    var made := MakeDirectory(disk, Stage);
    if !made { return; }
    var staged := CheckStage(disk, prior);
    if staged.Thrown? { return; }
    plan := Ok(Plan(prior, staged.value, workspaceIdentity.value));
  }

  /** The caller's preparation of the stage, and the checks after it. */
  method CheckStage(disk: Disk, prior: Option<Identity>) returns (staged: Result<Identity>)
    requires disk.Valid()
    modifies disk`at, disk`strangers, disk`serial, disk`seen, disk`readFailed, disk`faulted
    ensures disk.Valid() && disk.Undisturbed() && (old(disk.readFailed) ==> disk.readFailed)
    ensures staged.Ok? ==> Occupant(disk.at, Stage) == Some(staged.value) && disk.managed(staged.value)
    ensures staged.Ok? ==> Occupant(disk.at, Destination) == prior
    ensures !disk.faulted && Stage in old(disk.at) && Occupant(old(disk.at), Destination) == prior ==> staged.Ok?
  {
    staged := Thrown;
    var prepared := Other(disk);
    if !prepared { return; }
    var stage := Managed(disk, Stage);
    if stage.Thrown? || stage.value.None? { return; }
    var rootSame := Other(disk);
    if !rootSame { return; }
    var current := Managed(disk, Destination);
    if current.Thrown? || current.value != prior { return; }
    staged := Ok(stage.value.value);
  }

  /** Only `id` is left, at the destination. */
  predicate Published(at: Layout, id: Identity) {
    Occupant(at, Destination) == Some(id) && Workspace !in at && Stage !in at && Backup !in at
  }

  const SUCCESS := Publication(true, Complete, false, false)

  /** publishPluginReplacement.  `staged` is the identity of the stage once it was checked. */
  method Publish(disk: Disk, name: string) returns (r: Publication, ghost staged: Option<Identity>)
    requires disk.Valid() && disk.strangers == {} && disk.prior.None?
    requires !disk.confirmed && !disk.readFailed && !disk.faulted && disk.removes == 0
    requires disk.refused == {} && disk.overruled == {} && disk.asked == {}
    requires Workspace !in disk.at && Stage !in disk.at && Backup !in disk.at
    modifies disk
    ensures disk.Valid()
    // With a valid name and nothing amiss the stage is published, and nothing else is left; with another
    // name nothing is touched.
    ensures NameOk(name) && !disk.faulted ==> r == SUCCESS && staged.Some? && Published(disk.at, staged.value)
    ensures !NameOk(name) ==> r == Failure(false) && disk.at == old(disk.at)
    // Only a managed install is ever moved, and only a managed stage is published.
    ensures (disk.prior.Some? ==> disk.managed(disk.prior.value)) && (staged.Some? ==> disk.managed(staged.value))
    // A success was read back, and the destination is the checked stage.
    ensures r.success ==> disk.confirmed && staged.Some? && Occupant(disk.at, Destination) == staged
    ensures r.success && r.cleanup.Complete? ==> disk.removes == 1 && Published(disk.at, staged.value)
    // A backup that was moved but reported as failed is never built on; a promotion like that is, with a warning.
    ensures (Destination, Backup) in disk.overruled ==> !r.success
    ensures r.success && r.cleanup.Complete? ==> (r.warning <==> (Stage, Destination) in disk.overruled)
    ensures r.success && r.cleanup.ManualReview? ==> r.warning && r.recovery
    // A failure discards nothing: the prior install is at the destination or in the backup.
    ensures !r.success ==> !disk.confirmed && disk.removes == 0
    ensures !r.success && disk.prior.Some? ==> Kept(disk.at, disk.prior.value)
    ensures !r.success ==> (r.recovery <==> r.cleanup.ManualReview?)
    ensures !r.success && r.cleanup.Complete? ==> Workspace !in disk.at && Stage !in disk.at && Backup !in disk.at
    // With atomic moves and readable, undisturbed paths, a failure puts the prior install back unless
    // the move that restores it was asked for and refused.
    ensures !r.success && disk.atomic && !disk.readFailed && disk.strangers == {} && disk.prior.Some? ==>
              Occupant(disk.at, Destination) == disk.prior || (Backup, Destination) in disk.refused
  {
    staged := None;
    var plan, workspace := Prepare(disk, name);
    if plan.Thrown? { return Failure(workspace), staged; }
    var Plan(prior, stage, workspaceIdentity) := plan.value;
    staged := Some(stage);
    if prior.Some? {
      var saved := Move(disk, Destination, Backup, prior.value);
      if !saved.mutation.Applied? { return Failure(true), staged; }
      if saved.error {
        var restored := Move(disk, Backup, Destination, prior.value);
        return Failure(true), staged;
      }
    }
    r := Promote(disk, prior, stage, workspaceIdentity);
  }

  /** From the promotion on: the prior install, if any, is in the backup. */
  method Promote(disk: Disk, prior: Option<Identity>, staged: Identity, workspaceIdentity: Option<Identity>)
    returns (r: Publication)
    requires disk.Valid() && !disk.confirmed && disk.removes == 0 && disk.prior == prior
    requires prior.Some? ==> Occupant(disk.at, Backup) == prior
    requires Occupant(disk.at, Stage) == Some(staged)
    requires prior.Some? && disk.strangers == {} ==> Destination !in disk.at
    requires (Stage, Destination) !in disk.overruled && (Backup, Destination) !in disk.overruled
    modifies disk
    ensures disk.Valid() && disk.prior == old(disk.prior) && (old(disk.faulted) ==> disk.faulted)
    ensures !disk.faulted && Destination !in old(disk.at) && workspaceIdentity.Some?
            && Occupant(old(disk.at), Workspace) == workspaceIdentity && Occupant(old(disk.at), Backup) == prior
            ==> r == SUCCESS && Published(disk.at, staged)
    ensures (Destination, Backup) in disk.overruled <==> (Destination, Backup) in old(disk.overruled)
    ensures r.success ==> disk.confirmed && Occupant(disk.at, Destination) == Some(staged)
    ensures r.success && r.cleanup.Complete? ==> disk.removes == 1 && Published(disk.at, staged)
    ensures r.success && r.cleanup.Complete? ==> (r.warning <==> (Stage, Destination) in disk.overruled)
    ensures r.success && r.cleanup.ManualReview? ==> r.warning && r.recovery
    ensures !r.success ==> !disk.confirmed && disk.removes == 0 && r.recovery && r.cleanup.ManualReview?
    ensures !r.success && prior.Some? ==> Kept(disk.at, prior.value)
    ensures !r.success && disk.atomic && !disk.readFailed && disk.strangers == {} && prior.Some? ==>
              Occupant(disk.at, Destination) == prior || (Backup, Destination) in disk.refused
  {
    var promoted := Move(disk, Stage, Destination, staged);
    if !promoted.mutation.Applied? {
      if promoted.mutation.NotApplied? && prior.Some? { PutBack(disk, prior.value, staged); }
      return Failure(true);
    }
    disk.confirmed := true;
    var clean := Discard(disk, prior, workspaceIdentity);
    if clean { return Publication(true, Complete, false, promoted.error); }
    return Publication(true, ManualReview, true, true);
  }

  /** Once the promotion is known not to have taken place, the prior install goes back to a destination
      that is vacant. */
  method PutBack(disk: Disk, prior: Identity, staged: Identity)
    requires disk.Valid() && !disk.confirmed && disk.prior == Some(prior)
    requires Occupant(disk.at, Backup) == Some(prior)
    requires Stage in disk.seen && disk.seen[Stage].Some? && (Backup, Destination) !in disk.overruled
    requires disk.atomic && !disk.readFailed && disk.strangers == {} ==> Destination !in disk.at
    modifies disk`at, disk`strangers, disk`serial, disk`seen, disk`readFailed, disk`faulted,
             disk`refused, disk`overruled, disk`asked
    ensures disk.Valid() && Kept(disk.at, prior) && (old(disk.faulted) ==> disk.faulted)
    ensures (Destination, Backup) in disk.overruled <==> (Destination, Backup) in old(disk.overruled)
    ensures old(disk.strangers) <= disk.strangers && (old(disk.readFailed) ==> disk.readFailed)
    ensures disk.atomic && !disk.readFailed && disk.strangers == {} ==>
              Occupant(disk.at, Destination) == Some(prior) || (Backup, Destination) in disk.refused
  {
    var there := disk.Present(Destination);
    if there.Thrown? { return; }
    if there.value.None? {
      var restored := Move(disk, Backup, Destination, prior);
    }
  }

  /** The last read-backs and the removal of the workspace. */
  method Discard(disk: Disk, prior: Option<Identity>, workspaceIdentity: Option<Identity>) returns (clean: bool)
    requires disk.Valid() && disk.confirmed && disk.removes == 0 && Destination in disk.at
    requires disk.prior == prior
    modifies disk
    ensures disk.Valid() && disk.confirmed && disk.prior == old(disk.prior)
    ensures (old(disk.faulted) ==> disk.faulted) && disk.overruled == old(disk.overruled)
    ensures !disk.faulted && Stage !in old(disk.at) && workspaceIdentity.Some?
            && Occupant(old(disk.at), Workspace) == workspaceIdentity
            && (prior.Some? ==> Occupant(old(disk.at), Backup) == prior)
            ==> clean
    ensures Occupant(disk.at, Destination) == Occupant(old(disk.at), Destination)
    ensures clean ==> disk.removes == 1 && Workspace !in disk.at && Stage !in disk.at && Backup !in disk.at
  {
    hide Sound;
    disk.seen := map[];
    var there := disk.Present(Workspace);
    if there.Thrown? || there.value.None? || there.value != workspaceIdentity { return false; }
    if prior.Some? {
      there := disk.Present(Backup);
      if there.Thrown? || there.value != prior { return false; }
    }
    there := disk.Present(Stage);
    if there.Thrown? || there.value.Some? { return false; }
    var rejected := disk.IoRemove(workspaceIdentity);
    return !rejected;
  }
}
