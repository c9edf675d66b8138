/**
 The executor's cleanup of a denied attempt: it unlinks what the worker reported,
 entry by entry, and calls the cleanup complete only when nothing is left.
 */
module Cleanup {
  import opened Wrappers
  import opened Messages
  import opened Destination

  /** The path of attempt-3. */
  class Site {
    var folder: Option<Folder>
    /** Some call failed although what it found gave it no reason to. */
    ghost var faulted: bool

    constructor (folder: Option<Folder>)
      ensures this.folder == folder && !faulted
    {
      this.folder := folder;
      faulted := false;
    }

    /** A call that may fail on its own account. */
    method Call() returns (ok: bool)
      modifies this`faulted
      ensures !ok ==> faulted
      ensures ok ==> faulted == old(faulted)
    {
      ok := *;
      if !ok { faulted := true; }
    }
  }

  /** The entries the worker reported, each with the identity it reported. */
  function Reported(entries: map<nat, Node>, records: map<nat, Identity>): set<nat> {
    set i | i in entries && i in records && entries[i].identity == records[i]
  }

  /** Cleanup can be complete: nothing was reported and nothing is there, or exactly what was reported is there. */
  predicate Clearable(folder: Option<Folder>, dir: Option<Identity>, records: map<nat, Identity>) {
    if dir.None? then folder.None?
    else
      && folder.Some? && folder.value.identity == dir.value
      && folder.value.entries.Keys == records.Keys == Reported(folder.value.entries, records)
  }

  /** `after` is `before` without some reported entries, or gone. */
  ghost predicate OnlyReportedGone(before: Option<Folder>, after: Option<Folder>, dir: Option<Identity>,
                                   records: map<nat, Identity>)
  {
    if before.None? then after.None?
    else if after.None? then
      dir == Some(before.value.identity) && before.value.entries.Keys == Reported(before.value.entries, records)
    else exists gone: set<nat> ::
        && gone <= Reported(before.value.entries, records)
        && (gone != {} ==> dir == Some(before.value.identity))
        && after.value == before.value.(entries := before.value.entries - gone)
  }

  /** The cleanup of a denied attempt. */
  method Clean(site: Site, dir: Option<Identity>, records: map<nat, Identity>) returns (preserved: bool)
    modifies site
    ensures !preserved ==> site.folder.None?
    ensures OnlyReportedGone(old(site.folder), site.folder, dir, records)
    ensures dir.None? ==> site.folder == old(site.folder)
    ensures !preserved ==> Clearable(old(site.folder), dir, records)
    ensures !site.faulted ==> (preserved <==> !Clearable(old(site.folder), dir, records))
    ensures old(site.faulted) ==> site.faulted
  {
    ghost var before := site.folder;
    Untouched(before, dir, records);
    if dir.None? {
      var seen := site.Call();
      return !seen || site.folder.Some?;
    }
    var opened_ := site.Call();
    if !opened_ || site.folder.None? || site.folder.value.identity != dir.value { return true; }
    var stuck := Unlinks(site, dir.value, records);
    if stuck { return true; }
    var listed := site.Call();
    if !listed || site.folder.value.entries != map[] { return true; }
    assert before.value.entries.Keys <= records.Keys by { AllRemoved(before.value.entries, records.Keys); }
    var removed := site.Call();
    if !removed { return true; }
    site.folder := None;
    return false;
  }

  lemma AllRemoved(entries: map<nat, Node>, gone: set<nat>)
    requires entries - gone == map[]
    ensures entries.Keys <= gone
  {
    assert forall i :: i in entries && i !in gone ==> i in entries - gone;
  }

  lemma Untouched(before: Option<Folder>, dir: Option<Identity>, records: map<nat, Identity>)
    ensures OnlyReportedGone(before, before, dir, records)
  {
    if before.Some? {
      var gone: set<nat> := {};
      assert before.value.entries - gone == before.value.entries;
    }
  }

  /** The loop over the records; it stops at the first entry that is not what was reported. */
  method Unlinks(site: Site, dir: Identity, records: map<nat, Identity>) returns (stuck: bool)
    requires site.folder.Some? && site.folder.value.identity == dir
    modifies site
    ensures site.folder.Some? && OnlyReportedGone(old(site.folder), site.folder, Some(dir), records)
    ensures !stuck ==>
              && records.Keys == Reported(old(site.folder).value.entries, records)
              && site.folder.value.entries == old(site.folder).value.entries - records.Keys
    ensures !site.faulted ==> (stuck <==> records.Keys != Reported(old(site.folder).value.entries, records))
    ensures old(site.faulted) ==> site.faulted
  {
    ghost var before := site.folder.value;
    ghost var gone: set<nat> := {};
    var todo := records.Keys;
    assert before.entries - gone == before.entries;
    while todo != {}
      invariant todo <= records.Keys && gone == records.Keys - todo
      invariant gone <= Reported(before.entries, records)
      invariant site.folder == Some(before.(entries := before.entries - gone))
      invariant old(site.faulted) ==> site.faulted
      decreases todo
    {
      var i :| i in todo;
      var seen := site.Call();
      if !seen || i !in site.folder.value.entries || site.folder.value.entries[i].identity != records[i] {
        assert seen ==> i !in Reported(before.entries, records);
        return true;
      }
      var unlinked := site.Call();
      if !unlinked { return true; }
      site.folder := Some(site.folder.value.(entries := site.folder.value.entries - {i}));
      assert before.entries - gone - {i} == before.entries - (gone + {i});
      gone := gone + {i};
      todo := todo - {i};
    }
    assert gone == records.Keys;
    return false;
  }
}
