/**
 Installing the git hooks: a forced overwrite of a file that is not ours saves it
 first, a backup overwrites nothing, and a failure before the truncation leaves
 the hook as it was. Every system call may fail.
 */
module HookInstaller {
  import opened Wrappers
  import opened HookContent
  import Lines

  type Bytes = seq<int>

  /** A hook's slot and the names its backups may get. */
  datatype Path =
    | Slot(name: string)
    | Bak(name: string)
    | BakAt(name: string, stamp: nat)
    | BakTry(name: string, stamp: nat, n: nat)

  datatype Node = Link | Other | File(bytes: Bytes, mode: nat, shared: bool)

  type Nodes = map<Path, Node>

  /** How contents are read and digested; see the module of the marker block. */
  datatype Codec = Codec(decode: Bytes -> string, encode: string -> Bytes, hash: string -> string)

  const HOOK_MODE := 0x1ED
  const RETRY_BUDGET := 8
  const CANDIDATES := 2 + RETRY_BUDGET

  // ---- The file system ----------------------------------------------------

  /** The hooks directory. Other processes may take a backup name first; the slots are left to us. */
  class Disk {
    var nodes: Nodes
    /** Some call failed that had no reason to in the state it found, or a backup name was taken by
        another process between being seen free and being opened. */
    ghost var faulted: bool

    constructor (nodes: Nodes)
      ensures this.nodes == nodes && !faulted
    {
      this.nodes := nodes;
      faulted := false;
    }

    method Lstat(p: Path) returns (r: Result<Option<Node>>)
      modifies this`faulted
      ensures r.Thrown? ==> faulted
      ensures r.Ok? ==> faulted == old(faulted) && r.value == if p in nodes then Some(nodes[p]) else None
    {
      var fails: bool := *;
      if fails {
        faulted := true;
        return Thrown;
      }
      r := Ok(if p in nodes then Some(nodes[p]) else None);
    }

    /** Open for reading without following a link, and read the whole file. */
    method ReadNoFollow(p: Path) returns (r: Result<Node>)
      modifies this`faulted
      ensures p in nodes && nodes[p].File? && !faulted ==> r.Ok?
      ensures old(faulted) ==> faulted
      ensures r.Ok? ==> p in nodes && nodes[p] == r.value && r.value.File?
      ensures r.Thrown? && p in nodes && nodes[p].File? ==> faulted
      ensures !(r.Thrown? && p in nodes && nodes[p].File?) ==> faulted == old(faulted)
    {
      var fails: bool := *;
      if p !in nodes || !nodes[p].File? { return Thrown; }
      if fails {
        faulted := true;
        return Thrown;
      }
      r := Ok(nodes[p]);
    }

    /** Open a backup name with O_CREAT | O_EXCL: created empty, already there, or failed. */
    method CreateNew(p: Path) returns (created: bool, exists_: bool)
      requires !p.Slot?
      modifies this
      ensures created ==> p !in old(nodes) && nodes == old(nodes)[p := File([], 0, false)] && faulted == old(faulted)
      ensures created ==> !exists_
      ensures !created ==> nodes == old(nodes) || (p !in old(nodes) && p in nodes && nodes == old(nodes)[p := nodes[p]])
      ensures !created && p !in old(nodes) ==> faulted
      ensures old(faulted) ==> faulted
    {
      var raced: bool := *;
      var fails: bool := *;
      var stranger: Node := *;
      if p in nodes { return false, true; }
      if raced {
        nodes := nodes[p := stranger];
        faulted := true;
        return false, true;
      }
      if fails {
        faulted := true;
        return false, false;
      }
      nodes := nodes[p := File([], 0, false)];
      return true, false;
    }

    /** Write to an open, empty file: all of it, or a beginning of it and a failure. */
    method Write(p: Path, bytes: Bytes) returns (ok: bool)
      requires p in nodes && nodes[p].File?
      modifies this
      ensures p in nodes && nodes == old(nodes)[p := nodes[p]] && nodes[p].File?
      ensures nodes[p].mode == old(nodes)[p].mode && nodes[p].shared == old(nodes)[p].shared
      ensures ok ==> nodes[p].bytes == bytes && faulted == old(faulted)
      ensures !ok ==> faulted
    {
      var fails: bool := *;
      if fails {
        var part: Bytes := *;
        nodes := nodes[p := nodes[p].(bytes := part)];
        faulted := true;
        return false;
      }
      nodes := nodes[p := nodes[p].(bytes := bytes)];
      return true;
    }

    method Truncate(p: Path) returns (ok: bool)
      requires p in nodes && nodes[p].File?
      modifies this
      ensures ok ==> nodes == old(nodes)[p := old(nodes)[p].(bytes := [])] && faulted == old(faulted)
      ensures !ok ==> nodes == old(nodes) && faulted
    {
      var fails: bool := *;
      if fails {
        faulted := true;
        return false;
      }
      nodes := nodes[p := nodes[p].(bytes := [])];
      return true;
    }

    method Chmod(p: Path, mode: nat) returns (ok: bool)
      requires p in nodes && nodes[p].File?
      modifies this
      ensures ok ==> nodes == old(nodes)[p := old(nodes)[p].(mode := mode)] && faulted == old(faulted)
      ensures !ok ==> nodes == old(nodes) && faulted
    {
      var fails: bool := *;
      if fails {
        faulted := true;
        return false;
      }
      nodes := nodes[p := nodes[p].(mode := mode)];
      return true;
    }

    /** Open a slot for writing with O_CREAT and without following a link. */
    method OpenSlot(p: Path) returns (ok: bool)
      requires p.Slot?
      modifies this
      ensures ok && p in old(nodes) ==> nodes == old(nodes) && nodes[p].File?
      ensures ok ==> p in nodes && nodes[p].File? && faulted == old(faulted)
      ensures ok && p !in old(nodes) ==> nodes == old(nodes)[p := nodes[p]] && nodes[p].bytes == [] && !nodes[p].shared
      ensures !ok ==> nodes == old(nodes)
      ensures !ok ==> faulted || (p in nodes && !nodes[p].File?)
      ensures old(faulted) ==> faulted
    {
      var fails: bool := *;
      if p in nodes && !nodes[p].File? { return false; }
      if fails {
        faulted := true;
        return false;
      }
      if p !in nodes {
        var masked: int := *;
        var m := if masked < 0 then 0 else masked;
        nodes := nodes[p := File([], m, false)];
      }
      return true;
    }

    /** What is open at `p`. */
    method Fstat(p: Path) returns (r: Result<Node>)
      requires p in nodes && nodes[p].File?
      modifies this`faulted
      ensures r.Thrown? ==> faulted
      ensures r.Ok? ==> r.value == nodes[p] && faulted == old(faulted)
    {
      var fails: bool := *;
      if fails {
        faulted := true;
        return Thrown;
      }
      r := Ok(nodes[p]);
    }
  }

  // ---- Backups ------------------------------------------------------------

  /** backupCandidates: `.bak`, `.bak.{stamp}`, `.bak.{stamp}-{n}` for n up to the budget. */
  function Candidate(name: string, stamp: nat, i: nat): Path {
    if i == 0 then Bak(name) else if i == 1 then BakAt(name, stamp) else BakTry(name, stamp, i - 1)
  }

  predicate IsCandidate(p: Path, name: string) {
    !p.Slot? && p.name == name
  }

  /** The first free candidate, if only regular files stand before it. */
  function FirstFree(nodes: Nodes, name: string, stamp: nat, i: nat): Option<nat>
    requires i <= CANDIDATES
    decreases CANDIDATES - i
  {
    if i == CANDIDATES then None
    else if Candidate(name, stamp, i) !in nodes then Some(i)
    else if nodes[Candidate(name, stamp, i)].File? then FirstFree(nodes, name, stamp, i + 1)
    else None
  }

  /** The candidates are ten different names, none of them a slot: the plain one first, then the one with
      the time alone, then the numbered ones from 1. */
  lemma CandidatesDiffer(name: string, stamp: nat, i: nat, j: nat)
    requires i < j < CANDIDATES
    ensures Candidate(name, stamp, 0) == Bak(name) && Candidate(name, stamp, 1) == BakAt(name, stamp)
    ensures i > 0 ==> Candidate(name, stamp, j) == BakTry(name, stamp, j - 1)
    ensures Candidate(name, stamp, i) != Candidate(name, stamp, j)
    ensures IsCandidate(Candidate(name, stamp, i), name) && IsCandidate(Candidate(name, stamp, j), name)
  {
  }

  /** The first free candidate is the one before which only regular files stand. */
  lemma {:induction false} FirstFreeExactly(nodes: Nodes, name: string, stamp: nat, from: nat, i: nat)
    requires from <= i < CANDIDATES
    ensures FirstFree(nodes, name, stamp, from) == Some(i) <==>
            && Candidate(name, stamp, i) !in nodes
            && forall j: nat :: from <= j < i ==>
                 Candidate(name, stamp, j) in nodes && nodes[Candidate(name, stamp, j)].File?
    decreases i - from
  {
    hide Candidate;
    if from < i {
      FirstFreeExactly(nodes, name, stamp, from + 1, i);
    } else {
      FirstFreeLater(nodes, name, stamp, i);
    }
  }

  lemma {:induction false} FirstFreeLater(nodes: Nodes, name: string, stamp: nat, i: nat)
    requires i <= CANDIDATES
    ensures var r := FirstFree(nodes, name, stamp, i);
            r.Some? ==> i <= r.value < CANDIDATES && Candidate(name, stamp, r.value) !in nodes
    decreases CANDIDATES - i
  {
    hide Candidate;
    if i < CANDIDATES { FirstFreeLater(nodes, name, stamp, i + 1); }
  }

  /** What is in place stays: `after` has every node of `before`, except perhaps at `p`. */
  ghost predicate KeepsAllBut(before: Nodes, after: Nodes, p: Path) {
    forall q :: q in before && q != p ==> q in after && after[q] == before[q]
  }

  /** What is new is named after the hook. */
  ghost predicate AddsOnlyFor(before: Nodes, after: Nodes, name: string) {
    forall q :: q in after && q !in before ==> q.name == name
  }

  /** A backup of the hook made by this run. */
  ghost predicate IsBackup(before: Nodes, after: Nodes, name: string, c: Path) {
    && Slot(name) in before && before[Slot(name)].File?
    && IsCandidate(c, name) && c !in before
    && c in after && after[c] == File(before[Slot(name)].bytes, before[Slot(name)].mode, false)
  }

  /** backupHook. */
  method BackupHook(disk: Disk, name: string, stamp: nat) returns (r: Result<Path>)
    modifies disk
    ensures forall q :: q in old(disk.nodes) ==> q in disk.nodes && disk.nodes[q] == old(disk.nodes)[q]
    ensures forall q :: q in disk.nodes && q !in old(disk.nodes) ==> IsCandidate(q, name)
    ensures r.Ok? ==> IsBackup(old(disk.nodes), disk.nodes, name, r.value)
    ensures old(disk.faulted) ==> disk.faulted
    ensures !disk.faulted ==>
              var before := old(disk.nodes);
              var free := FirstFree(before, name, stamp, 0);
              r == if Slot(name) in before && before[Slot(name)].File? && free.Some?
                   then Ok(Candidate(name, stamp, free.value)) else Thrown
  {
    ghost var before := disk.nodes;
    var source := disk.ReadNoFollow(Slot(name));
    if source.Thrown? { return Thrown; }
    var i := 0;
    while i < CANDIDATES
      invariant 0 <= i <= CANDIDATES
      invariant forall q :: q in before ==> q in disk.nodes && disk.nodes[q] == before[q]
      invariant forall q :: q in disk.nodes && q !in before ==> IsCandidate(q, name)
      invariant !disk.faulted ==>
          disk.nodes == before && FirstFree(before, name, stamp, 0) == FirstFree(before, name, stamp, i)
      invariant old(disk.faulted) ==> disk.faulted
    {
      var candidate := Candidate(name, stamp, i);
      i := i + 1;
      var existing := disk.Lstat(candidate);
      if existing.Thrown? { return Thrown; }
      if existing.value.Some? {
        if !existing.value.value.File? { return Thrown; }
        continue;
      }
      var created, taken := disk.CreateNew(candidate);
      if !created {
        if taken { continue; }
        return Thrown;
      }
      var written := disk.Write(candidate, source.value.bytes);
      if !written { return Thrown; }
      var moded := disk.Chmod(candidate, source.value.mode);
      if !moded { return Thrown; }
      return Ok(candidate);
    }
    return Thrown;
  }

  // ---- Writing the hook ---------------------------------------------------

  /** The slot holds something that is never written: a link, no regular file, or a shared one. */
  predicate Blocked(nodes: Nodes, name: string) {
    Slot(name) in nodes && (nodes[Slot(name)].File? ==> nodes[Slot(name)].shared)
  }

  /** writeHookFile; `cut` says that the old content was truncated. */
  method WriteHookFile(disk: Disk, name: string, content: Bytes) returns (ok: bool, ghost cut: bool)
    modifies disk
    ensures KeepsAllBut(old(disk.nodes), disk.nodes, Slot(name)) && AddsOnlyFor(old(disk.nodes), disk.nodes, name)
    ensures forall q :: q in disk.nodes && q !in old(disk.nodes) ==> q == Slot(name)
    ensures ok ==> Slot(name) in disk.nodes && disk.nodes[Slot(name)] == File(content, HOOK_MODE, false)
    ensures !cut && Slot(name) in old(disk.nodes) ==> !ok && disk.nodes == old(disk.nodes)
    ensures cut && Slot(name) in old(disk.nodes) ==>
              old(disk.nodes)[Slot(name)].File? && !old(disk.nodes)[Slot(name)].shared
    ensures !disk.faulted ==> (ok <==> !Blocked(old(disk.nodes), name))
    ensures old(disk.faulted) ==> disk.faulted
  {
    var p := Slot(name);
    cut := false;
    var opened_ := disk.OpenSlot(p);
    if !opened_ { return false, false; }
    var stat := disk.Fstat(p);
    if stat.Thrown? { return false, false; }
    if stat.value.shared { return false, false; }
    var truncated := disk.Truncate(p);
    if !truncated { return false, false; }
    cut := true;
    var written := disk.Write(p, content);
    if !written { return false, cut; }
    ok := disk.Chmod(p, HOOK_MODE);
  }

  // ---- One hook -----------------------------------------------------------

  datatype Outcome = Kept | Installed | Upgraded | Refused

  /** The state of a slot's content. */
  function StateOf(nodes: Nodes, name: string, entry: Entry, t: Codec): State {
    if Slot(name) !in nodes then Absent
    else match nodes[Slot(name)]
      case Link => Symlink
      case Other => NotAFile
      case File(bytes, _, _) => Classify(t.decode(bytes), name, entry, t.hash)
  }

  method ClassifyHookPath(disk: Disk, name: string, entry: Entry, t: Codec) returns (r: Result<State>)
    modifies disk`faulted
    ensures r.Ok? ==> r.value == StateOf(disk.nodes, name, entry, t) && disk.faulted == old(disk.faulted)
    ensures r.Thrown? ==> disk.faulted
  {
    hide Classify;
    var stat := disk.Lstat(Slot(name));
    if stat.Thrown? { return Thrown; }
    if stat.value.None? { return Ok(Absent); }
    if stat.value.value.Link? { return Ok(Symlink); }
    if !stat.value.value.File? { return Ok(NotAFile); }
    var node := disk.ReadNoFollow(Slot(name));
    if node.Thrown? { return Thrown; }
    return Ok(Classify(t.decode(node.value.bytes), name, entry, t.hash));
  }

  /** repairHookMode: the mode of a current hook, never its bytes. */
  method RepairHookMode(disk: Disk, name: string) returns (ok: bool)
    requires Slot(name) in disk.nodes && disk.nodes[Slot(name)].File?
    modifies disk
    ensures Slot(name) in disk.nodes && disk.nodes == old(disk.nodes)[Slot(name) := disk.nodes[Slot(name)]]
    ensures disk.nodes[Slot(name)].File?
    ensures disk.nodes[Slot(name)] == old(disk.nodes)[Slot(name)].(mode := disk.nodes[Slot(name)].mode)
    ensures ok ==> disk.nodes[Slot(name)].mode % 512 == HOOK_MODE && disk.faulted == old(disk.faulted)
    ensures !ok ==> disk.nodes == old(disk.nodes) && disk.faulted
  {
    assert disk.nodes == disk.nodes[Slot(name) := disk.nodes[Slot(name)]];
    var node := disk.ReadNoFollow(Slot(name));
    if node.Thrown? { return false; }
    if node.value.mode % 512 != HOOK_MODE {
      ok := disk.Chmod(Slot(name), HOOK_MODE);
      return;
    }
    return true;
  }

  predicate NeedsBackup(s: State) {
    s == ManagedEdited || s == Foreign
  }

  /** When a hook is refused if nothing fails. */
  predicate WhenRefused(nodes: Nodes, name: string, entry: Option<Entry>, shipped: Result<string>,
                        force: bool, stamp: nat, t: Codec) {
    entry.None? ||
    var state := StateOf(nodes, name, entry.value, t);
    state != ManagedCurrent &&
      (Blocked(nodes, name) || shipped.Thrown? ||
       (NeedsBackup(state) && (!force || FirstFree(nodes, name, stamp, 0).None?)))
  }

  /** What was in the slot is still there, or saved under a free name, or was released content. */
  ghost predicate Conserved(before: Nodes, after: Nodes, name: string, entry: Option<Entry>, t: Codec) {
    Slot(name) in before ==>
      var node := before[Slot(name)];
      || (Slot(name) in after && after[Slot(name)] == node)
      || (node.File? && !node.shared && exists c :: IsBackup(before, after, name, c))
      || (node.File? && entry.Some? && Released(t.decode(node.bytes), entry.value, t.hash) && !node.shared)
      || (node.File? && Slot(name) in after && after[Slot(name)].File? && after[Slot(name)].bytes == node.bytes)
  }

  /** The file of an installed hook. */
  function Rendered(body: string, name: string, entry: Entry, t: Codec): Node {
    File(t.encode(Render(body, name, entry, t.hash)), HOOK_MODE, false)
  }

  /** The hook's bytes are as they were, and its mode lets git run it. */
  ghost predicate OnlyModeRepaired(before: Nodes, after: Nodes, name: string) {
    && Slot(name) in before && Slot(name) in after && before[Slot(name)].File?
    && after[Slot(name)].File? && after[Slot(name)].mode % 512 == HOOK_MODE
    && after[Slot(name)] == before[Slot(name)].(mode := after[Slot(name)].mode)
  }

  /** What a hook that is not refused went through, by the state it was found in. */
  ghost predicate Done(before: Nodes, after: Nodes, name: string, entry: Entry,
                       shipped: Result<string>, t: Codec, o: Outcome) {
    var state := StateOf(before, name, entry, t);
    && (o.Kept? <==> state == ManagedCurrent)
    && (o.Upgraded? <==> state == ManagedOutdated || state == LegacyV0)
    && Slot(name) in after
    && (o.Kept? ==> StateOf(after, name, entry, t) == ManagedCurrent && OnlyModeRepaired(before, after, name))
    && (!o.Kept? ==> shipped.Ok? && after[Slot(name)] == Rendered(shipped.value, name, entry, t))
  }

  /** One turn of the loop of installCIHooks. */
  method InstallHook(disk: Disk, name: string, entry: Option<Entry>, shipped: Result<string>,
                     force: bool, stamp: nat, t: Codec)
    returns (o: Outcome, backup: Option<Path>)
    modifies disk
    ensures KeepsAllBut(old(disk.nodes), disk.nodes, Slot(name)) && AddsOnlyFor(old(disk.nodes), disk.nodes, name)
    ensures Conserved(old(disk.nodes), disk.nodes, name, entry, t)
    ensures backup.Some? ==> IsBackup(old(disk.nodes), disk.nodes, name, backup.value)
    ensures !force && entry.Some? && NeedsBackup(StateOf(old(disk.nodes), name, entry.value, t)) ==>
              disk.nodes == old(disk.nodes)
    ensures Blocked(old(disk.nodes), name)
            && (entry.Some? ==> StateOf(old(disk.nodes), name, entry.value, t) != ManagedCurrent) ==>
              Slot(name) in disk.nodes && disk.nodes[Slot(name)] == old(disk.nodes)[Slot(name)]
    ensures !disk.faulted ==> (o.Refused? <==> WhenRefused(old(disk.nodes), name, entry, shipped, force, stamp, t))
    ensures !disk.faulted && o.Refused? && Slot(name) in old(disk.nodes) ==>
              Slot(name) in disk.nodes && disk.nodes[Slot(name)] == old(disk.nodes)[Slot(name)]
    ensures !o.Refused? ==> entry.Some? && Done(old(disk.nodes), disk.nodes, name, entry.value, shipped, t, o)
    ensures old(disk.faulted) ==> disk.faulted
  {
    hide Classify, Render, FirstFree;
    backup := None;
    if entry.None? { return Refused, None; }
    ghost var before := disk.nodes;
    var classified := ClassifyHookPath(disk, name, entry.value, t);
    if classified.Thrown? { return Refused, None; }
    var state := classified.value;
    if state == ManagedCurrent {
      CurrentIsFile(before, name, entry.value, t);
      var ok := RepairHookMode(disk, name);
      return if ok then Kept else Refused, None;
    }
    StateNamesNode(before, name, entry.value, t);
    if state == Symlink || state == NotAFile { return Refused, None; }
    if state == ManagedEdited || state == Foreign {
      if !force { return Refused, None; }
      var saved := BackupHook(disk, name, stamp);
      if saved.Thrown? { return Refused, None; }
      backup := Some(saved.value);
    }
    if shipped.Thrown? { return Refused, backup; }
    ghost var saved := disk.nodes;
    var ok, cut := WriteHookFile(disk, name, t.encode(Render(shipped.value, name, entry.value, t.hash)));
    if backup.Some? {
      assert IsBackup(before, disk.nodes, name, backup.value);
    } else if Slot(name) in before {
      OutdatedIsReleased(before, name, entry.value, t);
    }
    if !ok { return Refused, backup; }
    o := if state == ManagedOutdated || state == LegacyV0 then Upgraded else Installed;
  }

  lemma CurrentIsFile(nodes: Nodes, name: string, entry: Entry, t: Codec)
    requires StateOf(nodes, name, entry, t) == ManagedCurrent
    ensures Slot(name) in nodes && nodes[Slot(name)].File?
  {
  }

  lemma StateNamesNode(nodes: Nodes, name: string, entry: Entry, t: Codec)
    ensures var s := StateOf(nodes, name, entry, t);
            && (s == Absent <==> Slot(name) !in nodes)
            && (s == Symlink || s == NotAFile <==> Slot(name) in nodes && !nodes[Slot(name)].File?)
  {
    hide Classify;
    if Slot(name) in nodes && nodes[Slot(name)].File? {
      ClassifyNamesContent(t.decode(nodes[Slot(name)].bytes), name, entry, t.hash);
    }
  }

  lemma ClassifyNamesContent(content: string, name: string, entry: Entry, hash: string -> string)
    ensures Classify(content, name, entry, hash) !in {Absent, Symlink, NotAFile}
  {
    hide Lines.Split, Lines.Join, NameMarker, IsHashMarker;
  }

  lemma OutdatedIsReleased(nodes: Nodes, name: string, entry: Entry, t: Codec)
    requires Slot(name) in nodes && StateOf(nodes, name, entry, t) in {ManagedOutdated, LegacyV0, Absent}
    ensures nodes[Slot(name)].File? && Released(t.decode(nodes[Slot(name)].bytes), entry, t.hash)
  {
    hide Released, Classify;
    StateNamesNode(nodes, name, entry, t);
    ReplaceableIsReleased(t.decode(nodes[Slot(name)].bytes), name, entry, t.hash);
  }

  // ---- All hooks ----------------------------------------------------------

  function EntryFor(manifest: map<string, Entry>, name: string): Option<Entry> {
    if name in manifest then Some(manifest[name]) else None
  }

  function ShippedFor(shipped: map<string, string>, name: string): Result<string> {
    if name in shipped then Ok(shipped[name]) else Thrown
  }

  /** No slot but those of `names` loses or changes its node, and no backup ever does. */
  ghost predicate KeepsOthers(before: Nodes, after: Nodes, names: seq<string>) {
    forall q :: q in before && !(q.Slot? && q.name in names) ==> q in after && after[q] == before[q]
  }

  /** The install loop of installCIHooks, over any distinct hook names. */
  method InstallHooks(disk: Disk, names: seq<string>, manifest: map<string, Entry>, shipped: map<string, string>,
                      force: bool, stamps: seq<nat>, t: Codec)
    returns (outcomes: seq<Outcome>)
    requires |stamps| == |names| && forall i, j :: 0 <= i < j < |names| ==> names[i] != names[j]
    modifies disk
    ensures |outcomes| == |names|
    ensures KeepsOthers(old(disk.nodes), disk.nodes, names)
    ensures forall i :: 0 <= i < |names| ==>
              Conserved(old(disk.nodes), disk.nodes, names[i], EntryFor(manifest, names[i]), t)
    ensures forall i :: 0 <= i < |names| && !outcomes[i].Refused? ==> names[i] in manifest
    ensures forall i :: 0 <= i < |names| && !outcomes[i].Refused? ==>
              Done(old(disk.nodes), disk.nodes, names[i], manifest[names[i]], ShippedFor(shipped, names[i]), t,
                   outcomes[i])
    ensures !disk.faulted ==> forall i :: 0 <= i < |names| ==>
              (outcomes[i].Refused? <==>
                 WhenRefused(old(disk.nodes), names[i], EntryFor(manifest, names[i]), ShippedFor(shipped, names[i]),
                             force, stamps[i], t))
  {
    hide Done, Conserved, WhenRefused;
    ghost var before := disk.nodes;
    outcomes := [];
    for i := 0 to |names|
      invariant |outcomes| == i
      invariant KeepsOthers(before, disk.nodes, names[..i])
      invariant forall q :: q in disk.nodes && q !in before ==> q.name in names[..i]
      invariant forall j :: 0 <= j < i ==> Conserved(before, disk.nodes, names[j], EntryFor(manifest, names[j]), t)
      invariant forall j :: 0 <= j < i && !outcomes[j].Refused? ==> names[j] in manifest
      invariant forall j :: 0 <= j < i && !outcomes[j].Refused? ==>
        Done(before, disk.nodes, names[j], manifest[names[j]], ShippedFor(shipped, names[j]), t, outcomes[j])
      invariant !disk.faulted ==> forall j :: 0 <= j < i ==>
        (outcomes[j].Refused? <==>
           WhenRefused(before, names[j], EntryFor(manifest, names[j]), ShippedFor(shipped, names[j]),
                       force, stamps[j], t))
    {
      ghost var mid := disk.nodes;
      var name := names[i];
      assert names[..i + 1] == names[..i] + [name];
      assert Alike(before, mid, name);
      var o, _ := InstallHook(disk, name, EntryFor(manifest, name), ShippedFor(shipped, name), force, stamps[i], t);
      FromHere(before, mid, disk.nodes, name, EntryFor(manifest, name), ShippedFor(shipped, name),
               force, stamps[i], t, o);
      forall j | 0 <= j < i
        ensures Conserved(before, disk.nodes, names[j], EntryFor(manifest, names[j]), t)
      {
        StaysConserved(before, mid, disk.nodes, names[j], EntryFor(manifest, names[j]), t);
      }
      forall j | 0 <= j < i && !outcomes[j].Refused?
        ensures Done(before, disk.nodes, names[j], manifest[names[j]], ShippedFor(shipped, names[j]), t, outcomes[j])
      {
        StaysDone(before, mid, disk.nodes, names[j], manifest[names[j]], ShippedFor(shipped, names[j]), t, outcomes[j]);
      }
      outcomes := outcomes + [o];
    }
    assert names[..|names|] == names;
  }

  /** For one hook the two directories look the same. */
  ghost predicate Alike(a: Nodes, b: Nodes, name: string) {
    forall q: Path :: q.name == name ==> (q in a <==> q in b) && (q in a ==> a[q] == b[q])
  }

  lemma FreeAlike(a: Nodes, b: Nodes, name: string, stamp: nat, i: nat)
    requires Alike(a, b, name) && i <= CANDIDATES
    ensures FirstFree(a, name, stamp, i) == FirstFree(b, name, stamp, i)
    decreases CANDIDATES - i
  {
    if i < CANDIDATES {
      var c := Candidate(name, stamp, i);
      assert c.name == name;
      FreeAlike(a, b, name, stamp, i + 1);
    }
  }

  /** What holds of one turn holds counted from the start. */
  lemma FromHere(before: Nodes, mid: Nodes, after: Nodes, name: string, entry: Option<Entry>,
                 shipped: Result<string>, force: bool, stamp: nat, t: Codec, o: Outcome)
    requires Alike(before, mid, name)
    ensures Conserved(mid, after, name, entry, t) ==> Conserved(before, after, name, entry, t)
    ensures entry.Some? ==>
              (Done(mid, after, name, entry.value, shipped, t, o) <==>
               Done(before, after, name, entry.value, shipped, t, o))
    ensures WhenRefused(mid, name, entry, shipped, force, stamp, t) <==>
            WhenRefused(before, name, entry, shipped, force, stamp, t)
  {
    hide Classify, Released, Render, FirstFree;
    FreeAlike(before, mid, name, stamp, 0);
    assert Slot(name).name == name;
    forall c | IsBackup(mid, after, name, c) ensures IsBackup(before, after, name, c) {
      assert c.name == name;
    }
  }

  lemma StaysConserved(before: Nodes, mid: Nodes, after: Nodes, name: string, entry: Option<Entry>, t: Codec)
    requires Conserved(before, mid, name, entry, t)
    requires forall q: Path :: q in mid && q.name == name ==> q in after && after[q] == mid[q]
    ensures Conserved(before, after, name, entry, t)
  {
    hide Released;
    assert Slot(name).name == name;
    forall c | IsBackup(before, mid, name, c) ensures IsBackup(before, after, name, c) {
      assert c.name == name;
    }
  }

  lemma StaysDone(before: Nodes, mid: Nodes, after: Nodes, name: string, entry: Entry,
                  shipped: Result<string>, t: Codec, o: Outcome)
    requires Done(before, mid, name, entry, shipped, t, o)
    requires forall q: Path :: q in mid && q.name == name ==> q in after && after[q] == mid[q]
    ensures Done(before, after, name, entry, shipped, t, o)
  {
    hide Classify, Render;
    assert Slot(name).name == name;
  }

  /** A second install finds every hook current, whatever the first did with it, if the shipped bodies
      are scripts that match the manifest and text survives being written and read. */
  /** No candidate can be created: before the first free one stands something that is no regular file,
      or none is free. */
  predicate NoRoom(nodes: Nodes, name: string, stamp: nat) {
    forall i: nat :: i < CANDIDATES && Candidate(name, stamp, i) !in nodes ==>
      exists j: nat :: j < i && Candidate(name, stamp, j) in nodes && !nodes[Candidate(name, stamp, j)].File?
  }

  lemma NoRoomExactly(nodes: Nodes, name: string, stamp: nat)
    ensures FirstFree(nodes, name, stamp, 0).None? <==> NoRoom(nodes, name, stamp)
  {
    hide Candidate, FirstFree;
    FirstFreeLater(nodes, name, stamp, 0);
    forall i: nat | i < CANDIDATES
      ensures FirstFree(nodes, name, stamp, 0) == Some(i) <==>
              && Candidate(name, stamp, i) !in nodes
              && forall j: nat :: j < i ==> Candidate(name, stamp, j) in nodes && nodes[Candidate(name, stamp, j)].File?
    {
      FirstFreeExactly(nodes, name, stamp, 0, i);
    }
    if FirstFree(nodes, name, stamp, 0).None? { BlockedBefore(nodes, name, stamp); }
  }

  lemma BlockedBefore(nodes: Nodes, name: string, stamp: nat)
    requires forall i: nat :: i < CANDIDATES && Candidate(name, stamp, i) !in nodes ==>
               exists j: nat :: j < i && !(Candidate(name, stamp, j) in nodes && nodes[Candidate(name, stamp, j)].File?)
    ensures NoRoom(nodes, name, stamp)
  {
    hide Candidate;
    forall i: nat | i < CANDIDATES && Candidate(name, stamp, i) !in nodes
      ensures exists j: nat :: j < i && Candidate(name, stamp, j) in nodes && !nodes[Candidate(name, stamp, j)].File?
    {
      Descend(nodes, name, stamp, i);
    }
  }

  lemma {:induction false} Descend(nodes: Nodes, name: string, stamp: nat, i: nat)
    requires i < CANDIDATES && Candidate(name, stamp, i) !in nodes
    requires forall k: nat :: k < CANDIDATES && Candidate(name, stamp, k) !in nodes ==>
               exists j: nat :: j < k && !(Candidate(name, stamp, j) in nodes && nodes[Candidate(name, stamp, j)].File?)
    ensures exists j: nat :: j < i && Candidate(name, stamp, j) in nodes && !nodes[Candidate(name, stamp, j)].File?
  {
    hide Candidate;
    var j: nat :| j < i && !(Candidate(name, stamp, j) in nodes && nodes[Candidate(name, stamp, j)].File?);
    if Candidate(name, stamp, j) !in nodes { Descend(nodes, name, stamp, j); }
  }

  /** When nothing fails, a known hook whose shipped file is there is refused exactly in these cases:
      its slot holds no regular file, or a shared one that is not current, or content nobody released
      and either no force or no room to save it. */
  lemma RefusedExactly(nodes: Nodes, name: string, entry: Entry, body: string, force: bool, stamp: nat, t: Codec)
    ensures
      WhenRefused(nodes, name, Some(entry), Ok(body), force, stamp, t) <==>
        Slot(name) in nodes && match nodes[Slot(name)]
          case File(bytes, _, shared) =>
            var state := Classify(t.decode(bytes), name, entry, t.hash);
            && state != ManagedCurrent
            && (shared || ((state == ManagedEdited || state == Foreign) && (!force || NoRoom(nodes, name, stamp))))
          case _ => true
  {
    hide Classify, FirstFree, NoRoom;
    NoRoomExactly(nodes, name, stamp);
  }

  lemma UnknownIsRefused(nodes: Nodes, name: string, entry: Option<Entry>, shipped: Result<string>,
                         force: bool, stamp: nat, t: Codec)
    ensures entry.None? ==> WhenRefused(nodes, name, entry, shipped, force, stamp, t)
    ensures entry.Some? && shipped.Thrown? ==>
              (WhenRefused(nodes, name, entry, shipped, force, stamp, t) <==>
               StateOf(nodes, name, entry.value, t) != ManagedCurrent)
  {
    hide Classify, FirstFree;
  }

  /** A hook that this installer wrote under an older manifest, and nobody changed since, is replaced
      without force, as long as the manifest still knows its body. */
  lemma UpgradesUnforced(nodes: Nodes, name: string, old_: Entry, entry: Entry, body: string, shipped: string,
                         stamp: nat, t: Codec)
    requires NameOk(name) && DigestsOk(t.hash) && SHEBANG <= body && forall s :: t.decode(t.encode(s)) == s
    requires Slot(name) in nodes && nodes[Slot(name)] == Rendered(body, name, old_, t)
    requires t.hash(body) == entry.sha256 || t.hash(body) in entry.historical
    ensures !WhenRefused(nodes, name, Some(entry), Ok(shipped), false, stamp, t)
    ensures StateOf(nodes, name, entry, t) == ManagedCurrent <==>
            t.hash(body) == entry.sha256 && old_.version == entry.version
  {
    hide Classify, Render, FirstFree;
    ClassifyRendered(body, name, old_, entry, t.hash);
  }

  lemma InstalledIsCurrent(before: Nodes, after: Nodes, name: string, entry: Entry, body: string, t: Codec, o: Outcome)
    requires NameOk(name) && DigestsOk(t.hash) && t.hash(body) == entry.sha256 && SHEBANG <= body
    requires forall s :: t.decode(t.encode(s)) == s
    requires !o.Refused? && Done(before, after, name, entry, Ok(body), t, o)
    ensures StateOf(after, name, entry, t) == ManagedCurrent
  {
    hide Classify, Render;
    ClassifyRendered(body, name, entry, entry, t.hash);
  }
}
