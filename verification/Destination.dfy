/**
 The directory attempt-3 as the executor finds it after the worker has gone, and
 the check of its contents before an attempt is called prepared.
 */
module Destination {
  import opened Wrappers
  import opened Messages
  import Transcripts

  /** A file as fstat and a full read show it. */
  datatype Node = Node(identity: Identity, isFile: bool, links: nat, mode: nat, content: seq<int>)

  /** `owner` is the process whose worker made the directory; it is history, not a field on disk. */
  datatype Folder = Folder(identity: Identity, owner: Option<nat>, mode: nat, entries: map<nat, Node>)

  const DIRECTORY_MODE := 0x1C0 // 0700
  const FILE_MODE := 0x180 // 0600
  const MAX_BYTES := 1048576

  /** The digest and the six bound outputs; names are their positions in the list. */
  datatype Bound = Bound(hash: seq<int> -> int, outputs: seq<seq<int>>)

  ghost predicate BoundOk(b: Bound) {
    |b.outputs| == FILE_COUNT && forall x, y :: b.hash(x) == b.hash(y) ==> x == y
  }

  predicate FileOk(b: Bound, records: map<nat, Identity>, entries: map<nat, Node>, i: nat)
    requires |b.outputs| == FILE_COUNT && i < FILE_COUNT
  {
    && i in entries && i in records
    && records[i] == entries[i].identity && entries[i].isFile && |entries[i].content| <= MAX_BYTES
    && entries[i].links == 1 && entries[i].mode == FILE_MODE
    && b.hash(entries[i].content) == b.hash(b.outputs[i])
  }

  predicate Checked(b: Bound, out: Option<Folder>, dir: Option<Identity>, records: map<nat, Identity>)
    requires |b.outputs| == FILE_COUNT
  {
    && out.Some? && dir == Some(out.value.identity) && out.value.mode == DIRECTORY_MODE
    && |out.value.entries| == FILE_COUNT
    && forall i :: 0 <= i < FILE_COUNT ==> FileOk(b, records, out.value.entries, i)
  }

  /** The directory holds the six bound outputs, byte for byte, and nothing else. */
  ghost predicate HoldsOutputs(b: Bound, d: Folder)
    requires |b.outputs| == FILE_COUNT
  {
    && d.entries.Keys == Transcripts.ALL_INDICES
    && forall i :: 0 <= i < FILE_COUNT ==> d.entries[i].content == b.outputs[i]
  }

  /** Six entries among which all six names are found are exactly those six. */
  lemma CheckedMeans(b: Bound, out: Option<Folder>, dir: Option<Identity>, records: map<nat, Identity>)
    requires BoundOk(b) && Checked(b, out, dir, records)
    ensures out.Some? && dir == Some(out.value.identity) && HoldsOutputs(b, out.value)
  {
    var entries := out.value.entries;
    assert |Transcripts.ALL_INDICES| == 6 by {
      assert Transcripts.ALL_INDICES == {0, 1, 2, 3, 4} + {5};
    }
    forall i: nat | i in Transcripts.ALL_INDICES ensures i in entries {
      assert FileOk(b, records, entries, i);
    }
    Transcripts.SubsetOfSameSize(Transcripts.ALL_INDICES, entries.Keys);
    forall i | 0 <= i < FILE_COUNT ensures entries[i].content == b.outputs[i] {
      assert FileOk(b, records, entries, i);
    }
  }

  /** The one listing that passes: each bound output in a plain file of its own, mode 0600, under the
      identity the worker reported for it. */
  function Expected(b: Bound, records: map<nat, Identity>): map<nat, Node>
    requires |b.outputs| == FILE_COUNT && Transcripts.ALL_INDICES <= records.Keys
  {
    map i: nat | i in Transcripts.ALL_INDICES :: Node(records[i], true, 1, FILE_MODE, b.outputs[i])
  }

  /** The check passes on exactly one state of the directory, but for who made it. */
  lemma CheckedExactly(b: Bound, out: Option<Folder>, dir: Option<Identity>, records: map<nat, Identity>)
    requires BoundOk(b)
    ensures
      Checked(b, out, dir, records) <==>
        && out.Some? && dir.Some? && Transcripts.ALL_INDICES <= records.Keys
        && (forall i :: 0 <= i < FILE_COUNT ==> |b.outputs[i]| <= MAX_BYTES)
        && out.value == Folder(dir.value, out.value.owner, DIRECTORY_MODE, Expected(b, records))
  {
    hide FileOk, Expected;
    if Checked(b, out, dir, records) {
      CheckedIsExpected(b, out, dir, records);
    } else if out.Some? && Transcripts.ALL_INDICES <= records.Keys && out.value.entries == Expected(b, records)
              && forall i :: 0 <= i < FILE_COUNT ==> |b.outputs[i]| <= MAX_BYTES {
      ExpectedPasses(b, records);
    }
  }

  lemma CheckedIsExpected(b: Bound, out: Option<Folder>, dir: Option<Identity>, records: map<nat, Identity>)
    requires BoundOk(b) && Checked(b, out, dir, records)
    ensures Transcripts.ALL_INDICES <= records.Keys && out.value.entries == Expected(b, records)
    ensures forall i :: 0 <= i < FILE_COUNT ==> |b.outputs[i]| <= MAX_BYTES
  {
    CheckedMeans(b, out, dir, records);
    var entries := out.value.entries;
    forall i: nat | i in Transcripts.ALL_INDICES
      ensures i in records && entries[i] == Node(records[i], true, 1, FILE_MODE, b.outputs[i])
      ensures |b.outputs[i]| <= MAX_BYTES
    {
      assert FileOk(b, records, entries, i);
    }
  }

  lemma ExpectedPasses(b: Bound, records: map<nat, Identity>)
    requires BoundOk(b) && Transcripts.ALL_INDICES <= records.Keys
    requires forall i :: 0 <= i < FILE_COUNT ==> |b.outputs[i]| <= MAX_BYTES
    ensures |Expected(b, records)| == FILE_COUNT
    ensures forall i :: 0 <= i < FILE_COUNT ==> FileOk(b, records, Expected(b, records), i)
  {
    var entries := Expected(b, records);
    assert entries.Keys == Transcripts.ALL_INDICES;
    SixIndices();
    assert |entries| == |entries.Keys|;
  }

  lemma SixIndices()
    ensures |Transcripts.ALL_INDICES| == FILE_COUNT
    ensures forall i: nat :: i in Transcripts.ALL_INDICES <==> i < FILE_COUNT
  {
    assert Transcripts.ALL_INDICES == {0, 1, 2, 3, 4} + {5};
  }

  /** The post-check; false when it throws. */
  method PostCheck(b: Bound, out: Option<Folder>, dir: Option<Identity>, records: map<nat, Identity>) returns (ok: bool)
    requires BoundOk(b)
    ensures ok == Checked(b, out, dir, records)
    ensures ok ==> dir == Some(out.value.identity) && HoldsOutputs(b, out.value)
  {
    if out.None? { return false; }
    var d := out.value;
    if dir.None? || dir.value != d.identity || d.mode != DIRECTORY_MODE || |d.entries| != 6 { return false; }
    var i := 0;
    while i < 6
      invariant 0 <= i <= 6
      invariant forall j :: 0 <= j < i ==> FileOk(b, records, d.entries, j)
    {
      if i !in d.entries || i !in records {
        assert !FileOk(b, records, d.entries, i);
        return false;
      }
      var file := d.entries[i];
      if records[i] != file.identity || !file.isFile || |file.content| > MAX_BYTES || file.links != 1
         || file.mode != FILE_MODE || b.hash(file.content) != b.hash(b.outputs[i]) {
        assert !FileOk(b, records, d.entries, i);
        return false;
      }
      i := i + 1;
    }
    CheckedMeans(b, out, dir, records);
    return true;
  }
}
