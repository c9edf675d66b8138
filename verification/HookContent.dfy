/**
 The marker block of an installed git hook: rendering a shipped body with it, and
 classifying the content of a file by it.
 */
module HookContent {
  import opened Wrappers
  import opened Lines
  import Decimal

  datatype State =
    | Absent | Symlink | NotAFile
    | ManagedCurrent | ManagedOutdated | ManagedEdited | LegacyV0 | Foreign

  /** What the manifest says of one hook. */
  datatype Entry = Entry(version: nat, sha256: string, historical: seq<string>)

  const NAME_MARK := "# javi-forge-hook: "
  const HASH_MARK := "# javi-forge-hash: sha256:"
  const SHEBANG := "#!"

  predicate IsNameChar(c: char) {
    'a' <= c <= 'z' || c == '-'
  }

  /** The `[a-z-]+` of the marker pattern. */
  predicate NameOk(name: string) {
    name != "" && forall c :: c in name ==> IsNameChar(c)
  }

  predicate IsHexDigest(s: string) {
    |s| == 64 && forall c :: c in s ==> '0' <= c <= '9' || 'a' <= c <= 'f'
  }

  ghost predicate DigestsOk(hash: string -> string) {
    forall s :: IsHexDigest(hash(s))
  }

  /** The name and version on a marker line. */
  function NameMarker(line: string): Option<(string, nat)> {
    if !(NAME_MARK <= line) then None
    else
      var rest := line[|NAME_MARK|..];
      var k := IndexOf(rest, ' ');
      if k == |rest| || !NameOk(rest[..k]) || !(" v" <= rest[k..]) then None
      else
        var digits := rest[k + 2..];
        if Decimal.IsNumeral(digits) then Some((rest[..k], Decimal.Value(digits))) else None
  }

  predicate IsHashMarker(line: string) {
    HASH_MARK <= line && IsHexDigest(line[|HASH_MARK|..])
  }

  function LineAt(ls: seq<string>, i: nat): string {
    if i < |ls| then ls[i] else ""
  }

  /** The content carries a marker block. */
  predicate IsMarked(ls: seq<string>)
    requires |ls| >= 1
  {
    SHEBANG <= ls[0] && NameMarker(LineAt(ls, 1)).Some? && IsHashMarker(LineAt(ls, 2))
  }

  /** The lines without the marker block. */
  function Unmarked(ls: seq<string>): seq<string>
    requires |ls| >= 1 && IsMarked(ls)
    ensures |Unmarked(ls)| >= 1
  {
    [ls[0]] + if |ls| >= 3 then ls[3..] else []
  }

  /** classifyHookContent. */
  function Classify(content: string, name: string, entry: Entry, hash: string -> string): State {
    var ls := Split(content);
    if IsMarked(ls) then
      var mark := NameMarker(LineAt(ls, 1)).value;
      if mark.0 != name then Foreign
      else
        var computed := hash(Join(Unmarked(ls)));
        if computed == entry.sha256 then (if mark.1 == entry.version then ManagedCurrent else ManagedOutdated)
        else if computed in entry.historical then ManagedOutdated
        else ManagedEdited
    else if hash(content) in entry.historical then LegacyV0
    else Foreign
  }

  /** The two marker lines. */
  function NameLine(name: string, version: nat): string {
    NAME_MARK + name + " v" + Decimal.Print(version)
  }

  /** A body with a marker block of any name, version and claimed digest under its first line. */
  function MarkedBody(body: string, name: string, version: nat, digest: string): string {
    var ls := Split(body);
    Join([ls[0], NameLine(name, version), HASH_MARK + digest] + ls[1..])
  }

  /** renderHook. */
  function Render(body: string, name: string, entry: Entry, hash: string -> string): string {
    MarkedBody(body, name, entry.version, hash(body))
  }

  // ---- Reading back what was rendered -------------------------------------

  lemma NameLineReads(name: string, version: nat)
    requires NameOk(name)
    ensures NoNewline(NameLine(name, version)) && NameMarker(NameLine(name, version)) == Some((name, version))
  {
    hide Decimal.Print, Decimal.Value, IndexOf;
    var digits := Decimal.Print(version);
    NameLineIsOneLine(name, version);
    Decimal.ValuePrint(version);
    NameLineParts(name, digits);
  }

  lemma NameLineParts(name: string, digits: string)
    requires NameOk(name) && Decimal.IsNumeral(digits)
    ensures NameMarker(NAME_MARK + name + " v" + digits) == Some((name, Decimal.Value(digits)))
  {
    hide Decimal.IsNumeral, Decimal.Value, IndexOf;
    var line, rest := NAME_MARK + name + " v" + digits, name + [' '] + ("v" + digits);
    assert line == NAME_MARK + rest;
    assert line[|NAME_MARK|..] == rest;
    IndexOfPrefix(name, ' ', "v" + digits);
    assert rest[..|name|] == name && rest[|name|..] == " v" + digits && rest[|name| + 2..] == digits;
  }

  lemma NameLineIsOneLine(name: string, version: nat)
    requires NameOk(name)
    ensures NoNewline(NameLine(name, version))
  {
    var digits := Decimal.Print(version);
    assert NoNewline(NAME_MARK) && NoNewline(name) && NoNewline(" v");
    assert forall k :: 0 <= k < |digits| ==> Decimal.IsDigit(digits[k]);
    assert NoNewline(digits);
  }

  lemma HashLineReads(digest: string)
    requires IsHexDigest(digest)
    ensures NoNewline(HASH_MARK + digest) && IsHashMarker(HASH_MARK + digest)
  {
    assert (HASH_MARK + digest)[|HASH_MARK|..] == digest;
    assert '\n' !in HASH_MARK && '\n' !in digest;
  }

  /** A line names a hook and a version exactly when it is the mark, the name, ` v` and digits. */
  lemma NameMarkerExactly(line: string, name: string, version: nat)
    ensures NameMarker(line) == Some((name, version)) <==>
            NameOk(name) && exists digits ::
              Decimal.IsNumeral(digits) && Decimal.Value(digits) == version && line == NAME_MARK + name + " v" + digits
  {
    hide Decimal.Value, IndexOf;
    if NameMarker(line) == Some((name, version)) {
      var rest := line[|NAME_MARK|..];
      var k := IndexOf(rest, ' ');
      var digits := rest[k + 2..];
      assert rest == rest[..k] + " v" + digits;
      assert line == NAME_MARK + name + " v" + digits;
    }
    if digits :| NameOk(name) && Decimal.IsNumeral(digits) && Decimal.Value(digits) == version
                 && line == NAME_MARK + name + " v" + digits {
      NameLineParts(name, digits);
    }
  }

  lemma MarkedLines(body: string, name: string, version: nat, digest: string)
    requires NameOk(name) && IsHexDigest(digest)
    ensures
      var ls := Split(body);
      Split(MarkedBody(body, name, version, digest)) == [ls[0], NameLine(name, version), HASH_MARK + digest] + ls[1..]
  {
    hide Split, Join, NameLine;
    var ls := Split(body);
    NameLineReads(name, version);
    HashLineReads(digest);
    SplitJoin([ls[0], NameLine(name, version), HASH_MARK + digest] + ls[1..]);
  }

  /** Whatever stands where the claimed digest should be: it makes a marker block exactly when it is 64
      lower-case hexadecimal digits. */
  lemma DigestMarks(body: string, name: string, version: nat, digest: string)
    requires NameOk(name) && SHEBANG <= body && NoNewline(digest)
    ensures IsMarked(Split(MarkedBody(body, name, version, digest))) <==>
            |digest| == 64 && forall c :: c in digest ==> c in "0123456789abcdef"
  {
    hide Split, Join, NameLine, NameMarker;
    var ls := Split(body);
    NameLineReads(name, version);
    FirstLineStarts(body);
    assert (HASH_MARK + digest)[|HASH_MARK|..] == digest;
    assert NoNewline(HASH_MARK + digest);
    SplitJoin([ls[0], NameLine(name, version), HASH_MARK + digest] + ls[1..]);
    HexDigits();
  }

  lemma HexDigits()
    ensures forall c: char :: c in "0123456789abcdef" <==> '0' <= c <= '9' || 'a' <= c <= 'f'
  {
  }

  lemma FirstLineStarts(body: string)
    ensures SHEBANG <= Split(body)[0] <==> SHEBANG <= body
  {
    var k := IndexOf(body, '\n');
    assert Split(body)[0] == body[..k];
    if SHEBANG <= body {
      assert k < |body| ==> body[k] == '\n';
      assert body[0] == '#' && body[1] == '!';
    }
  }

  /** For every `#!` body, under a marker block of any name, version and claimed digest: another name is
      foreign; with the own name the body's digest decides, the version only between current and
      outdated, and the claimed digest never. */
  lemma MarkedExactly(body: string, slot: string, name: string, version: nat, digest: string, entry: Entry,
                      hash: string -> string)
    requires NameOk(name) && IsHexDigest(digest) && SHEBANG <= body
    ensures
      Classify(MarkedBody(body, name, version, digest), slot, entry, hash) ==
        if name != slot then Foreign
        else if hash(body) == entry.sha256 then (if version == entry.version then ManagedCurrent else ManagedOutdated)
        else if hash(body) in entry.historical then ManagedOutdated
        else ManagedEdited
  {
    hide Split, Join, NameLine, NameMarker, IsHashMarker;
    var ls := Split(body);
    MarkedLines(body, name, version, digest);
    NameLineReads(name, version);
    HashLineReads(digest);
    FirstLineStarts(body);
    JoinSplit(body);
    var all := [ls[0], NameLine(name, version), HASH_MARK + digest] + ls[1..];
    assert all[3..] == ls[1..] && [ls[0]] + ls[1..] == ls;
  }

  /** Content without a marker block is legacy exactly when the manifest lists its digest as historical,
      and foreign otherwise, even when it is the current body. */
  lemma UnmarkedExactly(content: string, slot: string, entry: Entry, hash: string -> string)
    requires !IsMarked(Split(content))
    ensures Classify(content, slot, entry, hash) == if hash(content) in entry.historical then LegacyV0 else Foreign
  {
  }

  /** A body without `#!` is not marked by a marker block. */
  lemma NoShebangNoMark(body: string, name: string, version: nat, digest: string)
    requires NameOk(name) && IsHexDigest(digest) && !(SHEBANG <= body)
    ensures !IsMarked(Split(MarkedBody(body, name, version, digest)))
  {
    hide Split, Join, NameLine, NameMarker, IsHashMarker;
    MarkedLines(body, name, version, digest);
    FirstLineStarts(body);
  }

  /** What was rendered from any entry, read under any entry: a hook of an older release is outdated
      exactly as long as the manifest knows its body, and a current one is current. */
  lemma ClassifyRendered(body: string, name: string, old_: Entry, entry: Entry, hash: string -> string)
    requires NameOk(name) && DigestsOk(hash)
    ensures
      var content := Render(body, name, old_, hash);
      Classify(content, name, entry, hash) ==
        if !(SHEBANG <= body) then (if hash(content) in entry.historical then LegacyV0 else Foreign)
        else if hash(body) == entry.sha256 then
          (if old_.version == entry.version then ManagedCurrent else ManagedOutdated)
        else if hash(body) in entry.historical then ManagedOutdated
        else ManagedEdited
  {
    hide Split, Join, IsMarked, Classify, MarkedBody;
    if SHEBANG <= body {
      MarkedExactly(body, name, name, old_.version, hash(body), entry, hash);
    } else {
      NoShebangNoMark(body, name, old_.version, hash(body));
      UnmarkedExactly(Render(body, name, old_, hash), name, entry, hash);
    }
  }

  /** With a digest that tells texts apart, a current hook is the shipped body under a marker block of
      its own name and version; only the claimed digest is free. */
  lemma CurrentIsShipped(content: string, body: string, name: string, entry: Entry, hash: string -> string)
    requires forall x, y :: hash(x) == hash(y) ==> x == y
    requires entry.sha256 == hash(body) && Classify(content, name, entry, hash) == ManagedCurrent
    ensures
      var ls, shipped := Split(content), Split(body);
      && |ls| >= 3 && NameMarker(ls[1]) == Some((name, entry.version)) && IsHashMarker(ls[2])
      && [ls[0]] + ls[3..] == shipped
  {
    hide Split, Join, NameMarker;
    var ls := Split(content);
    assert |ls| >= 3 by { NoHashMarkerBeyond(ls); }
    var rest := [ls[0]] + ls[3..];
    assert Unmarked(ls) == rest;
    SplitJoin(rest);
  }

  lemma NoHashMarkerBeyond(ls: seq<string>)
    requires IsHashMarker(LineAt(ls, 2))
    ensures |ls| >= 3
  {
  }

  /** What may be replaced without a backup: released content, or the current body under an older marker. */
  lemma ReplaceableIsReleased(content: string, name: string, entry: Entry, hash: string -> string)
    requires Classify(content, name, entry, hash) == ManagedOutdated || Classify(content, name, entry, hash) == LegacyV0
    ensures Released(content, entry, hash)
  {
    hide Split, Join, NameMarker;
  }

  /** The content, or the body under its marker block, is one the manifest knows. */
  ghost predicate Released(content: string, entry: Entry, hash: string -> string) {
    || hash(content) in entry.historical
    || (IsMarked(Split(content)) &&
        var h := hash(Join(Unmarked(Split(content))));
        h == entry.sha256 || h in entry.historical)
  }
}
