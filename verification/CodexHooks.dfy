/**
 Codex's `hooks.json`: recognising the managed handler by its command, and merging
 it into a container that may hold other people's handlers.
 */
module CodexHooks {
  import opened Json
  import opened CodexConfig
  import opened CommandWords

  datatype State = Malformed | ManagedCurrent | ReleasedOutdated | Foreign | Absent

  const MATCHER := "Bash|apply_patch"
  const TIMEOUT := 30

  // ---- Handlers -----------------------------------------------------------

  /** A command handler whose command the pattern `ours` matches. */
  predicate IsOurs(h: Value, ours: string -> bool) {
    && h.Obj? && "type" in h.fields && h.fields["type"] == Str("command")
    && "command" in h.fields && h.fields["command"].Str? && ours(h.fields["command"].s)
  }

  function ManagedHandler(command: string): Value {
    Obj(map["type" := Str("command"), "command" := Str(command), "timeout" := Num(TIMEOUT)])
  }

  function ManagedGroup(command: string): Value {
    Obj(map["matcher" := Str(MATCHER), "hooks" := Arr([ManagedHandler(command)])])
  }

  function ManagedContainer(command: string): Value {
    Obj(map["hooks" := Obj(map[PRE := Arr([ManagedGroup(command)])])])
  }

  predicate IsGroup(g: Value) {
    Has(g, "hooks") && g.fields["hooks"].Arr?
  }

  function Foreigners(hs: seq<Value>, ours: string -> bool): (r: seq<Value>)
    ensures |r| <= |hs|
    ensures |r| == |hs| ==> r == hs
  {
    if hs == [] then []
    else
      assert hs == hs[..|hs| - 1] + [hs[|hs| - 1]];
      Foreigners(hs[..|hs| - 1], ours) + if IsOurs(hs[|hs| - 1], ours) then [] else [hs[|hs| - 1]]
  }

  lemma {:induction false} ForeignersAre(hs: seq<Value>, ours: string -> bool)
    ensures forall h :: h in Foreigners(hs, ours) <==> h in hs && !IsOurs(h, ours)
  {
    hide IsOurs;
    if hs != [] {
      ForeignersAre(hs[..|hs| - 1], ours);
      assert hs == hs[..|hs| - 1] + [hs[|hs| - 1]];
    }
  }

  /** Every handler of every group, in order. */
  function AllHandlers(groups: seq<Value>): seq<Value> {
    if groups == [] then [] else AllHandlers(groups[..|groups| - 1]) + Handlers(groups[|groups| - 1])
  }

  /** The handlers that are objects. */
  function Objects(hs: seq<Value>): (r: seq<Value>)
    ensures forall h :: h in r <==> h in hs && h.Obj?
  {
    if hs == [] then []
    else
      assert hs == hs[..|hs| - 1] + [hs[|hs| - 1]];
      Objects(hs[..|hs| - 1]) + if hs[|hs| - 1].Obj? then [hs[|hs| - 1]] else []
  }

  // ---- Classification -----------------------------------------------------

  /** classifyCodexHooksJson. */
  function Classify(v: Value, expected: string, ours: string -> bool): State {
    if !ValidShape(v) then Malformed
    else
      var handlers := Objects(AllHandlers(Groups(v, PRE)));
      if exists h :: h in handlers && IsOurs(h, ours) && h.fields["command"].s == expected then ManagedCurrent
      else if exists h :: h in handlers && IsOurs(h, ours) then ReleasedOutdated
      else if handlers != [] then Foreign
      else Absent
  }

  /** `h` is a handler of some group of PreToolUse. */
  ghost predicate Stands(v: Value, h: Value) {
    h.Obj? && exists g :: g in Groups(v, PRE) && IsGroup(g) && h in g.fields["hooks"].items
  }

  lemma {:induction false} InSomeGroup(groups: seq<Value>, h: Value)
    ensures h in AllHandlers(groups) <==> exists g :: g in groups && IsGroup(g) && h in g.fields["hooks"].items
  {
    if groups != [] {
      InSomeGroup(groups[..|groups| - 1], h);
      assert groups == groups[..|groups| - 1] + [groups[|groups| - 1]];
    }
  }

  /** A managed handler with this command. */
  predicate Runs(h: Value, command: string) {
    h.Obj? && "type" in h.fields && h.fields["type"] == Str("command")
    && "command" in h.fields && h.fields["command"] == Str(command)
  }

  /** For every container: each of the five states, by the handlers that stand in it. */
  lemma ClassifyExactly(v: Value, expected: string, ours: string -> bool)
    ensures
      var s := Classify(v, expected, ours);
      && (s == Malformed <==> !ValidShape(v))
      && (s == Absent <==> ValidShape(v) && forall h :: !Stands(v, h))
      && (s == Foreign <==>
            ValidShape(v) && (exists h :: Stands(v, h)) && forall h :: Stands(v, h) ==> !IsOurs(h, ours))
      && (s == ManagedCurrent <==> ValidShape(v) && ours(expected) && exists h :: Stands(v, h) && Runs(h, expected))
      && (s == ReleasedOutdated <==>
            && ValidShape(v) && (ours(expected) ==> forall h :: Stands(v, h) ==> !Runs(h, expected))
            && exists h, command :: Stands(v, h) && Runs(h, command) && ours(command))
  {
    hide AllHandlers, Groups, ValidShape, Stands;
    var handlers := Objects(AllHandlers(Groups(v, PRE)));
    forall h ensures h in handlers <==> Stands(v, h) {
      StandsIn(v, h);
    }
    assert handlers != [] ==> handlers[0] in handlers;
    forall h | IsOurs(h, ours) ensures Runs(h, h.fields["command"].s) && ours(h.fields["command"].s) { }
    forall h, command | Runs(h, command) && ours(command) ensures IsOurs(h, ours) { }
  }

  lemma StandsIn(v: Value, h: Value)
    ensures h in Objects(AllHandlers(Groups(v, PRE))) <==> Stands(v, h)
  {
    hide AllHandlers, Groups;
    InSomeGroup(Groups(v, PRE), h);
  }

  // ---- Merging ------------------------------------------------------------

  /** What stays of one group: nothing, when none of its handlers is foreign. */
  function Stripped(g: Value, ours: string -> bool): seq<Value> {
    if !IsGroup(g) then [g]
    else
      var foreign := Foreigners(Handlers(g), ours);
      if foreign == [] then []
      else if |foreign| == |Handlers(g)| then [g]
      else [Obj(g.fields["hooks" := Arr(foreign)])]
  }

  function StrippedAll(groups: seq<Value>, ours: string -> bool): seq<Value> {
    if groups == [] then [] else StrippedAll(groups[..|groups| - 1], ours) + Stripped(groups[|groups| - 1], ours)
  }

  /** A container whose `hooks` is an object. */
  function WithHooks(v: Value): Value
    requires v.Obj?
  {
    if Has(v, "hooks") && v.fields["hooks"].Obj? then v else Obj(v.fields["hooks" := Obj(map[])])
  }

  function WithEvents(v: Value, groups: seq<Value>): Value
    requires v.Obj? && Has(v, "hooks") && v.fields["hooks"].Obj?
  {
    Obj(v.fields["hooks" := Obj(v.fields["hooks"].fields[PRE := Arr(groups)])])
  }

  function Merged(v: Value, expected: string, ours: string -> bool): Value {
    if !v.Obj? then ManagedContainer(expected)
    else
      var w := WithHooks(v);
      WithEvents(w, StrippedAll(Groups(w, PRE), ours) + [ManagedGroup(expected)])
  }

  /** mergeCodexHooks. */
  method MergeCodexHooks(existing: Value, expected: string, ours: string -> bool) returns (r: Value)
    ensures r == Merged(existing, expected, ours)
  {
    hide Foreigners, ManagedGroup;
    if !existing.Obj? { return ManagedContainer(expected); }
    var container := WithHooks(existing);
    var groups := Groups(container, PRE);
    var kept: seq<Value> := [];
    assert groups[..0] == [];
    for i := 0 to |groups|
      invariant kept == StrippedAll(groups[..i], ours)
    {
      assert groups[..i + 1][..i] == groups[..i];
      var group := groups[i];
      if !IsGroup(group) {
        kept := kept + [group];
        continue;
      }
      var foreign := Foreigners(Handlers(group), ours);
      if |foreign| == 0 { continue; }
      if |foreign| == |Handlers(group)| {
        kept := kept + [group];
        continue;
      }
      kept := kept + [Obj(group.fields["hooks" := Arr(foreign)])];
    }
    assert groups[..|groups|] == groups;
    return WithEvents(container, kept + [ManagedGroup(expected)]);
  }

  // ---- What a merge means -------------------------------------------------

  /** A group goes exactly when it is one and all of its handlers are ours: so does a group of somebody
      else's that has none.  Any other keeps its foreign handlers, and itself unless ours were removed. */
  lemma GroupSurvives(g: Value, ours: string -> bool)
    ensures Stripped(g, ours) == [] <==> IsGroup(g) && forall h :: h in Handlers(g) ==> IsOurs(h, ours)
    ensures IsGroup(g) && Handlers(g) == [] ==> Stripped(g, ours) == []
    ensures Stripped(g, ours) == [g] <==>
            !IsGroup(g) || (Handlers(g) != [] && forall h :: h in Handlers(g) ==> !IsOurs(h, ours))
  {
    hide Foreigners, IsOurs;
    if IsGroup(g) {
      var foreign := Foreigners(Handlers(g), ours);
      ForeignersAre(Handlers(g), ours);
      if foreign == [] {
        assert forall h :: h in Handlers(g) ==> IsOurs(h, ours) || h in foreign;
      } else {
        assert foreign[0] in foreign;
      }
      if forall h :: h in Handlers(g) ==> !IsOurs(h, ours) { NoneOurs(Handlers(g), ours); }
    }
  }

  /** What stays of a group differs from it in its handlers alone, and those are its foreign ones. */
  lemma GroupKeepsFields(g: Value, r: Value, ours: string -> bool)
    requires r in Stripped(g, ours)
    ensures Stripped(g, ours) == [r] && Handlers(r) == Foreigners(Handlers(g), ours)
    ensures r == g || (g.Obj? && r.Obj? && g.fields - {"hooks"} == r.fields - {"hooks"} && IsGroup(r))
  {
    hide Foreigners, IsOurs;
  }

  /** A merge into any object, valid or not, keeps what it has beside `hooks`, and in `hooks`, where that
      is an object, all other events. */
  lemma MergeKeepsFields(v: Value, expected: string, ours: string -> bool)
    requires v.Obj?
    ensures
      var w := Merged(v, expected, ours);
      && w.Obj? && w.fields - {"hooks"} == v.fields - {"hooks"} && Has(w, "hooks") && w.fields["hooks"].Obj?
      && w.fields["hooks"].fields - {PRE} ==
         (if Has(v, "hooks") && v.fields["hooks"].Obj? then v.fields["hooks"].fields - {PRE} else map[])
  {
    hide StrippedAll, ManagedGroup, Groups;
  }

  lemma StrippedAgain(g: Value, ours: string -> bool)
    ensures forall r :: r in Stripped(g, ours) ==> Stripped(r, ours) == [r]
    ensures AllHandlers(Stripped(g, ours)) == Foreigners(Handlers(g), ours)
  {
    hide Foreigners, AllHandlers, IsOurs;
    OneGroup(g);
    if IsGroup(g) {
      var foreign := Foreigners(Handlers(g), ours);
      ForeignersAre(Handlers(g), ours);
      NoneOurs(foreign, ours);
      OneGroup(Obj(g.fields["hooks" := Arr(foreign)]));
      NoGroups(ours);
    } else {
      NoGroups(ours);
    }
  }

  lemma OneGroup(g: Value)
    ensures AllHandlers([g]) == Handlers(g)
  {
    assert [g][..0] == [];
  }

  lemma {:induction false} NoneOurs(hs: seq<Value>, ours: string -> bool)
    requires forall h :: h in hs ==> !IsOurs(h, ours)
    ensures Foreigners(hs, ours) == hs
  {
    hide IsOurs;
    if hs != [] {
      NoneOurs(hs[..|hs| - 1], ours);
      assert hs == hs[..|hs| - 1] + [hs[|hs| - 1]];
    }
  }

  lemma {:induction false} AllHandlersConcat(a: seq<Value>, b: seq<Value>)
    ensures AllHandlers(a + b) == AllHandlers(a) + AllHandlers(b)
  {
    hide Handlers;
    if b == [] {
      assert a + b == a;
    } else {
      AllHandlersConcat(a, b[..|b| - 1]);
      assert (a + b)[..|a + b| - 1] == a + b[..|b| - 1];
    }
  }

  lemma {:induction false} ForeignersConcat(a: seq<Value>, b: seq<Value>, ours: string -> bool)
    ensures Foreigners(a + b, ours) == Foreigners(a, ours) + Foreigners(b, ours)
  {
    hide IsOurs;
    if b == [] {
      assert a + b == a;
    } else {
      ForeignersConcat(a, b[..|b| - 1], ours);
      assert (a + b)[..|a + b| - 1] == a + b[..|b| - 1];
    }
  }

  lemma {:induction false} StrippedAllConcat(a: seq<Value>, b: seq<Value>, ours: string -> bool)
    ensures StrippedAll(a + b, ours) == StrippedAll(a, ours) + StrippedAll(b, ours)
  {
    hide Stripped;
    if b == [] {
      assert a + b == a;
    } else {
      StrippedAllConcat(a, b[..|b| - 1], ours);
      assert (a + b)[..|a + b| - 1] == a + b[..|b| - 1];
    }
  }

  /** Stripping keeps every foreign handler, in order, and nothing else; doing it again changes nothing. */
  lemma {:induction false} StrippedAllMeans(groups: seq<Value>, ours: string -> bool)
    ensures AllHandlers(StrippedAll(groups, ours)) == Foreigners(AllHandlers(groups), ours)
    ensures StrippedAll(StrippedAll(groups, ours), ours) == StrippedAll(groups, ours)
    ensures forall r :: r in StrippedAll(groups, ours) ==> Stripped(r, ours) == [r]
  {
    hide Stripped, Foreigners, Handlers;
    if groups == [] {
      NoGroups(ours);
    } else {
      var front, g := groups[..|groups| - 1], groups[|groups| - 1];
      var s, t := StrippedAll(front, ours), Stripped(g, ours);
      StrippedAllMeans(front, ours);
      StrippedAgain(g, ours);
      AllHandlersConcat(s, t);
      ForeignersConcat(AllHandlers(front), Handlers(g), ours);
      AllStill(s + t, ours);
    }
  }

  lemma NoGroups(ours: string -> bool)
    ensures StrippedAll([], ours) == [] && AllHandlers([]) == [] && Foreigners([], ours) == []
  {
  }

  lemma {:induction false} AllStill(groups: seq<Value>, ours: string -> bool)
    requires forall r :: r in groups ==> Stripped(r, ours) == [r]
    ensures StrippedAll(groups, ours) == groups
  {
    hide Stripped;
    if groups != [] {
      AllStill(groups[..|groups| - 1], ours);
      assert groups == groups[..|groups| - 1] + [groups[|groups| - 1]];
    }
  }

  lemma MergedShape(v: Value, expected: string, ours: string -> bool)
    ensures var w := Merged(v, expected, ours);
            && ValidShape(w) && Has(w, "hooks") && w.fields["hooks"].Obj?
            && Groups(w, PRE) == StrippedAll(Groups(v, PRE), ours) + [ManagedGroup(expected)]
            && (ValidShape(v) ==> SameElsewhere(v, w) && Groups(w, POST) == Groups(v, POST))
  {
    hide ManagedGroup, Stripped;
    NoGroups(ours);
    if !v.Obj? {
      assert Groups(v, PRE) == [];
      assert [] + [ManagedGroup(expected)] == [ManagedGroup(expected)];
    } else if !(Has(v, "hooks") && v.fields["hooks"].Obj?) {
      assert Groups(v, PRE) == [];
    }
  }

  /** For every container, valid or not: a merge appends one handler after exactly the foreign
      handlers, in their order, and leaves a valid container equal outside PreToolUse. */
  lemma MergeKeepsForeign(v: Value, expected: string, ours: string -> bool)
    ensures
      var w := Merged(v, expected, ours);
      && AllHandlers(Groups(w, PRE)) == Foreigners(AllHandlers(Groups(v, PRE)), ours) + [ManagedHandler(expected)]
      && ValidShape(w) && (ValidShape(v) ==> SameElsewhere(v, w) && Groups(w, POST) == Groups(v, POST))
  {
    hide ManagedHandler, Foreigners, Merged, Stripped, SameElsewhere;
    MergedShape(v, expected, ours);
    var s := StrippedAll(Groups(v, PRE), ours);
    StrippedAllMeans(Groups(v, PRE), ours);
    AllHandlersConcat(s, [ManagedGroup(expected)]);
    OneGroup(ManagedGroup(expected));
  }

  /** A merged container is current exactly when the pattern recognises the expected command;
      otherwise the handler just written counts as somebody else's. */
  lemma MergeIsCurrent(v: Value, expected: string, ours: string -> bool)
    ensures Classify(Merged(v, expected, ours), expected, ours) == if ours(expected) then ManagedCurrent else Foreign
  {
    hide Merged, AllHandlers, Groups, Objects, ManagedHandler, IsOurs, Foreigners;
    MergeKeepsForeign(v, expected, ours);
    var foreign := Foreigners(AllHandlers(Groups(v, PRE)), ours);
    ForeignersAre(AllHandlers(Groups(v, PRE)), ours);
    ManagedIsOurs(expected, ours);
    LastObject(foreign, ManagedHandler(expected));
  }

  lemma ManagedIsOurs(expected: string, ours: string -> bool)
    ensures var h := ManagedHandler(expected);
            && h.Obj? && (IsOurs(h, ours) <==> ours(expected))
            && "command" in h.fields && h.fields["command"] == Str(expected)
            && h.fields - {"command"} == map["type" := Str("command"), "timeout" := Num(30)]
  {
  }

  lemma LastObject(hs: seq<Value>, h: Value)
    requires h.Obj?
    ensures forall x :: x in Objects(hs + [h]) ==> x in hs || x == h
    ensures h in Objects(hs + [h])
  {
    assert (hs + [h])[|hs|] == h;
  }

  /** Merging twice is merging once exactly under the same condition; else every merge adds a group. */
  lemma MergeAgain(v: Value, expected: string, ours: string -> bool)
    ensures
      var w := Merged(v, expected, ours);
      var u := Merged(w, expected, ours);
      && (u == w <==> ours(expected))
      && (!ours(expected) ==> Groups(u, PRE) == Groups(w, PRE) + [ManagedGroup(expected)])
  {
    hide Stripped, StrippedAll, ManagedGroup, SameElsewhere, Merged;
    var w, m := Merged(v, expected, ours), ManagedGroup(expected);
    var s := StrippedAll(Groups(v, PRE), ours);
    MergedShape(v, expected, ours);
    MergedShape(w, expected, ours);
    StrippedAllMeans(Groups(v, PRE), ours);
    StrippedAllConcat(s, [m], ours);
    StrippedManaged(expected, ours);
    if ours(expected) { SameEvents(w, expected, ours); }
  }

  lemma StrippedManaged(expected: string, ours: string -> bool)
    ensures StrippedAll([ManagedGroup(expected)], ours) == if ours(expected) then [] else [ManagedGroup(expected)]
  {
    var m, h := ManagedGroup(expected), ManagedHandler(expected);
    assert [m][..0] == [] && [h][..0] == [];
    assert Handlers(m) == [h];
    assert Foreigners([h], ours) == Foreigners([], ours) + if IsOurs(h, ours) then [] else [h];
  }

  lemma SameEvents(w: Value, expected: string, ours: string -> bool)
    requires ValidShape(w) && Has(w, "hooks") && w.fields["hooks"].Obj? && PRE in w.fields["hooks"].fields
    requires Groups(w, PRE) == StrippedAll(Groups(w, PRE), ours) + [ManagedGroup(expected)]
    ensures Merged(w, expected, ours) == w
  {
    hide StrippedAll, ManagedGroup;
    var hooks := w.fields["hooks"].fields;
    assert hooks[PRE := Arr(Groups(w, PRE))] == hooks;
    assert w.fields["hooks" := Obj(hooks)] == w.fields;
  }

  // ---- The command pattern ------------------------------------------------

  const NODE := "node"
  const ASSET := "javi-forge-skillguard-pre-tool-use.mjs"
  const ARG := "--agent=codex"

  /** One way the pattern can match: `node` at `i`, the path's last token at `j`, the asset's name
      at `k`, the argument at `l`. */
  predicate MatchesAt(s: string, i: nat, j: nat, k: nat, l: nat) {
    && OccursAt(s, NODE, i) && (i == 0 || IsSpace(s[i - 1]))
    && i + |NODE| < j <= k <= |s| && AllSpace(s[i + |NODE|..j]) && NoSpace(s[j..k])
    && OccursAt(s, ASSET, k)
    && k + |ASSET| < l <= |s| && AllSpace(s[k + |ASSET|..l])
    && OccursAt(s, ARG, l) && (l + |ARG| == |s| || IsSpace(s[l + |ARG|]))
  }

  ghost predicate Recognised(s: string) {
    exists i: nat, j: nat, k: nat, l: nat :: MatchesAt(s, i, j, k, l)
  }

  /** expectedCodexCommand for the asset in a directory. */
  function Command(dir: string): string {
    NODE + " " + dir + "/" + ASSET + " " + ARG
  }

  lemma Visible(s: string)
    requires forall i :: 0 <= i < |s| ==> '!' <= s[i] <= '~'
    ensures NoSpace(s)
  {
  }

  lemma NoSpaceInNames()
    ensures NoSpace(NODE) && NoSpace(ASSET) && NoSpace(ARG) && NoSpace("/" + ASSET)
  {
    hide NoSpace;
    Visible(NODE);
    Visible(ASSET);
    Visible(ARG);
    Visible("/" + ASSET);
  }

  /** Words `n`, `n + 1` and `n + 2` are what the pattern looks for. */
  predicate Triple(ws: seq<string>, n: nat) {
    n + 2 < |ws| && ws[n] == NODE && EndsWith(ws[n + 1], ASSET) && ws[n + 2] == ARG
  }

  lemma MatchIsTriple(s: string, i: nat, j: nat, k: nat, l: nat)
    requires MatchesAt(s, i, j, k, l)
    ensures Triple(Words(s), |Words(s[..i])|)
  {
    hide IsSpace, Words, AllSpace, NoSpace;
    NoSpaceInNames();
    SumOfCuts(s, i, i + |NODE|, j, k + |ASSET|, l, l + |ARG|);
    TakeMore(s[j..], k - j, k - j + |ASSET|);
    var pre, gap, word, gap', post := s[..i], s[i + |NODE|..j], s[j..k] + ASSET, s[k + |ASSET|..l], s[l + |ARG|..];
    assert word == s[j..k + |ASSET|] && word[|word| - |ASSET|..] == ASSET;
    JoinedNoSpace(s[j..k], ASSET);
    ThreeWords(pre, NODE, gap, word, gap', ARG, post);
  }

  lemma JoinedNoSpace(a: string, b: string)
    requires NoSpace(a) && NoSpace(b)
    ensures NoSpace(a + b)
  {
    hide IsSpace;
  }

  lemma TripleIsMatch(s: string, n: nat)
    requires Triple(Words(s), n)
    ensures Recognised(s)
  {
    hide IsSpace, Words;
    NoSpaceInNames();
    var ws := Words(s);
    var a, b := WordAt(s, n);
    assert Words(b) == ws[n + 1..];
    var gap, c := WordAt(b, 0);
    assert Words(c) == ws[n + 2..];
    var gap', d := WordAt(c, 0);
    NoWords(gap);
    NoWords(gap');
    var stem := ws[n + 1][..|ws[n + 1]| - |ASSET|];
    assert ws[n + 1] == stem + ASSET;
    Regroup(s, a, b, gap, stem, c, gap', d);
    Assemble(a, gap, stem, gap', d);
  }

  lemma Regroup(s: string, a: string, b: string, gap: string, stem: string, c: string, gap': string, d: string)
    requires s == a + NODE + b && b == gap + (stem + ASSET) + c && c == gap' + ARG + d
    ensures s == a + NODE + gap + stem + ASSET + gap' + ARG + d
  {
  }

  lemma Assemble(a: string, gap: string, stem: string, gap': string, d: string)
    requires gap != "" && gap' != "" && AllSpace(gap) && AllSpace(gap') && NoSpace(stem)
    requires (a == "" || IsSpace(a[|a| - 1])) && (d == "" || IsSpace(d[0]))
    ensures Recognised(a + NODE + gap + stem + ASSET + gap' + ARG + d)
  {
    hide IsSpace, NoSpace, AllSpace;
    var s := a + NODE + gap + stem + ASSET + gap' + ARG + d;
    Pieces(a, NODE, gap, stem, ASSET, gap', ARG, d);
    var i := |a|;
    var j := i + |NODE| + |gap|;
    var k := j + |stem|;
    assert a != "" ==> s[i - 1] == s[..i][i - 1];
    var l := k + |ASSET| + |gap'|;
    assert d != "" ==> s[l + |ARG|] == s[l + |ARG|..][0];
    assert MatchesAt(s, i, j, k, l);
  }

  /** The pattern in terms of words: three of them in a row. */
  lemma RecognisedByWords(s: string)
    ensures Recognised(s) <==> exists n: nat :: Triple(Words(s), n)
  {
    hide MatchesAt, Words, Triple;
    if i: nat, j: nat, k: nat, l: nat :| MatchesAt(s, i, j, k, l) { MatchIsTriple(s, i, j, k, l); }
    if n: nat :| Triple(Words(s), n) { TripleIsMatch(s, n); }
  }

  // ---- Which paths converge -----------------------------------------------

  /** The words of the asset's path in `dir`. */
  function PathWords(dir: string): seq<string> {
    Words(dir + "/" + ASSET)
  }

  /** The path is one word, or happens to hold what the pattern looks for: `node` as the last word but
      one, or the asset's name and the argument among its words, in front or after another `node`. */
  ghost predicate PathOk(ws: seq<string>) {
    || |ws| == 1
    || (|ws| >= 2 && ws[|ws| - 2] == NODE)
    || (|ws| >= 2 && EndsWith(ws[0], ASSET) && ws[1] == ARG)
    || exists n: nat :: Triple(ws, n)
  }

  lemma WordsOfCommand(dir: string)
    ensures Words(Command(dir)) == [NODE] + PathWords(dir) + [ARG]
    ensures var ws := PathWords(dir); ws != [] && EndsWith(ws[|ws| - 1], ASSET)
  {
    hide Words, EndsWith;
    NoSpaceInNames();
    var path := dir + "/" + ASSET;
    LastWord(dir + "/", ASSET);
    assert dir + "/" + ASSET == path;
    assert Command(dir) == NODE + " " + path + " " + ARG;
    NoWords(" ");
    OneWord(NODE);
    OneWord(ARG);
    WordsConcat(NODE, " ");
    WordsConcat(NODE + " ", path);
    WordsConcat(NODE + " " + path, " ");
    WordsConcat(NODE + " " + path + " ", ARG);
    assert [NODE] + [] + PathWords(dir) + [] + [ARG] == [NODE] + PathWords(dir) + [ARG];
  }

  lemma TriplesOfCommand(ws: seq<string>)
    requires ws != [] && EndsWith(ws[|ws| - 1], ASSET)
    ensures (exists n: nat :: Triple([NODE] + ws + [ARG], n)) <==> PathOk(ws)
  {
    hide EndsWith;
    var all, m := [NODE] + ws + [ARG], |ws|;
    assert forall n :: 1 <= n <= m ==> all[n] == ws[n - 1];
    assert all[0] == NODE && all[m + 1] == ARG;
    if n: nat :| Triple(all, n) {
      assert 1 <= n < m - 1 ==> Triple(ws, n - 1);
    }
    if m == 1 || (EndsWith(ws[0], ASSET) && m >= 2 && ws[1] == ARG) {
      assert Triple(all, 0);
    } else if m >= 2 && ws[m - 2] == NODE {
      assert Triple(all, m - 1);
    } else if n: nat :| Triple(ws, n) {
      assert Triple(all, n + 1);
    }
  }

  /** For every directory: the pattern recognises the installed command exactly on these paths. */
  lemma RecognisedExactly(dir: string)
    ensures Recognised(Command(dir)) <==> PathOk(PathWords(dir))
  {
    hide Recognised, PathOk, Words, Triple, EndsWith;
    WordsOfCommand(dir);
    RecognisedByWords(Command(dir));
    TriplesOfCommand(PathWords(dir));
  }

  ghost function Pattern(): string -> bool {
    s => Recognised(s)
  }

  /** With the source's own pattern, for every container and directory: on these paths an install is
      current and stable; on all others the handler just written counts as foreign and every further
      install adds another copy of its group. */
  lemma InstallConvergesExactly(v: Value, dir: string)
    ensures
      var cmd, ours := Command(dir), Pattern();
      var w := Merged(v, cmd, ours);
      if PathOk(PathWords(dir)) then Classify(w, cmd, ours) == ManagedCurrent && Merged(w, cmd, ours) == w
      else
        && Classify(w, cmd, ours) == Foreign
        && Groups(Merged(w, cmd, ours), PRE) == Groups(w, PRE) + [ManagedGroup(cmd)]
  {
    hide Merged, Classify, Groups, PathOk, Recognised, Words;
    RecognisedExactly(dir);
    MergeIsCurrent(v, Command(dir), Pattern());
    MergeAgain(v, Command(dir), Pattern());
  }

  /** A path without white space is one word. */
  lemma PlainPathConverges(dir: string)
    requires NoSpace(dir)
    ensures PathOk(PathWords(dir))
  {
    hide Words, IsSpace;
    NoSpaceInNames();
    JoinedNoSpace(dir, "/" + ASSET);
    assert dir + ("/" + ASSET) == dir + "/" + ASSET;
    OneWord(dir + "/" + ASSET);
  }

  /** A path with white space inside it, any amount of it, diverges if none of its words is `node` or
      the argument. */
  lemma SpacedPathDiverges(p: string, blank: char, q: string)
    requires IsSpace(blank) && !AllSpace(p)
    requires NODE !in PathWords(p + [blank] + q) && ARG !in PathWords(p + [blank] + q)
    ensures |PathWords(p + [blank] + q)| >= 2 && !PathOk(PathWords(p + [blank] + q))
  {
    hide Words, IsSpace, EndsWith;
    var rest := q + "/" + ASSET;
    assert p + [blank] + q + "/" + ASSET == p + ([blank] + rest);
    WordsConcat(p, [blank] + rest);
    NoWords(p);
    NoSpaceInNames();
    LastWord([blank] + q + "/", ASSET);
    assert [blank] + q + "/" + ASSET == [blank] + rest;
  }
}
