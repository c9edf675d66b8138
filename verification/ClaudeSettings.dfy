/**
 Recognition of the managed hook in a Claude settings container, the plan to
 install, replace or migrate it, and the application of the plan.
 */
module ClaudeSettings {
  import opened Wrappers
  import opened Json

  const STATUS_PREFIX := "javi-forge-global-pretooluse:v1:sha256:"
  const PLACEHOLDER := "<ASSET_SHA256>"
  const MATCHER := "Bash|PowerShell|Read|Write|Edit"
  const ASSET_ARG := "${CLAUDE_PROJECT_DIR}/.claude/hooks/javi-forge-skillguard-pre-tool-use.mjs"
  const AGENT_ARG := "--agent=claude"
  const TIMEOUT := 30

  /** The four legacy objects: three under PreToolUse, one under PostToolUse. */
  datatype Cohort = Cohort(l1: Value, l2: Value, l3: Value, l4: Value)

  predicate CohortOk(c: Cohort) {
    c.l1 != c.l2 && c.l1 != c.l3 && c.l2 != c.l3
  }

  datatype State =
    | Absent | ManagedCurrent | ReleasedOutdated | ExactLegacy | EditedManaged
    | Foreign | Symlink | NonRegular | Malformed

  /** What is hashed for a settings entry; the digest is taken to be injective on it. */
  datatype Canon = Canon(
    matcher: Option<Value>, kind: Option<Value>, command: Option<Value>,
    args: Option<Value>, timeout: Option<Value>, status: string)

  datatype Identities = Identities(current: Option<Canon>, historical: seq<Canon>)

  datatype Position = Position(group: nat, handler: nat)

  datatype Classification = Classification(state: State, at: Option<Position>)

  // ---- Canonical identity -------------------------------------------------

  predicate IsToken(s: string) {
    |s| == 64 && forall k :: 0 <= k < 64 ==> '0' <= s[k] <= '9' || 'a' <= s[k] <= 'f'
  }

  function Lookup(v: Value, key: string): Option<Value> {
    if Has(v, key) then Some(v.fields[key]) else None
  }

  function NormalizeStatus(v: Option<Value>): string {
    if v.None? || !v.value.Str? then ""
    else
      var s := v.value.s;
      if !(STATUS_PREFIX <= s) then s
      else if IsToken(s[|STATUS_PREFIX|..]) then STATUS_PREFIX + PLACEHOLDER
      else s
  }

  function Canonical(group: Value, handler: Value): Canon {
    Canon(Lookup(group, "matcher"), Lookup(handler, "type"), Lookup(handler, "command"),
          Lookup(handler, "args"), Lookup(handler, "timeout"), NormalizeStatus(Lookup(handler, "statusMessage")))
  }

  // ---- Markers ------------------------------------------------------------

  predicate IsMarked(handler: Value) {
    Has(handler, "statusMessage") && handler.fields["statusMessage"].Str?
    && STATUS_PREFIX <= handler.fields["statusMessage"].s
  }

  predicate MarkedAt(groups: seq<Value>, p: Position) {
    p.group < |groups| && p.handler < |Handlers(groups[p.group])| && IsMarked(Handlers(groups[p.group])[p.handler])
  }

  /** The marked handlers of group `g` from handler `h` on. */
  function MarkersIn(groups: seq<Value>, g: nat, h: nat): seq<Position>
    requires g < |groups| && h <= |Handlers(groups[g])|
    decreases |Handlers(groups[g])| - h
  {
    if h == |Handlers(groups[g])| then []
    else (if MarkedAt(groups, Position(g, h)) then [Position(g, h)] else []) + MarkersIn(groups, g, h + 1)
  }

  function Markers(groups: seq<Value>, g: nat): seq<Position>
    requires g <= |groups|
    decreases |groups| - g
  {
    if g == |groups| then [] else MarkersIn(groups, g, 0) + Markers(groups, g + 1)
  }

  method FindManagedMarkers(groups: seq<Value>) returns (markers: seq<Position>)
    ensures markers == Markers(groups, 0)
  {
    hide MarkedAt, Handlers;
    markers := [];
    var g := 0;
    while g < |groups|
      invariant 0 <= g <= |groups|
      invariant markers + Markers(groups, g) == Markers(groups, 0)
    {
      ghost var before := markers;
      var handlers := Handlers(groups[g]);
      var h := 0;
      while h < |handlers|
        invariant 0 <= h <= |handlers|
        invariant markers + MarkersIn(groups, g, h) == before + MarkersIn(groups, g, 0)
      {
        ghost var rest := MarkersIn(groups, g, h + 1);
        ghost var here := if MarkedAt(groups, Position(g, h)) then [Position(g, h)] else [];
        assert markers + (here + rest) == (markers + here) + rest;
        if MarkedAt(groups, Position(g, h)) {
          markers := markers + [Position(g, h)];
        }
        h := h + 1;
      }
      ghost var here, later := MarkersIn(groups, g, 0), Markers(groups, g + 1);
      assert before + (here + later) == before + here + later;
      g := g + 1;
    }
  }

  lemma MarkersInAre(groups: seq<Value>, g: nat, h: nat, p: Position)
    requires g < |groups| && h <= |Handlers(groups[g])|
    ensures p in MarkersIn(groups, g, h) <==> p.group == g && h <= p.handler && MarkedAt(groups, p)
    decreases |Handlers(groups[g])| - h
  {
    hide IsMarked, Handlers;
    if h < |Handlers(groups[g])| { MarkersInAre(groups, g, h + 1, p); }
  }

  lemma MarkersAre(groups: seq<Value>, g: nat, p: Position)
    requires g <= |groups|
    ensures p in Markers(groups, g) <==> g <= p.group && MarkedAt(groups, p)
    decreases |groups| - g
  {
    hide IsMarked, Handlers, MarkersIn;
    if g < |groups| {
      MarkersInAre(groups, g, 0, p);
      MarkersAre(groups, g + 1, p);
    }
  }

  lemma NoMarkersIn(groups: seq<Value>, g: nat, h: nat)
    requires g < |groups| && h <= |Handlers(groups[g])|
    requires forall k :: h <= k ==> !MarkedAt(groups, Position(g, k))
    ensures MarkersIn(groups, g, h) == []
    decreases |Handlers(groups[g])| - h
  {
    hide MarkedAt, Handlers;
    if h < |Handlers(groups[g])| {
      assert !MarkedAt(groups, Position(g, h));
      NoMarkersIn(groups, g, h + 1);
    }
  }

  lemma OneMarkerIn(groups: seq<Value>, p: Position, h: nat)
    requires MarkedAt(groups, p) && h <= p.handler
    requires forall k :: h <= k && k != p.handler ==> !MarkedAt(groups, Position(p.group, k))
    ensures h <= |Handlers(groups[p.group])| && MarkersIn(groups, p.group, h) == [p]
    decreases p.handler - h
  {
    hide IsMarked, Handlers;
    if h < p.handler {
      assert !MarkedAt(groups, Position(p.group, h));
      OneMarkerIn(groups, p, h + 1);
    } else {
      NoMarkersIn(groups, p.group, h + 1);
    }
  }

  lemma NoMarkers(groups: seq<Value>, g: nat)
    requires g <= |groups| && forall p: Position :: g <= p.group ==> !MarkedAt(groups, p)
    ensures Markers(groups, g) == []
    decreases |groups| - g
  {
    hide MarkedAt, Handlers, MarkersIn;
    if g < |groups| {
      NoMarkersIn(groups, g, 0);
      NoMarkers(groups, g + 1);
    }
  }

  /** A container with exactly one marked handler has exactly that marker. */
  lemma OneMarker(groups: seq<Value>, p: Position, g: nat)
    requires MarkedAt(groups, p) && g <= p.group
    requires forall q: Position :: g <= q.group && q != p ==> !MarkedAt(groups, q)
    ensures g <= |groups| && Markers(groups, g) == [p]
    decreases p.group - g
  {
    hide IsMarked, Handlers, MarkersIn;
    if g < p.group {
      NoMarkersIn(groups, g, 0);
      OneMarker(groups, p, g + 1);
    } else {
      OneMarkerIn(groups, p, 0);
      NoMarkers(groups, g + 1);
    }
  }

  // ---- Classification -----------------------------------------------------

  function CountEqual(target: Value, list: seq<Value>): nat {
    if list == [] then 0
    else CountEqual(target, list[..|list| - 1]) + (if DeepEqual(target, list[|list| - 1]) then 1 else 0)
  }

  method CountDeepMatches(target: Value, list: seq<Value>) returns (count: nat)
    ensures count == CountEqual(target, list)
    ensures count == multiset(list)[target]
  {
    count := 0;
    var k := 0;
    while k < |list|
      invariant 0 <= k <= |list| && count == CountEqual(target, list[..k]) == multiset(list[..k])[target]
    {
      DeepEqualIsEquality(target, list[k]);
      assert list[..k + 1] == list[..k] + [list[k]];
      if DeepEqual(target, list[k]) { count := count + 1; }
      k := k + 1;
    }
    assert list[..k] == list;
  }

  lemma CountEqualCounts(target: Value, list: seq<Value>)
    ensures CountEqual(target, list) == multiset(list)[target]
  {
    if list != [] {
      var n := |list| - 1;
      CountEqualCounts(target, list[..n]);
      DeepEqualIsEquality(target, list[n]);
      assert list == list[..n] + [list[n]];
    }
  }

  function HandlerCount(groups: seq<Value>): nat {
    if groups == [] then 0 else HandlerCount(groups[..|groups| - 1]) + |Handlers(groups[|groups| - 1])|
  }

  function ClassifyLegacy(v: Value, c: Cohort): State {
    var pre, post := Groups(v, PRE), Groups(v, POST);
    var n1, n2, n3, n4 := CountEqual(c.l1, pre), CountEqual(c.l2, pre), CountEqual(c.l3, pre), CountEqual(c.l4, post);
    if n1 == 1 && n2 == 1 && n3 == 1 && n4 == 1 then ExactLegacy
    else if n1 >= 1 || n2 >= 1 || n3 >= 1 || n4 >= 1 then Foreign
    else if HandlerCount(pre) > 0 then Foreign
    else Absent
  }

  predicate ValidGroup(group: Value) {
    Has(group, "matcher") && group.fields["matcher"].Str? && Has(group, "hooks") && group.fields["hooks"].Arr?
  }

  function Classify(v: Value, ids: Identities, c: Cohort): (r: Classification)
    ensures r.at.Some? ==> ValidShape(v) && MarkedAt(Groups(v, PRE), r.at.value)
    ensures r.at.Some? ==> ValidGroup(Groups(v, PRE)[r.at.value.group])
    ensures r.state == ReleasedOutdated || r.state == ManagedCurrent ==> r.at.Some?
  {
    if !ValidShape(v) then Classification(Malformed, None)
    else
      var groups := Groups(v, PRE);
      var markers := Markers(groups, 0);
      if |markers| > 1 then Classification(EditedManaged, None)
      else if |markers| == 0 then Classification(ClassifyLegacy(v, c), None)
      else MarkersAre(groups, 0, markers[0]); ClassifyMarked(groups, markers[0], ids)
  }

  function ClassifyMarked(groups: seq<Value>, p: Position, ids: Identities): Classification
    requires MarkedAt(groups, p)
  {
    if !ValidGroup(groups[p.group]) then Classification(EditedManaged, None)
    else
      var canon := Canonical(groups[p.group], Handlers(groups[p.group])[p.handler]);
      if ids.current == Some(canon) then Classification(ManagedCurrent, Some(p))
      else if canon in ids.historical then Classification(ReleasedOutdated, Some(p))
      else Classification(EditedManaged, Some(p))
  }

  // ---- What the classification sees ---------------------------------------

  /** A status is normalised exactly when it is the prefix and a digest; other texts stay. */
  lemma StatusExactly(s: string)
    ensures NormalizeStatus(Some(Str(s))) ==
            if exists t :: IsToken(t) && s == STATUS_PREFIX + t then STATUS_PREFIX + PLACEHOLDER else s
  {
    if t :| IsToken(t) && s == STATUS_PREFIX + t { assert s[|STATUS_PREFIX|..] == t; }
    if STATUS_PREFIX <= s { assert s == STATUS_PREFIX + s[|STATUS_PREFIX|..]; }
  }

  /** Two handlers have one identity exactly when matcher, type, command, arguments and timeout are
      equal, or equally missing, and the statuses normalise alike. */
  lemma CanonicalSees(g: Value, h: Value, g': Value, h': Value)
    ensures Canonical(g, h) == Canonical(g', h') <==>
            && Lookup(g, "matcher") == Lookup(g', "matcher")
            && (forall k :: k in ["type", "command", "args", "timeout"] ==> Lookup(h, k) == Lookup(h', k))
            && NormalizeStatus(Lookup(h, "statusMessage")) == NormalizeStatus(Lookup(h', "statusMessage"))
  {
    hide NormalizeStatus, Lookup;
    var keys := ["type", "command", "args", "timeout"];
    assert keys[0] in keys && keys[1] in keys && keys[2] in keys && keys[3] in keys;
  }

  lemma {:induction false} HandlersCounted(groups: seq<Value>)
    ensures HandlerCount(groups) > 0 <==> exists g :: g in groups && Handlers(g) != []
  {
    hide Handlers;
    if groups != [] {
      HandlersCounted(groups[..|groups| - 1]);
      assert groups == groups[..|groups| - 1] + [groups[|groups| - 1]];
    }
  }

  /** Without a marker: legacy when each cohort object is there exactly once, foreign when that fails
      and any of them or any handler is there, and absent otherwise. */
  lemma LegacyExactly(v: Value, c: Cohort)
    ensures
      var pre, post, state := Groups(v, PRE), Groups(v, POST), ClassifyLegacy(v, c);
      var inPre, handled := multiset(pre), exists g :: g in pre && Handlers(g) != [];
      var whole := inPre[c.l1] == 1 && inPre[c.l2] == 1 && inPre[c.l3] == 1 && multiset(post)[c.l4] == 1;
      var part := c.l1 in pre || c.l2 in pre || c.l3 in pre || c.l4 in post || handled;
      state == if whole then ExactLegacy else if part then Foreign else Absent
  {
    hide Handlers, CountEqual, HandlerCount, Groups;
    var pre, post := Groups(v, PRE), Groups(v, POST);
    CountEqualCounts(c.l1, pre);
    CountEqualCounts(c.l2, pre);
    CountEqualCounts(c.l3, pre);
    CountEqualCounts(c.l4, post);
    HandlersCounted(pre);
  }

  /** No marker leaves the legacy question, two or more are an edit, and a single one decides by its
      group and its identity. */
  lemma ClassifyExactly(v: Value, ids: Identities, c: Cohort)
    requires ValidShape(v)
    ensures
      var groups, r := Groups(v, PRE), Classify(v, ids, c);
      && ((forall p: Position :: !MarkedAt(groups, p)) ==> r == Classification(ClassifyLegacy(v, c), None))
      && (forall p: Position, q: Position ::
            MarkedAt(groups, p) && MarkedAt(groups, q) && p != q ==> r == Classification(EditedManaged, None))
      && (forall p: Position ::
            (forall q: Position :: MarkedAt(groups, q) <==> q == p) ==> r == ClassifyMarked(groups, p, ids))
  {
    hide MarkedAt, ClassifyLegacy, Markers, Groups, ClassifyMarked;
    var groups := Groups(v, PRE);
    if forall p: Position :: !MarkedAt(groups, p) { NoMarkers(groups, 0); }
    forall p: Position, q: Position | MarkedAt(groups, p) && MarkedAt(groups, q) && p != q
      ensures |Markers(groups, 0)| > 1
    {
      MarkersAre(groups, 0, p);
      MarkersAre(groups, 0, q);
    }
    forall p: Position | forall q: Position :: MarkedAt(groups, q) <==> q == p
      ensures Classify(v, ids, c) == ClassifyMarked(groups, p, ids)
    {
      assert MarkedAt(groups, p);
      OneMarker(groups, p, 0);
    }
  }

  /** A marked handler in a valid group is current or outdated by the manifest's identities. */
  lemma MarkedExactly(groups: seq<Value>, p: Position, ids: Identities)
    requires MarkedAt(groups, p)
    ensures
      var r, g := ClassifyMarked(groups, p, ids), groups[p.group];
      var canon := Canonical(g, Handlers(g)[p.handler]);
      && (r.state == ManagedCurrent <==> ValidGroup(g) && ids.current == Some(canon))
      && (r.state == ReleasedOutdated <==> ValidGroup(g) && ids.current != Some(canon) && canon in ids.historical)
      && (r.state == EditedManaged <==> !ValidGroup(g) || (ids.current != Some(canon) && canon !in ids.historical))
      && r.at == if ValidGroup(g) then Some(p) else None
  {
  }

  // ---- Plans --------------------------------------------------------------

  /** The file as read: a state decided without a parsed value, or the value. */
  datatype SettingsRead = Unparsed(state: State) | Parsed(value: Value)

  /** What lstat says of the settings path. */
  datatype Stat = NoEntry | Linked | Irregular | StatFailed | Regular

  /** The bounded read of the file. */
  datatype Text = Content(text: string) | Gone | Binary | TooLarge | Unreadable

  /** readSettings; `legacy` is the digest of the whole-file legacy content. */
  function ReadSettings(stat: Stat, text: Text, hash: string -> string, legacy: string, parse: string -> Option<Value>)
    : SettingsRead
  {
    match stat
    case NoEntry => Unparsed(Absent)
    case Linked => Unparsed(Symlink)
    case Irregular => Unparsed(NonRegular)
    case StatFailed => Unparsed(NonRegular)
    case Regular =>
      match text
      case Gone => Unparsed(Absent)
      case Binary => Unparsed(Malformed)
      case TooLarge => Unparsed(Malformed)
      case Unreadable => Unparsed(NonRegular)
      case Content(s) =>
        if hash(s) == legacy then Unparsed(ExactLegacy)
        else if parse(s).Some? then Parsed(parse(s).value)
        else Unparsed(Malformed)
  }

  datatype Plan =
    | Noop
    | Refuse
    | Container
    | Install
    | Replace(at: Position)
    | Excise(pre: seq<nat>, post: seq<nat>, insertAt: int)

  function FirstMatch(target: Value, list: seq<Value>): (k: nat)
    ensures k <= |list|
    ensures k < |list| ==> DeepEqual(target, list[k])
    ensures forall j :: 0 <= j < k ==> !DeepEqual(target, list[j])
  {
    if list == [] || DeepEqual(target, list[0]) then 0 else 1 + FirstMatch(target, list[1..])
  }

  function Sort3(a: nat, b: nat, c: nat): (s: seq<nat>)
    ensures |s| == 3 && s[0] <= s[1] <= s[2]
    ensures forall x :: x in s <==> x == a || x == b || x == c
  {
    var (lo, hi) := if a <= b then (a, b) else (b, a);
    if c <= lo then [c, lo, hi] else if c <= hi then [lo, c, hi] else [lo, hi, c]
  }

  function PlanExcision(v: Value, c: Cohort): Plan {
    if ClassifyLegacy(v, c) != ExactLegacy then Refuse
    else
      var pre, post := Groups(v, PRE), Groups(v, POST);
      Excise(Sort3(FirstMatch(c.l1, pre), FirstMatch(c.l2, pre), FirstMatch(c.l3, pre)),
             [FirstMatch(c.l4, post)], |pre| - 3)
  }

  predicate MatcherExact(group: Value) {
    Lookup(group, "matcher") == Some(Str(MATCHER))
  }

  /** planForceReplace: an edited matcher with sibling handlers is refused even under force. */
  function PlanForceReplace(v: Value, c: Cohort): Plan {
    var cls := Classify(v, Identities(None, []), c);
    if cls.state != EditedManaged || cls.at.None? then Refuse
    else
      var groups := Groups(v, PRE);
      var g := cls.at.value.group;
      if !MatcherExact(groups[g]) && |Handlers(groups[g])| > 1 then Refuse
      else Replace(cls.at.value)
  }

  function Resolve(read: SettingsRead, forced: bool, ids: Identities, c: Cohort): Plan {
    match read
    case Unparsed(state) => if state == Absent || state == ExactLegacy then Container else Refuse
    case Parsed(v) =>
      var cls := Classify(v, ids, c);
      match cls.state
      case Absent => Install
      case ManagedCurrent => Noop
      case ReleasedOutdated => Replace(cls.at.value)
      case ExactLegacy => PlanExcision(v, c)
      case EditedManaged => if forced then PlanForceReplace(v, c) else Refuse
      case _ => Refuse
  }

  // ---- The managed entry --------------------------------------------------

  function ManagedHandler(sha: string): Value {
    Obj(map["type" := Str("command"), "command" := Str("node"), "args" := Arr([Str(ASSET_ARG), Str(AGENT_ARG)]),
            "timeout" := Num(TIMEOUT), "statusMessage" := Str(STATUS_PREFIX + sha)])
  }

  function ManagedGroup(sha: string): Value {
    Obj(map["matcher" := Str(MATCHER), "hooks" := Arr([ManagedHandler(sha)])])
  }

  function ManagedContainer(sha: string): Value {
    Obj(map["hooks" := Obj(map[PRE := Arr([ManagedGroup(sha)])])])
  }

  /** What the writer builds sets just what an identity reads, and the token of its status is taken for any other. */
  lemma ManagedIdentity(sha: string, other: string)
    requires IsToken(sha) && IsToken(other)
    ensures ManagedHandler(sha).fields.Keys == {"type", "command", "args", "timeout", "statusMessage"}
    ensures ManagedGroup(sha).fields.Keys == {"matcher", "hooks"}
    ensures
      var args := Arr([Str(ASSET_ARG), Str(AGENT_ARG)]);
      Canonical(ManagedGroup(sha), ManagedHandler(other)) ==
      Canon(Some(Str(MATCHER)), Some(Str("command")), Some(Str("node")), Some(args), Some(Num(TIMEOUT)),
            STATUS_PREFIX + PLACEHOLDER)
  {
    assert (STATUS_PREFIX + other)[|STATUS_PREFIX|..] == other;
  }

  /** The manifest's current identity is the canonical form of what the writer builds. */
  predicate CurrentIs(ids: Identities, sha: string) {
    ids.current == Some(Canonical(ManagedGroup(sha), ManagedHandler(sha)))
  }

  // ---- Applying a plan ----------------------------------------------------

  /** The elements of `list` that are none of `gone`, in order. */
  function Without(list: seq<Value>, gone: set<Value>): seq<Value> {
    if list == [] then []
    else Without(list[..|list| - 1], gone) + (if list[|list| - 1] in gone then [] else [list[|list| - 1]])
  }

  function Replaced(pre: seq<Value>, p: Position, sha: string): seq<Value>
    requires p.group < |pre| && ValidGroup(pre[p.group]) && p.handler < |Handlers(pre[p.group])|
  {
    var g := pre[p.group];
    var handlers := Handlers(g)[p.handler := ManagedHandler(sha)];
    pre[p.group := Obj(g.fields["matcher" := Str(MATCHER)]["hooks" := Arr(handlers)])]
  }

  /** What a plan means: which value the writer leaves. */
  function Meant(v: Value, plan: Plan, sha: string, c: Cohort): Value
    requires ValidShape(v)
    requires plan.Replace? ==> MarkedAt(Groups(v, PRE), plan.at) && ValidGroup(Groups(v, PRE)[plan.at.group])
    requires plan.Excise? ==> HooksHas(v, POST)
  {
    var pre := Groups(v, PRE);
    match plan
    case Install => WithPre(v, pre + [ManagedGroup(sha)])
    case Replace(p) => WithPre(v, Replaced(pre, p, sha))
    case Excise(_, _, _) =>
      WithPost(WithPre(v, Without(pre, {c.l1, c.l2, c.l3}) + [ManagedGroup(sha)]), Without(Groups(v, POST), {c.l4}))
    case _ => v
  }
}
