/**
 Applying a settings plan, and what the plans promise together: a plan that is not
 a refusal leaves a container that is recognised as current and needs no further
 change, and nothing outside the managed entry and the legacy cohort moves.
 */
module ClaudeManager {
  import opened Wrappers
  import opened Json
  import opened ClaudeSettings

  // ---- Lists without some elements ----------------------------------------

  lemma WithoutConcat(a: seq<Value>, b: seq<Value>, gone: set<Value>)
    ensures Without(a + b, gone) == Without(a, gone) + Without(b, gone)
  {
    if b == [] {
      assert a + b == a;
    } else {
      WithoutConcat(a, b[..|b| - 1], gone);
      assert (a + b)[..|a + b| - 1] == a + b[..|b| - 1];
    }
  }

  lemma WithoutNone(a: seq<Value>, gone: set<Value>)
    requires forall x :: x in a ==> x !in gone
    ensures Without(a, gone) == a
  {
    if a != [] {
      WithoutNone(a[..|a| - 1], gone);
      assert a == a[..|a| - 1] + [a[|a| - 1]];
    }
  }

  /** What stays is what was there and is not gone. */
  lemma WithoutKeeps(a: seq<Value>, gone: set<Value>)
    ensures forall x :: x in Without(a, gone) <==> x in a && x !in gone
    ensures multiset(Without(a, gone)) <= multiset(a)
  {
    if a != [] {
      WithoutKeeps(a[..|a| - 1], gone);
      assert a == a[..|a| - 1] + [a[|a| - 1]];
    }
  }

  /** `idx` lists, in ascending order, the positions of the elements of `list` in `gone`. */
  predicate Picks(list: seq<Value>, gone: set<Value>, idx: seq<nat>) {
    && (forall j, k :: 0 <= j < k < |idx| ==> idx[j] < idx[k])
    && (forall j :: 0 <= j < |idx| ==> idx[j] < |list| && list[idx[j]] in gone)
    && (forall i :: 0 <= i < |list| && list[i] in gone ==> i in idx)
  }

  function Bound(list: seq<Value>, idx: seq<nat>, k: nat): nat
    requires k <= |idx|
  {
    if k == |idx| then |list| else idx[k]
  }

  /** Between two picked positions nothing is gone. */
  lemma NoneBetween(list: seq<Value>, gone: set<Value>, idx: seq<nat>, k: nat, from: nat)
    requires Picks(list, gone, idx) && k <= |idx| && from <= Bound(list, idx, k)
    requires if k == 0 then from == 0 else from == idx[k - 1] + 1
    ensures forall x :: x in list[from..Bound(list, idx, k)] ==> x !in gone
  {
    forall j | 0 <= j < |idx| ensures idx[j] < from || Bound(list, idx, k) <= idx[j] {
      if j < k {
        assert j == k - 1 || idx[j] < idx[k - 1];
      } else {
        assert j == k || idx[k] < idx[j];
      }
    }
    assert forall i :: from <= i < Bound(list, idx, k) ==> i !in idx;
  }

  /** Splicing single elements out from the highest picked index down removes exactly the picked ones. */
  method SpliceDescending(list: seq<Value>, idx: seq<nat>, ghost gone: set<Value>) returns (r: seq<Value>)
    requires Picks(list, gone, idx)
    ensures r == Without(list, gone) && |r| == |list| - |idx|
  {
    hide Without;
    r := list;
    var k := |idx|;
    assert list == list[..Bound(list, idx, k)] && list[Bound(list, idx, k)..] == [];
    NothingWithout(gone);
    while k > 0
      invariant 0 <= k <= |idx| && Bound(list, idx, k) <= |list|
      invariant r == list[..Bound(list, idx, k)] + Without(list[Bound(list, idx, k)..], gone)
      invariant |r| == |list| - (|idx| - k)
    {
      SpliceStep(list, gone, idx, k);
      k := k - 1;
      r := r[..idx[k]] + r[idx[k] + 1..];
    }
    NoneBetween(list, gone, idx, 0, 0);
    var b := Bound(list, idx, 0);
    WithoutNone(list[..b], gone);
    WithoutConcat(list[..b], list[b..], gone);
    assert list == list[..b] + list[b..] && list[0..b] == list[..b];
  }

  lemma NothingWithout(gone: set<Value>)
    ensures Without([], gone) == []
  {
  }

  lemma SpliceStep(list: seq<Value>, gone: set<Value>, idx: seq<nat>, k: nat)
    requires Picks(list, gone, idx) && 0 < k <= |idx|
    ensures
      var b, i := Bound(list, idx, k), idx[k - 1];
      var r := list[..b] + Without(list[b..], gone);
      && i < b <= |list|
      && r[..i] + r[i + 1..] == list[..i] + Without(list[i..], gone)
  {
    hide Without;
    var b, i := Bound(list, idx, k), idx[k - 1];
    assert i < b by { if k < |idx| { assert idx[k - 1] < idx[k]; } }
    var mid := list[i + 1..b];
    NoneBetween(list, gone, idx, k, i + 1);
    WithoutNone(mid, gone);
    GoneAlone(list[i], gone);
    WithoutConcat([list[i]], mid, gone);
    WithoutConcat([list[i]] + mid, list[b..], gone);
    assert list[i..] == [list[i]] + mid + list[b..];
    var r := list[..b] + Without(list[b..], gone);
    assert r[..i] == list[..i] && r[i + 1..] == mid + Without(list[b..], gone);
  }

  lemma GoneAlone(x: Value, gone: set<Value>)
    requires x in gone
    ensures Without([x], gone) == []
  {
  }

  // ---- The cohort ---------------------------------------------------------

  lemma CountOneIsUnique(list: seq<Value>, x: Value, i: nat, j: nat)
    requires multiset(list)[x] == 1 && i < |list| && j < |list| && list[i] == x && list[j] == x
    ensures i == j
  {
    if i < j {
      CountsTwo(list, x, i, j);
    } else if j < i {
      CountsTwo(list, x, j, i);
    }
  }

  lemma CountsTwo(list: seq<Value>, x: Value, i: nat, j: nat)
    requires i < j < |list| && list[i] == x && list[j] == x
    ensures multiset(list)[x] >= 2
  {
    assert list == list[..i] + [x] + list[i + 1..j] + [x] + list[j + 1..];
  }

  lemma OneMatch(x: Value, list: seq<Value>)
    requires CountEqual(x, list) == 1
    ensures var k := FirstMatch(x, list);
            k < |list| && list[k] == x && forall i :: 0 <= i < |list| ==> (list[i] == x <==> i == k)
  {
    CountEqualCounts(x, list);
    assert x in multiset(list);
    MatchFound(x, list);
    var k := FirstMatch(x, list);
    DeepEqualIsEquality(x, list[k]);
    forall i | 0 <= i < |list| && list[i] == x ensures i == k { CountOneIsUnique(list, x, i, k); }
  }

  lemma MatchFound(x: Value, list: seq<Value>)
    requires x in list
    ensures FirstMatch(x, list) < |list|
  {
    var i :| 0 <= i < |list| && list[i] == x;
    DeepEqualIsEquality(x, list[i]);
  }

  lemma ExcisionPicks(v: Value, c: Cohort)
    requires CohortOk(c) && PlanExcision(v, c).Excise?
    ensures
      var plan := PlanExcision(v, c);
      && plan.Excise? && |plan.pre| == 3 && plan.insertAt == |Groups(v, PRE)| - 3
      && Picks(Groups(v, PRE), {c.l1, c.l2, c.l3}, plan.pre)
      && Picks(Groups(v, POST), {c.l4}, plan.post)
      && HooksHas(v, POST)
  {
    hide FirstMatch, CountEqual, HandlerCount;
    var pre, post := Groups(v, PRE), Groups(v, POST);
    OneMatch(c.l1, pre);
    OneMatch(c.l2, pre);
    OneMatch(c.l3, pre);
    OneMatch(c.l4, post);
    var a, b, d := FirstMatch(c.l1, pre), FirstMatch(c.l2, pre), FirstMatch(c.l3, pre);
    PicksThree(pre, c.l1, c.l2, c.l3, a, b, d);
  }

  /** The single positions of three values, in order, pick exactly them. */
  lemma PicksThree(list: seq<Value>, x: Value, y: Value, z: Value, a: nat, b: nat, d: nat)
    requires x != y && x != z && y != z && a < |list| && b < |list| && d < |list|
    requires forall i :: 0 <= i < |list| ==> (list[i] == x <==> i == a)
    requires forall i :: 0 <= i < |list| ==> (list[i] == y <==> i == b)
    requires forall i :: 0 <= i < |list| ==> (list[i] == z <==> i == d)
    ensures Picks(list, {x, y, z}, Sort3(a, b, d))
  {
    var idx := Sort3(a, b, d);
    assert list[a] == x && list[b] == y && list[d] == z;
    SortedDistinct(a, b, d);
    assert forall i :: 0 <= i < |list| && list[i] in {x, y, z} ==> i in idx;
    assert forall j :: 0 <= j < 3 ==> idx[j] in idx;
  }

  lemma SortedDistinct(a: nat, b: nat, d: nat)
    requires a != b && a != d && b != d
    ensures var s := Sort3(a, b, d); s[0] < s[1] < s[2]
  {
  }

  // ---- Applying -----------------------------------------------------------

  /** applySettingsPlan, for the plans that write. */
  method ApplySettingsPlan(v: Value, plan: Plan, sha: string, ghost c: Cohort) returns (w: Value)
    requires plan.Container? || plan.Install? || plan.Replace? || plan.Excise?
    requires !plan.Container? ==> ValidShape(v)
    requires plan.Replace? ==> MarkedAt(Groups(v, PRE), plan.at) && ValidGroup(Groups(v, PRE)[plan.at.group])
    requires plan.Excise? ==> CohortOk(c) && plan == PlanExcision(v, c)
    ensures plan.Container? ==> w == ManagedContainer(sha)
    ensures plan.Excise? ==> HooksHas(v, POST)
    ensures !plan.Container? ==> w == Meant(v, plan, sha, c)
  {
    if plan.Container? { return ManagedContainer(sha); }
    var pre := Groups(v, PRE);
    if plan.Install? {
      pre := pre + [ManagedGroup(sha)];
      return WithPre(v, pre);
    }
    if plan.Replace? {
      var g := pre[plan.at.group];
      var handlers := Handlers(g)[plan.at.handler := ManagedHandler(sha)];
      pre := pre[plan.at.group := Obj(g.fields["matcher" := Str(MATCHER)]["hooks" := Arr(handlers)])];
      return WithPre(v, pre);
    }
    w := ApplyExcision(v, plan, sha, c);
  }

  /** Removes the proven cohort by descending index, then inserts the managed group. */
  method ApplyExcision(v: Value, plan: Plan, sha: string, ghost c: Cohort) returns (w: Value)
    requires ValidShape(v) && plan.Excise? && CohortOk(c) && plan == PlanExcision(v, c)
    ensures HooksHas(v, POST) && w == Meant(v, plan, sha, c)
  {
    hide PlanExcision, Without, ManagedGroup, Groups, Picks;
    var pre := Groups(v, PRE);
    ExcisionPicks(v, c);
    var removed := SpliceDescending(pre, plan.pre, {c.l1, c.l2, c.l3});
    var post := SpliceDescending(Groups(v, POST), plan.post, {c.l4});
    pre := removed[..plan.insertAt] + [ManagedGroup(sha)] + removed[plan.insertAt..];
    WithPreKeeps(v, pre);
    w := WithPost(WithPre(v, pre), post);
    assert pre == removed + [ManagedGroup(sha)];
  }

  // ---- Convergence --------------------------------------------------------

  lemma ManagedGroupShape(sha: string)
    ensures var g := ManagedGroup(sha);
            && ValidGroup(g) && Handlers(g) == [ManagedHandler(sha)] && IsMarked(ManagedHandler(sha))
            && MatcherExact(g)
  {
    assert STATUS_PREFIX <= STATUS_PREFIX + sha;
  }

  /** Unmarked groups followed by the managed group hold exactly one marker. */
  lemma AppendedMarker(groups: seq<Value>, sha: string)
    requires Markers(groups, 0) == []
    ensures Markers(groups + [ManagedGroup(sha)], 0) == [Position(|groups|, 0)]
  {
    hide ManagedGroup, ManagedHandler, IsMarked, Markers;
    ManagedGroupShape(sha);
    var all := groups + [ManagedGroup(sha)];
    forall q: Position | q != Position(|groups|, 0) ensures !MarkedAt(all, q) {
      MarkersAre(groups, 0, q);
      assert q.group < |groups| ==> all[q.group] == groups[q.group];
    }
    OneMarker(all, Position(|groups|, 0), 0);
  }

  /** A container whose only marker is a managed handler in a managed matcher is current. */
  lemma CurrentWhen(w: Value, p: Position, sha: string, ids: Identities, c: Cohort)
    requires ValidShape(w) && Markers(Groups(w, PRE), 0) == [p] && CurrentIs(ids, sha)
    requires MarkedAt(Groups(w, PRE), p)
    requires var g := Groups(w, PRE)[p.group];
             ValidGroup(g) && MatcherExact(g) && Handlers(g)[p.handler] == ManagedHandler(sha)
    ensures Classify(w, ids, c) == Classification(ManagedCurrent, Some(p))
  {
    hide ManagedHandler, Markers, MarkedAt, ValidShape, IsMarked;
    assert Lookup(ManagedGroup(sha), "matcher") == Some(Str(MATCHER));
  }

  lemma WithoutUnmarked(groups: seq<Value>, gone: set<Value>)
    requires Markers(groups, 0) == []
    ensures Markers(Without(groups, gone), 0) == []
  {
    hide Markers, Without, IsMarked, Handlers;
    WithoutKeeps(groups, gone);
    var rest := Without(groups, gone);
    forall q: Position ensures !MarkedAt(rest, q) {
      if q.group < |rest| {
        assert rest[q.group] in groups;
        var i :| 0 <= i < |groups| && groups[i] == rest[q.group];
        MarkersAre(groups, 0, Position(i, q.handler));
      }
    }
    NoMarkers(rest, 0);
  }

  /** Replacing the one marked handler leaves it the one marked handler. */
  lemma ReplacedMarker(pre: seq<Value>, p: Position, sha: string)
    requires Markers(pre, 0) == [p] && MarkedAt(pre, p) && ValidGroup(pre[p.group])
    ensures
      var all := Replaced(pre, p, sha);
      var g := all[p.group];
      && MarkedAt(all, p) && Markers(all, 0) == [p]
      && ValidGroup(g) && MatcherExact(g) && Handlers(g)[p.handler] == ManagedHandler(sha)
  {
    hide Markers, ManagedHandler, IsMarked;
    ManagedGroupShape(sha);
    var all := Replaced(pre, p, sha);
    forall q: Position | q != p ensures !MarkedAt(all, q) {
      MarkersAre(pre, 0, q);
    }
    OneMarker(all, p, 0);
  }

  lemma ClassifyFinds(v: Value, ids: Identities, c: Cohort)
    ensures
      var r := Classify(v, ids, c);
      && (r.at.Some? ==> Markers(Groups(v, PRE), 0) == [r.at.value])
      && (r.state == Absent || r.state == ExactLegacy ==>
            ValidShape(v) && Markers(Groups(v, PRE), 0) == [] && ClassifyLegacy(v, c) == r.state)
  {
    hide Markers, ClassifyLegacy, ValidShape;
  }

  /** What the settings file holds after a plan that is not a refusal. */
  ghost function After(read: SettingsRead, plan: Plan, sha: string, c: Cohort): Value
    requires !plan.Refuse? && (read.Unparsed? ==> plan.Container?)
    requires read.Parsed? && !plan.Container? ==> Applicable(read.value, plan)
  {
    if plan.Container? then ManagedContainer(sha) else Meant(read.value, plan, sha, c)
  }

  ghost predicate Applicable(v: Value, plan: Plan) {
    && ValidShape(v)
    && (plan.Replace? ==> MarkedAt(Groups(v, PRE), plan.at) && ValidGroup(Groups(v, PRE)[plan.at.group]))
    && (plan.Excise? ==> HooksHas(v, POST))
  }

  /** A plan resolved from a parsed value can be applied to it. */
  lemma ResolvedApplies(v: Value, forced: bool, ids: Identities, c: Cohort)
    requires CohortOk(c)
    ensures
      var plan := Resolve(Parsed(v), forced, ids, c);
      && !plan.Container?
      && (!plan.Refuse? ==> Applicable(v, plan))
      && (plan.Replace? ==> Markers(Groups(v, PRE), 0) == [plan.at])
      && (plan.Install? || plan.Excise? ==> Markers(Groups(v, PRE), 0) == [])
      && (plan.Excise? ==> plan == PlanExcision(v, c))
  {
    hide Markers, ClassifyLegacy, PlanExcision, MarkedAt, ValidGroup, HooksHas, Handlers, MatcherExact, Groups;
    ClassifyFinds(v, ids, c);
    ClassifyFinds(v, Identities(None, []), c);
    if Resolve(Parsed(v), forced, ids, c).Excise? { ExcisionPicks(v, c); }
    hide Classify;
    ExcisionPlan(v, c);
  }

  lemma ExcisionPlan(v: Value, c: Cohort)
    ensures var plan := PlanExcision(v, c); plan.Refuse? || plan.Excise?
  {
  }

  /** For every read of the settings, in both modes: a plan that is not a refusal leaves a container
      that classifies as current, and from which either mode plans nothing more. */
  lemma Converges(read: SettingsRead, forced: bool, forcedNext: bool, sha: string, ids: Identities, c: Cohort)
    requires CohortOk(c) && CurrentIs(ids, sha)
    ensures
      var plan := Resolve(read, forced, ids, c);
      !plan.Refuse? ==>
        && (read.Unparsed? ==> plan.Container?)
        && (read.Parsed? ==> !plan.Container? && Applicable(read.value, plan))
        && var w := After(read, plan, sha, c);
           && Classify(w, ids, c).state == ManagedCurrent
           && Resolve(Parsed(w), forcedNext, ids, c) == Noop
  {
    hide Classify, Meant, ManagedContainer, Applicable;
    var plan := Resolve(read, forced, ids, c);
    if read.Parsed? {
      ResolvedApplies(read.value, forced, ids, c);
      if plan.Noop? {
        NoopChangesNothing(read.value, sha, c);
      } else if !plan.Refuse? {
        MeantIsCurrent(read.value, plan, sha, ids, c);
      }
    } else if plan.Container? {
      ContainerIsCurrent(sha, ids, c);
    }
  }

  lemma NoopChangesNothing(v: Value, sha: string, c: Cohort)
    requires ValidShape(v)
    ensures Meant(v, Noop, sha, c) == v
  {
  }

  lemma ContainerIsCurrent(sha: string, ids: Identities, c: Cohort)
    requires CurrentIs(ids, sha)
    ensures Classify(ManagedContainer(sha), ids, c).state == ManagedCurrent
  {
    hide Markers, ManagedHandler;
    var w := ManagedContainer(sha);
    assert Groups(w, PRE) == [] + [ManagedGroup(sha)];
    NoMarkers([], 0);
    AppendedMarker([], sha);
    ManagedGroupShape(sha);
    CurrentWhen(w, Position(0, 0), sha, ids, c);
  }

  lemma MeantIsCurrent(v: Value, plan: Plan, sha: string, ids: Identities, c: Cohort)
    requires CurrentIs(ids, sha) && Applicable(v, plan)
    requires plan.Install? || plan.Replace? || plan.Excise?
    requires if plan.Replace? then Markers(Groups(v, PRE), 0) == [plan.at] else Markers(Groups(v, PRE), 0) == []
    ensures Classify(Meant(v, plan, sha, c), ids, c).state == ManagedCurrent
  {
    hide Markers, ManagedHandler, ManagedGroup, Without, Classify, CurrentIs, IsMarked;
    var w := Meant(v, plan, sha, c);
    var pre := Groups(v, PRE);
    ManagedGroupShape(sha);
    match plan {
      case Install =>
        WithPreKeeps(v, pre + [ManagedGroup(sha)]);
        AppendedMarker(pre, sha);
        CurrentWhen(w, Position(|pre|, 0), sha, ids, c);
      case Replace(p) =>
        WithPreKeeps(v, Replaced(pre, p, sha));
        ReplacedMarker(pre, p, sha);
        CurrentWhen(w, p, sha, ids, c);
      case Excise(_, _, _) =>
        var rest := Without(pre, {c.l1, c.l2, c.l3});
        WithPreKeeps(v, rest + [ManagedGroup(sha)]);
        WithPostKeeps(WithPre(v, rest + [ManagedGroup(sha)]), Without(Groups(v, POST), {c.l4}));
        WithoutUnmarked(pre, {c.l1, c.l2, c.l3});
        AppendedMarker(rest, sha);
        CurrentWhen(w, Position(|rest|, 0), sha, ids, c);
    }
  }

  // ---- Preservation -------------------------------------------------------

  /** Every plan that edits a parsed container leaves all of it alone but the event lists; there it
      appends one group, or rewrites one handler and its group's matcher, or takes out the cohort. */
  lemma Preserves(v: Value, forced: bool, sha: string, ids: Identities, c: Cohort)
    requires CohortOk(c)
    ensures
      var plan := Resolve(Parsed(v), forced, ids, c);
      plan.Install? || plan.Replace? || plan.Excise? ==>
        && Applicable(v, plan)
        && var w := Meant(v, plan, sha, c);
           var pre, pre', post, post' := Groups(v, PRE), Groups(w, PRE), Groups(v, POST), Groups(w, POST);
           && ValidShape(w) && SameElsewhere(v, w)
           && (plan.Install? ==> pre' == pre + [ManagedGroup(sha)] && post' == post)
           && (plan.Replace? ==> post' == post && OnlyHandlerDiffers(pre, pre', plan.at))
           && (plan.Excise? ==>
                 && pre' == Without(pre, {c.l1, c.l2, c.l3}) + [ManagedGroup(sha)] && |pre'| == |pre| - 2
                 && post' == Without(post, {c.l4}) && |post'| == |post| - 1)
  {
    hide Markers, ManagedHandler, ManagedGroup, Without, Resolve, PlanExcision, SameElsewhere, Picks;
    var plan := Resolve(Parsed(v), forced, ids, c);
    var pre, post := Groups(v, PRE), Groups(v, POST);
    ResolvedApplies(v, forced, ids, c);
    if plan.Install? {
      WithPreKeeps(v, pre + [ManagedGroup(sha)]);
    } else if plan.Replace? {
      WithPreKeeps(v, Replaced(pre, plan.at, sha));
    } else if plan.Excise? {
      ExcisionPicks(v, c);
      var rest, rest' := Without(pre, {c.l1, c.l2, c.l3}), Without(post, {c.l4});
      var u := WithPre(v, rest + [ManagedGroup(sha)]);
      WithPreKeeps(v, rest + [ManagedGroup(sha)]);
      WithPostKeeps(u, rest');
      SameElsewhereChain(v, u, WithPost(u, rest'));
      PicksCount(pre, {c.l1, c.l2, c.l3}, plan.pre);
      PicksCount(post, {c.l4}, plan.post);
      ExcisionSizes(v, c);
    }
  }

  lemma ExcisionSizes(v: Value, c: Cohort)
    requires PlanExcision(v, c).Excise?
    ensures var plan := PlanExcision(v, c); |plan.pre| == 3 && |plan.post| == 1
  {
  }

  lemma LastIsLargest(idx: seq<nat>, j: nat)
    requires j < |idx| && forall i, k :: 0 <= i < k < |idx| ==> idx[i] < idx[k]
    ensures j == |idx| - 1 || idx[j] < idx[|idx| - 1]
  {
  }

  lemma PicksCount(list: seq<Value>, gone: set<Value>, idx: seq<nat>)
    requires Picks(list, gone, idx)
    ensures |Without(list, gone)| == |list| - |idx|
    decreases |list|
  {
    if list != [] {
      var n := |list| - 1;
      if list[n] in gone {
        var j :| 0 <= j < |idx| && idx[j] == n;
        LastIsLargest(idx, j);
        assert j == |idx| - 1;
        assert Picks(list[..n], gone, idx[..j]);
        PicksCount(list[..n], gone, idx[..j]);
      } else {
        assert Picks(list[..n], gone, idx);
        PicksCount(list[..n], gone, idx);
      }
    }
  }

  /** Same groups, same handlers and same fields, except the handler at `p` and its group's matcher. */
  ghost predicate OnlyHandlerDiffers(pre: seq<Value>, pre': seq<Value>, p: Position)
    requires MarkedAt(pre, p)
  {
    && |pre'| == |pre|
    && (forall i :: 0 <= i < |pre| && i != p.group ==> pre'[i] == pre[i])
    && var g, g' := pre[p.group], pre'[p.group];
       && g'.Obj? && g'.fields.Keys == g.fields.Keys
       && (forall k :: k in g.fields && k != "matcher" && k != "hooks" ==> g'.fields[k] == g.fields[k])
       && |Handlers(g')| == |Handlers(g)|
       && (forall h :: 0 <= h < |Handlers(g)| && h != p.handler ==> Handlers(g')[h] == Handlers(g)[h])
  }

  // ---- Refusals -----------------------------------------------------------

  /** Exactly when the file is left alone for good. Unparsed: unless there is none or it is the whole
      legacy file. Parsed: it is malformed or foreign, or it was edited and either force is off, or the
      marker is not a single handler in a valid group, or the group's matcher was edited and it has
      other handlers. */
  lemma RefusesExactly(read: SettingsRead, forced: bool, ids: Identities, c: Cohort)
    requires CohortOk(c)
    ensures
      Resolve(read, forced, ids, c).Refuse? <==>
        match read
        case Unparsed(state) => state != Absent && state != ExactLegacy
        case Parsed(v) =>
          var cls, groups := Classify(v, ids, c), Groups(v, PRE);
          || cls.state == Malformed || cls.state == Foreign
          || (cls.state == EditedManaged &&
                (!forced || cls.at.None? ||
                 (!MatcherExact(groups[cls.at.value.group]) && |Handlers(groups[cls.at.value.group])| > 1)))
  {
    hide Markers, Handlers, Canonical, PlanExcision, Groups, CountEqual, HandlerCount, ValidShape, ValidGroup;
    if read.Parsed? && Classify(read.value, ids, c).state == ExactLegacy {
      ClassifyFinds(read.value, ids, c);
      CohortIsPlanned(read.value, c);
    }
  }

  /** The whole file is written exactly when there was none, or it was the whole legacy content: never
      over anything that could not be read or parsed. */
  lemma WritesWholeFile(stat: Stat, text: Text, hash: string -> string, legacy: string, parse: string -> Option<Value>,
                        forced: bool, ids: Identities, c: Cohort)
    requires CohortOk(c)
    ensures
      Resolve(ReadSettings(stat, text, hash, legacy, parse), forced, ids, c).Container? <==>
        || stat.NoEntry? || (stat.Regular? && text.Gone?)
        || (stat.Regular? && text.Content? && hash(text.text) == legacy)
  {
    hide Classify, Resolve;
    var read := ReadSettings(stat, text, hash, legacy, parse);
    ContainerOnlyUnparsed(read, forced, ids, c);
  }

  lemma ContainerOnlyUnparsed(read: SettingsRead, forced: bool, ids: Identities, c: Cohort)
    requires CohortOk(c)
    ensures Resolve(read, forced, ids, c).Container? <==>
            read.Unparsed? && (read.state == Absent || read.state == ExactLegacy)
  {
    hide Classify;
    if read.Parsed? { ResolvedApplies(read.value, forced, ids, c); }
  }

  lemma CohortIsPlanned(v: Value, c: Cohort)
    requires ClassifyLegacy(v, c) == ExactLegacy
    ensures PlanExcision(v, c).Excise?
  {
  }
}
