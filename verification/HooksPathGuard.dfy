/**
 The guard in front of the hook installer: it reads `core.hooksPath` in four git
 scopes before it changes anything, and then at most unsets the one legacy value.
 */
module HooksPathGuard {
  import opened Wrappers
  import CodexConfig
  import HookContent

  // ---- Git's configuration ------------------------------------------------

  /** One setting of `core.hooksPath`, in a scope's own file or in one that file includes. */
  datatype Setting = Setting(value: string, included: bool)

  datatype Config = Config(
    system: seq<Setting>, global: seq<Setting>, local: seq<Setting>, worktree: seq<Setting>, worktreeOn: bool)

  const LEGACY := "ci-local/hooks"

  function Own(ss: seq<Setting>): (r: seq<Setting>)
    ensures |r| <= |ss|
    ensures forall s :: s in r ==> s in ss && !s.included
    ensures ss != [] && !ss[|ss| - 1].included ==> r != [] && r[|r| - 1] == ss[|ss| - 1]
  {
    if ss == [] then [] else Own(ss[..|ss| - 1]) + if ss[|ss| - 1].included then [] else [ss[|ss| - 1]]
  }

  function Included(ss: seq<Setting>): seq<Setting> {
    if ss == [] then [] else Included(ss[..|ss| - 1]) + if ss[|ss| - 1].included then [ss[|ss| - 1]] else []
  }

  /** What `--get` answers, trimmed: the last setting, or the empty text when there is none. */
  function Answer(ss: seq<Setting>): string {
    if ss == [] then "" else CodexConfig.Trim(ss[|ss| - 1].value)
  }

  function InForce(c: Config): seq<Setting> {
    c.system + c.global + c.local + if c.worktreeOn then c.worktree else []
  }

  /** The setting git itself goes by when it looks for hooks. */
  function Effective(c: Config): Option<Setting> {
    var all := InForce(c);
    if all == [] then None else Some(all[|all| - 1])
  }

  // ---- The repository -----------------------------------------------------

  datatype Probe = Value(s: string) | Failed

  class Repository {
    var config: Config
    /** A git command failed although the configuration gave it no reason to. */
    ghost var faulted: bool

    constructor (config: Config)
      ensures this.config == config && !faulted
    {
      this.config := config;
      faulted := false;
    }

    /** One `git config --get`; `ss` is what it may look at. */
    method Get(ss: seq<Setting>) returns (p: Probe)
      modifies this`faulted
      ensures p.Failed? ==> faulted
      ensures p.Value? ==> p.s == Answer(ss) && faulted == old(faulted)
    {
      var fails: bool := *;
      if fails {
        faulted := true;
        return Failed;
      }
      return Value(Answer(ss));
    }

    method WorktreeExtension() returns (r: Result<bool>)
      modifies this`faulted
      ensures r.Thrown? ==> faulted
      ensures r.Ok? ==> r.value == config.worktreeOn && faulted == old(faulted)
    {
      var fails: bool := *;
      if fails {
        faulted := true;
        return Thrown;
      }
      return Ok(config.worktreeOn);
    }

    /** `git config --local --unset`, which refuses a key set more than once in the file. */
    method UnsetLocal() returns (ok: bool)
      modifies this
      ensures ok ==> |Own(old(config).local)| == 1 && config == old(config).(local := Included(old(config).local))
      ensures !ok ==> config == old(config)
      ensures !ok && |Own(config.local)| == 1 ==> faulted
      ensures !(!ok && |Own(config.local)| == 1) ==> faulted == old(faulted)
    {
      if |Own(config.local)| != 1 { return false; }
      var fails: bool := *;
      if fails {
        faulted := true;
        return false;
      }
      config := config.(local := Included(config.local));
      return true;
    }
  }

  method ReadWorktree(repo: Repository) returns (p: Probe)
    modifies repo`faulted
    ensures p.Failed? ==> repo.faulted
    ensures p.Value? ==> p.s == (if repo.config.worktreeOn then Answer(Own(repo.config.worktree)) else "")
    ensures p.Value? ==> repo.faulted == old(repo.faulted)
  {
    var enabled := repo.WorktreeExtension();
    if enabled.Thrown? { return Failed; }
    if !enabled.value { return Value(""); }
    p := repo.Get(Own(repo.config.worktree));
  }

  // ---- The guard ----------------------------------------------------------

  datatype Verdict = Refuse | Threw | Proceed(unset: bool)

  /** What the guard learns of a slot: nothing when its manifest entry is broken, its state, or an error. */
  datatype SlotView = Skipped | Seen(state: HookContent.State) | Unreadable

  predicate AnyForeign(slots: seq<SlotView>) {
    exists v :: v in slots && v == Seen(HookContent.Foreign)
  }

  /** The verdict when no git command fails. */
  function Decided(c: Config, slots: seq<SlotView>, force: bool): Verdict {
    if Unreadable in slots then Threw
    else if Answer(c.system) != "" || Answer(c.global) != "" then Refuse
    else if c.worktreeOn && Answer(Own(c.worktree)) != "" then Refuse
    else
      var local := Answer(Own(c.local));
      if local == "" then Proceed(false)
      else if local != LEGACY then Refuse
      else if !force && AnyForeign(slots) then Refuse
      else if |Own(c.local)| != 1 then Threw
      else Proceed(true)
  }

  /** guardHooksPath. */
  method GuardHooksPath(repo: Repository, slots: seq<SlotView>, force: bool) returns (v: Verdict)
    modifies repo
    ensures !v.Proceed? ==> repo.config == old(repo.config)
    ensures v.Proceed? ==> v == Decided(old(repo.config), slots, force)
    ensures v.Proceed? ==> repo.config == After(old(repo.config), v)
    ensures !repo.faulted ==> v == Decided(old(repo.config), slots, force)
    ensures old(repo.faulted) ==> repo.faulted
  {
    var foreign := 0;
    for i := 0 to |slots|
      invariant Unreadable !in slots[..i]
      invariant foreign > 0 <==> Seen(HookContent.Foreign) in slots[..i]
      invariant foreign >= 0
    {
      assert slots[..i + 1] == slots[..i] + [slots[i]];
      if slots[i].Skipped? { continue; }
      if slots[i].Unreadable? { return Threw; }
      if slots[i].state == HookContent.Foreign { foreign := foreign + 1; }
    }
    assert slots[..|slots|] == slots;
    var system := repo.Get(repo.config.system);
    if system.Failed? || system.s != "" { return Refuse; }
    var global := repo.Get(repo.config.global);
    if global.Failed? || global.s != "" { return Refuse; }
    var worktree := ReadWorktree(repo);
    if worktree.Failed? || worktree.s != "" { return Refuse; }
    var local := repo.Get(Own(repo.config.local));
    if local.Failed? { return Refuse; }
    if local.s != "" && local.s != LEGACY { return Refuse; }
    var legacy := local.s == LEGACY;
    if legacy && !force && foreign > 0 { return Refuse; }
    if legacy {
      var ok := repo.UnsetLocal();
      return if ok then Proceed(true) else Threw;
    }
    return Proceed(false);
  }

  // ---- Which verdict ------------------------------------------------------

  /** The last setting that counts has the value `v` between white space; with none, `v` is empty. */
  ghost predicate Answers(ss: seq<Setting>, included: bool, v: string) {
    || (v == "" && forall s :: s in ss ==> s.included && !included)
    || exists i: nat :: LastAt(ss, included, i) && CodexConfig.Trim(ss[i].value) == v
  }

  /** The last setting, of those in the file itself unless included ones count. */
  predicate LastAt(ss: seq<Setting>, included: bool, i: nat) {
    && i < |ss| && (included || !ss[i].included)
    && forall j :: i < j < |ss| ==> ss[j].included && !included
  }

  lemma AnswerExactly(ss: seq<Setting>, v: string)
    ensures Answer(ss) == v <==> Answers(ss, true, v)
  {
    hide CodexConfig.Trim;
    if ss != [] {
      assert LastAt(ss, true, |ss| - 1);
      assert ss[0] in ss;
    }
  }

  lemma {:induction false} OwnAnswerExactly(ss: seq<Setting>, v: string)
    ensures Answer(Own(ss)) == v <==> Answers(ss, false, v)
  {
    hide CodexConfig.Trim, Answers, Answer;
    if ss == [] {
      NoAnswer(v);
    } else {
      var front, last := ss[..|ss| - 1], ss[|ss| - 1];
      assert ss == front + [last];
      if last.included {
        OwnAnswerExactly(front, v);
        assert Own(ss) == Own(front);
        IncludedBehind(front, last, v);
      } else {
        OwnBehind(front, last, v);
        LastAnswers(Own(front), last);
      }
    }
  }

  lemma NoAnswer(v: string)
    ensures Answer([]) == v <==> Answers([], false, v)
  {
  }

  lemma LastAnswers(ss: seq<Setting>, s: Setting)
    ensures Answer(ss + [s]) == CodexConfig.Trim(s.value)
  {
  }

  lemma IncludedBehind(front: seq<Setting>, last: Setting, v: string)
    requires last.included
    ensures Answers(front + [last], false, v) <==> Answers(front, false, v)
  {
    hide CodexConfig.Trim;
    var ss := front + [last];
    forall i: nat ensures LastAt(ss, false, i) <==> LastAt(front, false, i) {
      LastStays(front, last, i);
    }
    assert forall i :: 0 <= i < |front| ==> ss[i] == front[i];
    assert forall s :: s in ss <==> s in front || s == last;
  }

  lemma LastStays(front: seq<Setting>, last: Setting, i: nat)
    requires last.included
    ensures LastAt(front + [last], false, i) <==> LastAt(front, false, i)
  {
    var ss := front + [last];
    assert forall j :: 0 <= j < |front| ==> ss[j] == front[j];
    assert ss[|front|] == last;
  }

  lemma OwnBehind(front: seq<Setting>, last: Setting, v: string)
    requires !last.included
    ensures Answers(front + [last], false, v) <==> CodexConfig.Trim(last.value) == v
  {
    hide CodexConfig.Trim;
    var ss := front + [last];
    assert ss[|front|] == last && last in ss;
    forall i: nat ensures LastAt(ss, false, i) <==> i == |front| { }
  }

  /** The file itself sets the key once. */
  predicate OnlyAt(ss: seq<Setting>, i: nat) {
    i < |ss| && !ss[i].included && forall j :: 0 <= j < |ss| && j != i ==> ss[j].included
  }

  lemma {:induction false} OneOwnExactly(ss: seq<Setting>)
    ensures |Own(ss)| == 0 <==> forall s :: s in ss ==> s.included
    ensures |Own(ss)| == 1 <==> exists i: nat :: OnlyAt(ss, i)
  {
    if ss != [] {
      var front, last := ss[..|ss| - 1], ss[|ss| - 1];
      OneOwnExactly(front);
      assert ss == front + [last];
      if last.included {
        forall i: nat ensures OnlyAt(ss, i) <==> OnlyAt(front, i) { }
      } else {
        assert (forall s :: s in front ==> s.included) ==> OnlyAt(ss, |front|);
        assert forall i: nat :: OnlyAt(ss, i) ==> i == |front|;
      }
    }
  }

  /** No scope but the local one has a value that is not blank. */
  ghost predicate BlankElsewhere(c: Config) {
    && Answers(c.system, true, "") && Answers(c.global, true, "")
    && (c.worktreeOn ==> Answers(c.worktree, false, ""))
  }

  /** For every configuration and every repository of hooks, when no git command fails: which verdict is
      reached, a refusal being all that is left. */
  lemma VerdictExactly(c: Config, slots: seq<SlotView>, force: bool)
    ensures
      var v := Decided(c, slots, force);
      var unset := force || Seen(HookContent.Foreign) !in slots;
      var legacy := BlankElsewhere(c) && Answers(c.local, false, LEGACY) && unset;
      && (v == Proceed(false) <==> Unreadable !in slots && BlankElsewhere(c) && Answers(c.local, false, ""))
      && (v == Proceed(true) <==> Unreadable !in slots && legacy && exists i: nat :: OnlyAt(c.local, i))
      && (v == Threw <==> Unreadable in slots || (legacy && forall i: nat :: !OnlyAt(c.local, i)))
  {
    hide CodexConfig.Trim, Own, Answer, Answers;
    AnswerExactly(c.system, "");
    AnswerExactly(c.global, "");
    OwnAnswerExactly(c.worktree, "");
    OwnAnswerExactly(c.local, "");
    OwnAnswerExactly(c.local, LEGACY);
    OneOwnExactly(c.local);
  }

  // ---- What a verdict to proceed is worth ---------------------------------

  function After(c: Config, v: Verdict): Config {
    if v.Proceed? && v.unset then c.(local := Included(c.local)) else c
  }

  lemma {:induction false} IncludedHasNoOwn(ss: seq<Setting>)
    ensures forall s :: s in Included(ss) ==> s.included
    ensures Own(Included(ss)) == []
  {
    if ss != [] {
      var front := Included(ss[..|ss| - 1]);
      IncludedHasNoOwn(ss[..|ss| - 1]);
      assert front + [] == front;
      assert (front + [ss[|ss| - 1]])[..|front|] == front;
    }
  }

  lemma {:induction false} OwnAndIncluded(ss: seq<Setting>)
    ensures |Own(ss)| + |Included(ss)| == |ss|
  {
    if ss != [] { OwnAndIncluded(ss[..|ss| - 1]); }
  }

  /** After a verdict to proceed no setting is left in force exactly when there was none at all, but
      for a legacy value that was unset: a blank value and an included one both stay. */
  lemma UnsetExactly(c: Config, slots: seq<SlotView>, force: bool)
    requires Decided(c, slots, force).Proceed?
    ensures
      var v := Decided(c, slots, force);
      Effective(After(c, v)).None? <==>
        && c.system == [] && c.global == [] && (c.worktreeOn ==> c.worktree == [])
        && Included(c.local) == [] && (Own(c.local) == [] || v.unset)
  {
    hide CodexConfig.Trim, Own, Included;
    OwnAndIncluded(c.local);
    EffectiveIs(After(c, Decided(c, slots, force)));
  }

  /** After a verdict to proceed a setting that is not blank is in force exactly when the last setting
      of the local and worktree scopes comes from an included file and is not blank. */
  lemma ShadowedExactly(c: Config, slots: seq<SlotView>, force: bool)
    requires Decided(c, slots, force).Proceed?
    ensures
      var d := After(c, Decided(c, slots, force));
      var tail := Tail(d);
      (Effective(d).Some? && CodexConfig.Trim(Effective(d).value.value) != "") <==>
        (tail != [] && tail[|tail| - 1].included && CodexConfig.Trim(tail[|tail| - 1].value) != "")
  {
    hide CodexConfig.Trim, Effective, Own, Included;
    var d := After(c, Decided(c, slots, force));
    IncludedHasNoOwn(c.local);
    EffectiveIs(d);
    assert d.worktreeOn && d.worktree != [] ==> Tail(d)[|Tail(d)| - 1] == d.worktree[|d.worktree| - 1];
    assert !(d.worktreeOn && d.worktree != []) ==> Tail(d) == d.local;
  }

  function Tail(d: Config): seq<Setting> {
    d.local + if d.worktreeOn then d.worktree else []
  }

  lemma EffectiveIs(d: Config)
    ensures Effective(d) ==
            if Tail(d) != [] then Some(Tail(d)[|Tail(d)| - 1])
            else if d.global != [] then Some(d.global[|d.global| - 1])
            else if d.system != [] then Some(d.system[|d.system| - 1])
            else None
  {
    assert InForce(d) == d.system + d.global + Tail(d);
  }

  /** With nothing included, every scope is left unset or blank, and the legacy value is unset without
      force only when no slot holds a foreign hook. */
  lemma ProceedMeans(c: Config, slots: seq<SlotView>, force: bool)
    requires Decided(c, slots, force).Proceed?
    ensures
      var v := Decided(c, slots, force);
      var d := After(c, v);
      && Answer(d.system) == "" && Answer(d.global) == "" && Answer(Own(d.local)) == ""
      && (d.worktreeOn ==> Answer(Own(d.worktree)) == "")
      && (v.unset ==> Own(d.local) == [] && (force || !AnyForeign(slots)))
      && d == c.(local := d.local) && (!v.unset ==> d == c)
      && Included(d.local) == Included(c.local)
  {
    hide CodexConfig.Trim;
    IncludedHasNoOwn(c.local);
    IncludedTwice(c.local);
  }

  lemma {:induction false} IncludedTwice(ss: seq<Setting>)
    ensures Included(Included(ss)) == Included(ss)
  {
    if ss != [] {
      var front := Included(ss[..|ss| - 1]);
      IncludedTwice(ss[..|ss| - 1]);
      assert front + [] == front;
      assert (front + [ss[|ss| - 1]])[..|front|] == front;
    }
  }

  /** The guard proceeds past a value of white space only, and leaves it set. */
  lemma BlankValuePasses(v: string, slots: seq<SlotView>, force: bool)
    requires CodexConfig.Trim(v) == "" && Unreadable !in slots
    ensures
      var c := Config([], [], [Setting(v, false)], [], false);
      Decided(c, slots, force) == Proceed(false) && Effective(After(c, Proceed(false))) == Some(Setting(v, false))
  {
    hide CodexConfig.Trim;
    var ss := [Setting(v, false)];
    assert ss[..0] == [];
    assert Own(ss) == ss;
  }

  /** It also proceeds past any value set in a file that the local configuration includes. */
  lemma IncludedValuePasses(v: string, slots: seq<SlotView>, force: bool)
    requires Unreadable !in slots
    ensures
      var c := Config([], [], [Setting(v, true)], [], false);
      Decided(c, slots, force) == Proceed(false) && Effective(After(c, Proceed(false))) == Some(Setting(v, true))
  {
    var ss := [Setting(v, true)];
    assert ss[..0] == [];
    assert Own(ss) == [];
  }
}
