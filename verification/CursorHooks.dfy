/** Cursor's `hooks.json`, whose handlers stand directly in the event list. */
module CursorHooks {
  import opened Json
  import opened CodexConfig
  import opened CommandWords

  datatype State = Malformed | ManagedCurrent | ReleasedOutdated | Foreign | Absent

  const EVENT := "preToolUse"
  const MARK_KEY := "javi-forge-managed"

  /** The container's own marks: what it is managed by, and in which version. */
  datatype Marks = Marks(marker: Value, version: Value)

  predicate IsOurs(h: Value, ours: string -> bool) {
    h.Obj? && "command" in h.fields && h.fields["command"].Str? && ours(h.fields["command"].s)
  }

  /** preToolUseHandlers is null for these. */
  predicate Unreadable(v: Value) {
    || !v.Obj?
    || (Has(v, "hooks") && !v.fields["hooks"].Obj?)
    || (HooksHas(v, EVENT) && !v.fields["hooks"].fields[EVENT].Arr?)
    || exists g :: g in Groups(v, EVENT) && !g.Obj?
  }

  /** The container carries the marks. */
  predicate IsMarked(v: Value, marks: Marks) {
    && Has(v, MARK_KEY) && v.fields[MARK_KEY] == marks.marker
    && Has(v, "version") && v.fields["version"] == marks.version
  }

  /** classifyCursorHooksJson; `hook` is the managed handler for the policy file. */
  function Classify(v: Value, hook: Value, marks: Marks, ours: string -> bool): State {
    if Unreadable(v) then Malformed
    else
      var handlers := Groups(v, EVENT);
      if (exists h :: h in handlers && IsOurs(h, ours) && h == hook) && IsMarked(v, marks) then ManagedCurrent
      else if exists h :: h in handlers && IsOurs(h, ours) then ReleasedOutdated
      else if handlers != [] then Foreign
      else Absent
  }

  function Foreigners(hs: seq<Value>, ours: string -> bool): seq<Value> {
    if hs == [] then []
    else Foreigners(hs[..|hs| - 1], ours) + if IsOurs(hs[|hs| - 1], ours) then [] else [hs[|hs| - 1]]
  }

  /** mergeCursorHooks. */
  function Merged(v: Value, hook: Value, marks: Marks, ours: string -> bool): Value {
    var fields := if v.Obj? then v.fields else map[];
    var hooks := if "hooks" in fields && fields["hooks"].Obj? then fields["hooks"].fields else map[];
    var kept := Foreigners(if EVENT in hooks && hooks[EVENT].Arr? then hooks[EVENT].items else [], ours);
    var events := Obj(hooks[EVENT := Arr(kept + [hook])]);
    Obj(fields["hooks" := events][MARK_KEY := marks.marker]["version" := marks.version])
  }

  /** For every container: each of the five states. Marks that are missing or of another version make
      a managed handler outdated, and so does any change to it that leaves its command recognised. */
  lemma ClassifyExactly(v: Value, hook: Value, marks: Marks, ours: string -> bool)
    ensures
      var s, hs := Classify(v, hook, marks, ours), Groups(v, EVENT);
      && (s == Malformed <==> Unreadable(v))
      && (s == Absent <==> !Unreadable(v) && hs == [])
      && (s == Foreign <==> !Unreadable(v) && hs != [] && Foreigners(hs, ours) == hs)
      && (s == ManagedCurrent <==> !Unreadable(v) && IsOurs(hook, ours) && hook in hs && IsMarked(v, marks))
      && (s == ReleasedOutdated <==>
            && !Unreadable(v) && Foreigners(hs, ours) != hs
            && (IsOurs(hook, ours) && hook in hs ==> !IsMarked(v, marks)))
  {
    hide Unreadable, Groups, IsOurs;
    var hs := Groups(v, EVENT);
    ForeignersMean(hs, ours);
    assert hs != [] ==> hs[0] in hs;
    if forall h :: h in hs ==> !IsOurs(h, ours) { AllForeign(hs, ours); }
  }

  lemma {:induction false} AllForeign(hs: seq<Value>, ours: string -> bool)
    requires forall h :: h in hs ==> !IsOurs(h, ours)
    ensures Foreigners(hs, ours) == hs
  {
    hide IsOurs;
    if hs != [] {
      AllForeign(hs[..|hs| - 1], ours);
      assert hs == hs[..|hs| - 1] + [hs[|hs| - 1]];
    }
  }

  /** A list is read exactly when it is missing or all of it are objects, in a `hooks` that is missing
      or an object. */
  lemma ReadableExactly(v: Value)
    ensures
      !Unreadable(v) <==>
        v.Obj? && ("hooks" in v.fields ==>
          var hooks := v.fields["hooks"];
          hooks.Obj? && (EVENT in hooks.fields ==>
            var list := hooks.fields[EVENT];
            list.Arr? && forall i :: 0 <= i < |list.items| ==> list.items[i].Obj?))
  {
  }

  /** A merge keeps what an object has beside `hooks` and the marks, all other events of its `hooks`, and
      sets both marks. */
  lemma MergeKeepsFields(v: Value, hook: Value, marks: Marks, ours: string -> bool)
    ensures
      var w := Merged(v, hook, marks, ours);
      var set_ := {"hooks", MARK_KEY, "version"};
      && w.Obj? && w.fields - set_ == (if v.Obj? then v.fields - set_ else map[])
      && IsMarked(w, marks) && Has(w, "hooks") && w.fields["hooks"].Obj?
      && w.fields["hooks"].fields - {EVENT} ==
         (if Has(v, "hooks") && v.fields["hooks"].Obj? then v.fields["hooks"].fields - {EVENT} else map[])
  {
    hide Foreigners;
  }

  lemma {:induction false} ForeignersMean(hs: seq<Value>, ours: string -> bool)
    ensures forall h :: h in Foreigners(hs, ours) <==> h in hs && !IsOurs(h, ours)
  {
    hide IsOurs;
    if hs != [] {
      ForeignersMean(hs[..|hs| - 1], ours);
      assert hs == hs[..|hs| - 1] + [hs[|hs| - 1]];
    }
  }

  lemma {:induction false} ForeignersAgain(hs: seq<Value>, ours: string -> bool)
    ensures Foreigners(Foreigners(hs, ours), ours) == Foreigners(hs, ours)
  {
    hide IsOurs;
    if hs != [] {
      var front := Foreigners(hs[..|hs| - 1], ours);
      ForeignersAgain(hs[..|hs| - 1], ours);
      assert front + [] == front;
      assert (front + [hs[|hs| - 1]])[..|front|] == front;
    }
  }

  /** A merge keeps the foreign handlers in order and appends the managed one; the container is then
      current exactly when the pattern recognises the managed command and every other handler kept is
      an object. Merging again changes nothing exactly when the pattern recognises it; otherwise it
      appends another copy. */
  lemma MergeMeans(v: Value, hook: Value, marks: Marks, ours: string -> bool)
    requires hook.Obj? && "command" in hook.fields && hook.fields["command"].Str?
    ensures
      var w := Merged(v, hook, marks, ours);
      var u := Merged(w, hook, marks, ours);
      var recognised := ours(hook.fields["command"].s);
      && Groups(w, EVENT) == Foreigners(Groups(v, EVENT), ours) + [hook]
      && (Classify(w, hook, marks, ours) == ManagedCurrent <==>
            recognised && forall g :: g in Groups(v, EVENT) ==> g.Obj?)
      && (u == w <==> recognised)
      && (!recognised ==> Groups(u, EVENT) == Groups(w, EVENT) + [hook])
  {
    hide Foreigners, Unreadable;
    var w := Merged(v, hook, marks, ours);
    var kept := Foreigners(Groups(v, EVENT), ours);
    ForeignersMean(Groups(v, EVENT), ours);
    ForeignersAgain(Groups(v, EVENT), ours);
    assert Groups(w, EVENT) == kept + [hook];
    assert (kept + [hook])[|kept|] == hook;
    ReadableWhen(v, hook, marks, ours);
    OneMore(kept, hook, ours);
    assert Groups(Merged(w, hook, marks, ours), EVENT) == Foreigners(kept + [hook], ours) + [hook];
    if ours(hook.fields["command"].s) { SameAgain(w, hook, marks, ours); }
  }

  lemma OneMore(kept: seq<Value>, hook: Value, ours: string -> bool)
    ensures Foreigners(kept + [hook], ours) == Foreigners(kept, ours) + if IsOurs(hook, ours) then [] else [hook]
  {
    assert (kept + [hook])[..|kept|] == kept;
  }

  lemma ReadableWhen(v: Value, hook: Value, marks: Marks, ours: string -> bool)
    requires hook.Obj?
    ensures !Unreadable(Merged(v, hook, marks, ours)) <==> forall g :: g in Groups(v, EVENT) ==> g.Obj?
  {
    hide Foreigners;
    ForeignersMean(Groups(v, EVENT), ours);
    var w := Merged(v, hook, marks, ours);
    assert Groups(w, EVENT) == Foreigners(Groups(v, EVENT), ours) + [hook];
    assert HooksHas(w, EVENT);
  }

  lemma SameAgain(w: Value, hook: Value, marks: Marks, ours: string -> bool)
    requires HooksHas(w, EVENT) && w.fields["hooks"].fields[EVENT].Arr?
    requires Foreigners(Groups(w, EVENT), ours) + [hook] == Groups(w, EVENT)
    requires IsMarked(w, marks)
    ensures Merged(w, hook, marks, ours) == w
  {
    hide Foreigners;
    var hooks := w.fields["hooks"].fields;
    assert hooks[EVENT := Arr(Groups(w, EVENT))] == hooks;
    assert w.fields["hooks" := Obj(hooks)][MARK_KEY := marks.marker]["version" := marks.version] == w.fields;
  }

  // ---- The command --------------------------------------------------------

  const NODE := "node"
  const NAME := "javi-forge-skillguard-pre-tool-use.mjs"
  const ARG := "--agent=cursor"

  /** One lower-case hexadecimal digit. */
  function HexChar(n: nat): char
    requires n < 16
  {
    if n < 10 then ('0' as int + n) as char else ('a' as int + n - 10) as char
  }

  /** What JSON.stringify writes for one character of a string. */
  function EscapedChar(c: char): string {
    if c == '"' then "\\\"" else if c == '\\' then "\\\\"
    else if c == '\n' then "\\n" else if c == '\t' then "\\t" else if c == '\r' then "\\r"
    else if c as int == 8 then "\\b" else if c as int == 12 then "\\f"
    else if c < ' ' then "\\u00" + [HexChar(c as int / 16), HexChar(c as int % 16)]
    else [c]
  }

  function Escaped(s: string): string {
    if s == "" then "" else EscapedChar(s[0]) + Escaped(s[1..])
  }

  function Quote(s: string): string {
    "\"" + s + "\""
  }

  /** expectedCursorCommand for a Node executable and the policy file `dir + NAME`. */
  function Command(exec: string, dir: string): string {
    Quote(Escaped(exec)) + " " + Quote(Escaped(dir) + NAME) + " " + ARG
  }

  /** buildCursorHook. */
  function ManagedHook(exec: string, dir: string): Value {
    Obj(map["command" := Str(Command(exec, dir)), "type" := Str("command"),
            "matcher" := Str("Shell|Read|Write|Delete"), "timeout" := Num(30), "failClosed" := Bool(true)])
  }

  // ---- The pattern --------------------------------------------------------

  /** From `i` to `e`: a quoted text with no quote inside. */
  predicate Quoted(s: string, i: nat, e: nat) {
    i + 2 <= e <= |s| && s[i] == '"' && s[e - 1] == '"' && '"' !in s[i + 1..e - 1]
  }

  /** The executable: a quoted text that holds `node`, or bare `node`. */
  predicate IsExec(s: string, i: nat, e: nat) {
    || (Quoted(s, i, e) && Contains(s[i + 1..e - 1], NODE))
    || (e == i + |NODE| && OccursAt(s, NODE, i))
  }

  /** The policy file: a quoted text or a bare one without white space that ends in its name. */
  predicate IsPolicy(s: string, j: nat, f: nat) {
    || (Quoted(s, j, f) && EndsWith(s[j + 1..f - 1], NAME))
    || (j <= f <= |s| && NoSpace(s[j..f]) && EndsWith(s[j..f], NAME))
  }

  predicate MatchesAt(s: string, i: nat, e: nat, j: nat, f: nat, l: nat) {
    && IsExec(s, i, e) && (i == 0 || IsSpace(s[i - 1]))
    && e < j <= |s| && AllSpace(s[e..j])
    && IsPolicy(s, j, f)
    && f < l <= |s| && AllSpace(s[f..l])
    && OccursAt(s, ARG, l) && (l + |ARG| == |s| || IsSpace(s[l + |ARG|]))
  }

  ghost predicate Recognised(s: string) {
    exists i: nat, e: nat, j: nat, f: nat, l: nat :: MatchesAt(s, i, e, j, f, l)
  }

  /** The policy path itself holds a whole bare command between white space. */
  ghost predicate HoldsCommand(p: string) {
    exists i: nat, j: nat, f: nat, l: nat :: HoldsAt(p, i, j, f, l)
  }

  predicate HoldsAt(p: string, i: nat, j: nat, f: nat, l: nat) {
    && 1 <= i && OccursAt(p, NODE, i) && IsSpace(p[i - 1])
    && i + |NODE| < j <= f <= |p| && AllSpace(p[i + |NODE|..j])
    && NoSpace(p[j..f]) && EndsWith(p[j..f], NAME)
    && f < l <= |p| && AllSpace(p[f..l])
    && OccursAt(p, ARG, l) && l + |ARG| < |p| && IsSpace(p[l + |ARG|])
  }

  // ---- Where the quotes are -----------------------------------------------

  predicate NoQuote(s: string) {
    '"' !in s
  }

  lemma {:induction false} EscapedHasNoQuote(s: string)
    requires NoQuote(s)
    ensures NoQuote(Escaped(s))
  {
    if s != "" {
      EscapedHasNoQuote(s[1..]);
      assert s[0] in s && forall c :: c in s[1..] ==> c in s;
      assert '"' !in EscapedChar(s[0]);
    }
  }

  /** The command line of two quoted texts. */
  function Line(e: string, p: string): string {
    Quote(e) + " " + Quote(p) + " " + ARG
  }

  /** In `s` the quotes are at 0, `q1`, `q2` and `q3`, with `e` and `p` between them, and a blank before
      the second and after the last part. */
  ghost predicate Laid(s: string, e: string, p: string, q1: nat, q2: nat, q3: nat) {
    && q1 == |e| + 1 && q2 == q1 + 2 && q3 == q2 + 1 + |p| && |s| == q3 + 2 + |ARG|
    && (forall x :: 0 <= x < |s| ==> (s[x] == '"' <==> x == 0 || x == q1 || x == q2 || x == q3))
    && s[q1 + 1] == ' ' && s[q3 + 1] == ' '
    && s[1..q1] == e && s[q2 + 1..q3] == p && s[q3 + 2..] == ARG
  }

  lemma LineIsLaid(e: string, p: string)
    requires NoQuote(e) && NoQuote(p)
    ensures Laid(Line(e, p), e, p, |e| + 1, |e| + 3, |e| + 4 + |p|)
  {
    hide NoQuote;
    var s, q1, q2 := Line(e, p), |e| + 1, |e| + 3;
    var q3 := q2 + 1 + |p|;
    var open, mid, close := "\"", "\" \"", "\" ";
    LineInPieces(e, p);
    Pieces(open, e, mid, p, close, ARG, "", "");
    assert s == open + e + mid + p + close + ARG + "" + "";
    assert NoQuote(ARG) by { QuoteFreeArg(); }
    assert s[..1][0] == s[0] && s[q1..q2 + 1] == mid && s[q3..q3 + 2] == close;
    assert s[q1..q2 + 1][0] == s[q1] && s[q1..q2 + 1][1] == s[q1 + 1] && s[q1..q2 + 1][2] == s[q2];
    assert s[q3..q3 + 2][0] == s[q3] && s[q3..q3 + 2][1] == s[q3 + 1];
    forall x | 0 <= x < |s| ensures s[x] == '"' <==> x == 0 || x == q1 || x == q2 || x == q3 {
      if 1 <= x < q1 {
        NoQuoteAt(s, 1, q1, e, x);
      } else if q2 < x < q3 {
        NoQuoteAt(s, q2 + 1, q3, p, x);
      } else if q3 + 2 <= x {
        assert s[q3 + 2..q3 + 2 + |ARG|] == ARG;
        NoQuoteAt(s, q3 + 2, |s|, ARG, x);
      }
    }
  }

  lemma NoQuoteAt(s: string, i: nat, j: nat, part: string, x: nat)
    requires i <= x < j <= |s| && s[i..j] == part && NoQuote(part)
    ensures s[x] != '"'
  {
    assert s[i..j][x - i] == s[x] && s[x] in part;
  }

  lemma QuoteFreeArg()
    ensures NoQuote(ARG)
  {
  }

  lemma LineInPieces(e: string, p: string)
    ensures Line(e, p) == "\"" + e + "\" \"" + p + "\" " + ARG + "" + ""
  {
    var x, y := "\"" + e, p + "\"";
    assert "\" \"" == "\"" + " " + "\"" && "\" " == "\"" + " ";
    assert Line(e, p) == x + "\"" + " " + "\"" + y + " " + ARG;
    assert x + "\" \"" == x + "\"" + " " + "\"";
  }

  // ---- What the pattern finds in it ---------------------------------------

  /** A quoted text lies between neighbouring quotes. */
  lemma QuotedIs(s: string, e: string, p: string, q1: nat, q2: nat, q3: nat, i: nat, f: nat)
    requires Laid(s, e, p, q1, q2, q3) && Quoted(s, i, f)
    ensures (i == 0 && f == q1 + 1) || (i == q1 && f == q2 + 1) || (i == q2 && f == q3 + 1)
  {
    forall x | i < x < f - 1 ensures s[x] != '"' {
      assert s[x] == s[i + 1..f - 1][x - i - 1];
    }
    assert s[q1] == s[q2] == s[q3] == s[i] == s[f - 1] == '"';
  }

  lemma NodeIs(s: string, i: nat)
    requires OccursAt(s, NODE, i)
    ensures i + 4 <= |s| && s[i] == 'n' && forall x :: i <= x < i + 4 ==> s[x] != '"' && !IsSpace(s[x])
  {
    assert forall x :: i <= x < i + 4 ==> s[x] == s[i..i + |NODE|][x - i];
  }

  lemma NodeNeedsFour(t: string)
    requires Contains(t, NODE)
    ensures |t| >= 4
  {
  }

  lemma OccursWithin(s: string, i: nat, j: nat, part: string, at: nat)
    requires j <= |s| && OccursAt(s, part, at) && i <= at && at + |part| <= j
    ensures OccursAt(s[i..j], part, at - i)
  {
    SliceOfSlice(s, i, j, at - i, at - i + |part|);
  }

  lemma ArgHasNoSpace()
    ensures NoSpace(ARG) && NoSpace(NODE) && |NODE| == 4
  {
  }

  /** The executable part is the first quoted text, or the second, or bare inside the second. */
  lemma ExecIs(s: string, e: string, p: string, q1: nat, q2: nat, q3: nat, i: nat, f: nat)
    requires Laid(s, e, p, q1, q2, q3) && IsExec(s, i, f) && (i == 0 || IsSpace(s[i - 1]))
    ensures Contains(e, NODE) || (i == q2 && f == q3 + 1) || (q2 + 2 <= i && f == i + 4 <= q3 && OccursAt(s, NODE, i))
  {
    hide IsSpace;
    if Quoted(s, i, f) && Contains(s[i + 1..f - 1], NODE) {
      QuotedIs(s, e, p, q1, q2, q3, i, f);
      NodeNeedsFour(s[i + 1..f - 1]);
    } else {
      NodeIs(s, i);
      BlankIsSpace();
      ArgHasNoSpace();
      assert s[0] == s[q1] == s[q2] == s[q3] == '"' && s[i + 1] != '"';
      SpacesWithin(s, q3 + 2, |s|);
      assert s[q3 + 2] == s[q3 + 2..][0];
      assert s[q3 + 2..|s|] == ARG;
      if i < q1 {
        OccursWithin(s, 1, q1, NODE, i);
      }
    }
  }

  lemma BlankIsSpace()
    ensures IsSpace(' ') && !IsSpace('"') && !IsSpace('-')
  {
  }

  /** Behind the second quoted text no policy file follows. */
  lemma NothingAfter(s: string, e: string, p: string, q1: nat, q2: nat, q3: nat, j: nat, f: nat)
    requires Laid(s, e, p, q1, q2, q3) && q3 + 1 < j <= |s| && AllSpace(s[q3 + 1..j])
    ensures !IsPolicy(s, j, f)
  {
    hide IsSpace;
    BlankIsSpace();
    SpacesWithin(s, q3 + 1, j);
    assert s[q3 + 2] == s[q3 + 2..][0] == '-';
    assert j == q3 + 2;
    assert |NAME| > |ARG|;
  }

  /** Bare inside the second quoted text, the policy file and the argument are inside it too. */
  lemma RestInside(s: string, e: string, p: string, q1: nat, q2: nat, q3: nat, i: nat, j: nat, f: nat, l: nat)
    requires Laid(s, e, p, q1, q2, q3) && MatchesAt(s, i, i + 4, j, f, l)
    requires q2 + 2 <= i && i + 4 <= q3 && OccursAt(s, NODE, i)
    ensures HoldsCommand(p)
  {
    hide IsSpace, EndsWith, IsPolicy, IsExec;
    BlankIsSpace();
    SpacesWithin(s, i + 4, j);
    SpacesWithin(s, f, l);
    assert s[q3] == '"' && j <= q3;
    PolicyInside(s, e, p, q1, q2, q3, j, f);
    assert IsSpace(s[f]) && f < q3 && l <= q3;
    ArgInside(s, e, p, q1, q2, q3, l);
    Carried(s, p, q2 + 1, q3, i, j, f, l);
  }

  /** A bare command inside a slice is one of the slice. */
  lemma Carried(s: string, p: string, o: nat, q: nat, i: nat, j: nat, f: nat, l: nat)
    requires o <= q <= |s| && s[o..q] == p && l + |ARG| < q
    requires o < i && OccursAt(s, NODE, i) && IsSpace(s[i - 1]) && i + 4 < j <= f < l && AllSpace(s[i + 4..j])
    requires NoSpace(s[j..f]) && EndsWith(s[j..f], NAME) && AllSpace(s[f..l])
    requires OccursAt(s, ARG, l) && IsSpace(s[l + |ARG|])
    ensures HoldsCommand(p)
  {
    hide IsSpace, EndsWith, NoSpace, AllSpace;
    OccursWithin(s, o, q, NODE, i);
    OccursWithin(s, o, q, ARG, l);
    SliceOfSlice(s, o, q, i + 4 - o, j - o);
    SliceOfSlice(s, o, q, j - o, f - o);
    SliceOfSlice(s, o, q, f - o, l - o);
    assert p[i - o - 1] == s[i - 1] && p[l + |ARG| - o] == s[l + |ARG|];
    assert HoldsAt(p, i - o, j - o, f - o, l - o);
  }

  lemma PolicyInside(s: string, e: string, p: string, q1: nat, q2: nat, q3: nat, j: nat, f: nat)
    requires Laid(s, e, p, q1, q2, q3) && q2 < j <= q3 && IsPolicy(s, j, f) && f < |s| && IsSpace(s[f])
    ensures j <= f <= q3 && NoSpace(s[j..f]) && EndsWith(s[j..f], NAME)
  {
    hide IsSpace;
    BlankIsSpace();
    assert s[q3] == '"' && s[q1] == '"' && s[q2] == '"';
    if Quoted(s, j, f) {
      QuotedIs(s, e, p, q1, q2, q3, j, f);
    } else {
      SpacesWithin(s, j, f);
      assert f <= q3 + 1;
      assert s[f - 1] == s[j..f][f - j - 1] == NAME[|NAME| - 1];
    }
  }

  lemma ArgInside(s: string, e: string, p: string, q1: nat, q2: nat, q3: nat, l: nat)
    requires Laid(s, e, p, q1, q2, q3) && q2 < l <= q3 && OccursAt(s, ARG, l)
    requires l + |ARG| == |s| || IsSpace(s[l + |ARG|])
    ensures l + |ARG| < q3
  {
    hide IsSpace;
    BlankIsSpace();
    QuoteFreeArg();
    assert s[q3] == '"';
    forall x | l <= x < l + |ARG| ensures s[x] != '"' {
      NoQuoteAt(s, l, l + |ARG|, ARG, x);
    }
  }

  /** For every executable and policy path without quotes in them: the pattern recognises the installed
      command exactly when `node` occurs in the executable as it is written into the command, or the
      policy path itself holds a whole command. */
  lemma RecognisedExactly(exec: string, dir: string)
    requires NoQuote(exec) && NoQuote(dir)
    ensures Recognised(Command(exec, dir)) <==> Contains(Escaped(exec), NODE) || HoldsCommand(Escaped(dir) + NAME)
  {
    hide Escaped, MatchesAt, NoQuote, Laid, HoldsCommand, Contains, Recognised;
    var e, p := Escaped(exec), Escaped(dir) + NAME;
    EscapedHasNoQuote(exec);
    EscapedHasNoQuote(dir);
    NameHasNoQuote(Escaped(dir));
    LineIsLaid(e, p);
    LineRecognised(e, p);
  }

  lemma NameHasNoQuote(s: string)
    requires NoQuote(s)
    ensures NoQuote(s + NAME)
  {
    assert NoQuote(NAME);
  }

  lemma LineRecognised(e: string, p: string)
    requires NoQuote(e) && NoQuote(p) && EndsWith(p, NAME)
    ensures Recognised(Line(e, p)) <==> Contains(e, NODE) || HoldsCommand(p)
  {
    hide MatchesAt, NoQuote, Laid, HoldsCommand, Contains, HoldsAt, EndsWith;
    var s, q1, q2, q3 := Line(e, p), |e| + 1, |e| + 3, |e| + 4 + |p|;
    LineIsLaid(e, p);
    if i: nat, f: nat, j: nat, g: nat, l: nat :| MatchesAt(s, i, f, j, g, l) {
      MatchMeans(s, e, p, q1, q2, q3, i, f, j, g, l);
    }
    if Contains(e, NODE) { WholeMatches(s, e, p, q1, q2, q3); }
    if HoldsCommand(p) { InnerMatches(s, e, p, q1, q2, q3); }
  }

  lemma MatchMeans(s: string, e: string, p: string, q1: nat, q2: nat, q3: nat, i: nat, f: nat, j: nat, g: nat, l: nat)
    requires Laid(s, e, p, q1, q2, q3) && MatchesAt(s, i, f, j, g, l)
    ensures Contains(e, NODE) || HoldsCommand(p)
  {
    hide IsSpace, Contains, HoldsCommand, IsPolicy, Laid;
    ExecIs(s, e, p, q1, q2, q3, i, f);
    if i == q2 && f == q3 + 1 {
      NothingAfter(s, e, p, q1, q2, q3, j, g);
    } else if !Contains(e, NODE) {
      RestInside(s, e, p, q1, q2, q3, i, j, g, l);
    }
  }

  lemma WholeMatches(s: string, e: string, p: string, q1: nat, q2: nat, q3: nat)
    requires Laid(s, e, p, q1, q2, q3) && Contains(e, NODE) && EndsWith(p, NAME)
    ensures Recognised(s)
  {
    hide IsSpace, Contains, EndsWith;
    BlankIsSpace();
    SpacesWithin(s, q1 + 1, q2);
    SpacesWithin(s, q3 + 1, q3 + 2);
    assert s[0] == s[q1] == s[q2] == s[q3] == '"';
    BetweenQuotes(s, e, p, q1, q2, q3);
    assert s[q3 + 2..q3 + 2 + |ARG|] == s[q3 + 2..];
    assert MatchesAt(s, 0, q1 + 1, q2, q3 + 1, q3 + 2);
  }

  lemma BetweenQuotes(s: string, e: string, p: string, q1: nat, q2: nat, q3: nat)
    requires Laid(s, e, p, q1, q2, q3)
    ensures Quoted(s, 0, q1 + 1) && Quoted(s, q2, q3 + 1)
  {
    assert forall x :: 0 <= x < |e| ==> e[x] == s[1 + x];
    assert forall x :: 0 <= x < |p| ==> p[x] == s[q2 + 1 + x];
  }

  lemma InnerMatches(s: string, e: string, p: string, q1: nat, q2: nat, q3: nat)
    requires Laid(s, e, p, q1, q2, q3) && HoldsCommand(p)
    ensures Recognised(s)
  {
    hide IsSpace, HoldsAt, Recognised;
    var i: nat, j: nat, f: nat, l: nat :| HoldsAt(p, i, j, f, l);
    InnerAt(s, p, q2 + 1, q3, i, j, f, l);
  }

  lemma InnerAt(s: string, p: string, o: nat, q: nat, i: nat, j: nat, f: nat, l: nat)
    requires o <= q <= |s| && s[o..q] == p && HoldsAt(p, i, j, f, l)
    ensures Recognised(s)
  {
    hide IsSpace, EndsWith, AllSpace, NoSpace;
    SliceOfSlice(s, o, q, i, i + 4);
    SliceOfSlice(s, o, q, i + 4, j);
    SliceOfSlice(s, o, q, j, f);
    SliceOfSlice(s, o, q, f, l);
    SliceOfSlice(s, o, q, l, l + |ARG|);
    assert p[i - 1] == s[o + i - 1] && p[l + |ARG|] == s[o + l + |ARG|];
    assert IsExec(s, o + i, o + i + 4) && IsPolicy(s, o + j, o + f);
    assert MatchesAt(s, o + i, o + i + 4, o + j, o + f, o + l);
  }

  // ---- When an install converges ------------------------------------------

  /** Without control characters, `node` occurs in what is written exactly when it occurs in the path. */
  lemma {:induction false} EscapedKeepsNode(s: string)
    requires forall c :: c in s ==> c >= ' '
    ensures Contains(Escaped(s), NODE) <==> Contains(s, NODE)
  {
    hide Contains, Escaped, StartsOde;
    if s == "" {
      EscapedFirst(s);
    } else {
      var c, rest := s[0], s[1..];
      assert s == [c] + rest && c in s;
      assert forall d :: d in rest ==> d in s;
      EscapedKeepsNode(rest);
      EscapedStarts(rest);
      EscapedCons(s);
      ContainsCons(c, rest);
      ContainsCons(c, Escaped(rest));
      ContainsCons('\\', [c] + Escaped(rest));
      assert [] + ([c] + Escaped(rest)) == [c] + Escaped(rest);
    }
  }

  lemma EscapedCons(s: string)
    requires s != "" && s[0] >= ' '
    ensures Escaped(s) == (if s[0] == '"' || s[0] == '\\' then ['\\'] else []) + ([s[0]] + Escaped(s[1..]))
  {
    hide Escaped, EscapedChar;
    PrintedChar(s[0]);
    EscapedIs(s);
  }

  lemma EscapedIs(s: string)
    requires s != ""
    ensures Escaped(s) == EscapedChar(s[0]) + Escaped(s[1..])
  {
    hide EscapedChar;
  }

  lemma PrintedChar(c: char)
    requires c >= ' '
    ensures EscapedChar(c) == (if c == '"' || c == '\\' then ['\\'] else []) + [c]
  {
  }

  predicate StartsOde(s: string) {
    |s| >= 3 && s[0] == 'o' && s[1] == 'd' && s[2] == 'e'
  }

  lemma ContainsCons(c: char, s: string)
    ensures Contains([c] + s, NODE) <==> Contains(s, NODE) || (c == 'n' && StartsOde(s))
  {
    var t := [c] + s;
    if i :| 0 <= i <= |t| && OccursAt(t, NODE, i) && i > 0 {
      assert t[i..i + 4] == s[i - 1..i + 3];
      assert OccursAt(s, NODE, i - 1);
    }
    if i :| 0 <= i <= |s| && OccursAt(s, NODE, i) {
      assert t[i + 1..i + 5] == s[i..i + 4];
      assert OccursAt(t, NODE, i + 1);
    }
    if OccursAt(t, NODE, 0) {
      assert t[0] == t[0..4][0] && t[1] == t[0..4][1] && t[2] == t[0..4][2] && t[3] == t[0..4][3];
    }
    if c == 'n' && StartsOde(s) {
      assert t[0..4] == NODE;
      assert OccursAt(t, NODE, 0);
    }
  }

  lemma EscapedStarts(s: string)
    requires forall c :: c in s ==> c >= ' '
    ensures StartsOde(Escaped(s)) <==> StartsOde(s)
  {
    hide Escaped;
    assert IsLetter('o') && IsLetter('d') && IsLetter('e');
    EscapedFirst(s);
    if s != "" && s[0] == 'o' {
      var t := s[1..];
      EscapedFirst(t);
      assert t != "" ==> Escaped(s)[1] == Escaped(t)[0];
      if t != "" && t[0] == 'd' {
        EscapedFirst(t[1..]);
        assert t[1..] != "" ==> Escaped(s)[2] == Escaped(t)[1] == Escaped(t[1..])[0];
      }
    }
  }

  predicate IsLetter(c: char) {
    'a' <= c <= 'z'
  }

  /** A letter is written as itself, and nothing else is written starting with one. */
  lemma EscapedFirst(s: string)
    ensures s == "" ==> Escaped(s) == ""
    ensures s != "" ==> Escaped(s) != "" && forall c :: IsLetter(c) ==> (Escaped(s)[0] == c <==> s[0] == c)
    ensures s != "" && IsLetter(s[0]) ==> Escaped(s)[1..] == Escaped(s[1..])
  {
  }

  ghost function Pattern(): string -> bool {
    s => Recognised(s)
  }

  /** With the source's own pattern, for every container and quote-free executable and policy path: the
      install is current, over entries that are objects, and stable exactly under the stated condition;
      otherwise it is not recognised and every further install appends a copy. */
  lemma InstallConvergesExactly(v: Value, exec: string, dir: string, marks: Marks)
    requires NoQuote(exec) && NoQuote(dir)
    ensures
      var hook, ours := ManagedHook(exec, dir), Pattern();
      var w := Merged(v, hook, marks, ours);
      var u := Merged(w, hook, marks, ours);
      if Contains(Escaped(exec), NODE) || HoldsCommand(Escaped(dir) + NAME) then
        u == w && (Classify(w, hook, marks, ours) == ManagedCurrent <==> forall g :: g in Groups(v, EVENT) ==> g.Obj?)
      else
        Classify(w, hook, marks, ours) != ManagedCurrent && Groups(u, EVENT) == Groups(w, EVENT) + [hook]
  {
    hide Merged, Classify, Groups, Recognised, Contains, HoldsCommand, Escaped;
    RecognisedExactly(exec, dir);
    HookHasCommand(exec, dir);
    MergeMeans(v, ManagedHook(exec, dir), marks, Pattern());
  }

  lemma HookHasCommand(exec: string, dir: string)
    ensures var h := ManagedHook(exec, dir);
            h.Obj? && "command" in h.fields && h.fields["command"] == Str(Command(exec, dir))
  {
  }

  /** A policy path that does not hold the argument holds no command: what is left is the executable. */
  lemma PlainPolicy(p: string)
    requires !Contains(p, ARG)
    ensures !HoldsCommand(p)
  {
    forall i: nat, j: nat, f: nat, l: nat ensures !HoldsAt(p, i, j, f, l) {
      assert l <= |p| ==> !OccursAt(p, ARG, l);
    }
  }

  /** On ordinary paths the condition is the name of the executable. */
  lemma RecognisedByName(exec: string, dir: string)
    requires NoQuote(exec) && NoQuote(dir) && forall c :: c in exec ==> c >= ' '
    requires !Contains(Escaped(dir) + NAME, ARG)
    ensures Recognised(Command(exec, dir)) <==> Contains(exec, NODE)
  {
    hide Recognised, Contains, HoldsCommand, Escaped;
    RecognisedExactly(exec, dir);
    EscapedKeepsNode(exec);
    PlainPolicy(Escaped(dir) + NAME);
  }

  /** One executable for which it fails, under every policy path without the argument. */
  const BUN := "/usr/local/bin/bun"

  lemma BunDiverges(v: Value, dir: string, marks: Marks)
    requires NoQuote(dir) && !Contains(Escaped(dir) + NAME, ARG)
    ensures
      var hook, ours := ManagedHook(BUN, dir), Pattern();
      var w := Merged(v, hook, marks, ours);
      && Classify(w, hook, marks, ours) != ManagedCurrent
      && Groups(Merged(w, hook, marks, ours), EVENT) == Groups(w, EVENT) + [hook]
  {
    hide Merged, Classify, Groups, Recognised, Contains, HoldsCommand, Escaped;
    BunIsNotNode();
    EscapedKeepsNode(BUN);
    PlainPolicy(Escaped(dir) + NAME);
    InstallConvergesExactly(v, BUN, dir, marks);
  }

  lemma BunIsNotNode()
    ensures !Contains(BUN, NODE) && NoQuote(BUN) && forall c :: c in BUN ==> c >= ' '
  {
    var s := BUN;
    assert 'd' !in s;
    forall i: nat | i <= |s| ensures !OccursAt(s, NODE, i) {
      if i + 4 <= |s| { NotAt(s, NODE, i, 2); }
    }
  }
}
