/**
 The line edits of Codex's `config.toml`: reading the `[features] hooks` flag,
 switching it on, and deleting the trust tables of our hooks file.
 */
module CodexConfig {
  import opened Wrappers
  import opened Lines

  // ---- Lines and the two patterns -----------------------------------------

  /** The white space of a JavaScript pattern, which `trim` removes as well. */
  predicate IsSpace(c: char) {
    || '\t' <= c <= '\r' || c == ' ' || c == '\U{A0}' || c == '\U{1680}' || '\U{2000}' <= c <= '\U{200A}'
    || c == '\U{2028}' || c == '\U{2029}' || c == '\U{202F}' || c == '\U{205F}' || c == '\U{3000}' || c == '\U{FEFF}'
  }

  /** Where a `.` of a pattern stops. */
  predicate EndsLine(c: char) {
    c == '\n' || c == '\r' || c == '\U{2028}' || c == '\U{2029}'
  }

  predicate IsWord(c: char) {
    'a' <= c <= 'z' || 'A' <= c <= 'Z' || '0' <= c <= '9' || c == '_'
  }

  function TrimLeft(s: string): (r: string)
    ensures |r| <= |s|
    ensures r != [] ==> !IsSpace(r[0])
    ensures s != [] && !IsSpace(s[0]) ==> r == s
  {
    if s != [] && IsSpace(s[0]) then TrimLeft(s[1..]) else s
  }

  function TrimRight(s: string): (r: string)
    ensures |r| <= |s|
    ensures s != [] && !IsSpace(s[|s| - 1]) ==> r == s
  {
    if s != [] && IsSpace(s[|s| - 1]) then TrimRight(s[..|s| - 1]) else s
  }

  function Trim(s: string): string {
    TrimRight(TrimLeft(s))
  }

  /** The first bracket of `s`, or its length. */
  function Bracket(s: string): (k: nat)
    ensures k <= |s|
    ensures forall j :: 0 <= j < k ==> s[j] != '[' && s[j] != ']'
    ensures k < |s| ==> s[k] == '[' || s[k] == ']'
  {
    if s == [] || s[0] == '[' || s[0] == ']' then 0 else 1 + Bracket(s[1..])
  }

  /** The trimmed name in a table header line, with an optional comment after it. */
  function Header(line: string): Option<string> {
    var s := TrimLeft(line);
    if s == [] || s[0] != '[' then None
    else
      var k := Bracket(s[1..]);
      if k == 0 || k == |s[1..]| || s[1..][k] == '[' then None
      else
        var after := TrimLeft(s[1..][k + 1..]);
        if after == [] || (after[0] == '#' && forall c :: c in after[1..] ==> !EndsLine(c))
        then Some(Trim(s[1..][..k])) else None
  }

  /** The flag in a line that starts `hooks = true` or `hooks = false`. */
  function HooksFlag(line: string): Option<bool> {
    var s := TrimLeft(line);
    if !("hooks" <= s) then None
    else
      var t := TrimLeft(s[5..]);
      if !("=" <= t) then None
      else
        var u := TrimLeft(t[1..]);
        if "true" <= u && (|u| == 4 || !IsWord(u[4])) then Some(true)
        else if "false" <= u && (|u| == 5 || !IsWord(u[5])) then Some(false)
        else None
  }

  const FEATURES := "[features]"
  const HOOKS_TRUE := "hooks = true"
  const TABLE := FEATURES + "\n" + HOOKS_TRUE + "\n"

  lemma PlainLines()
    ensures Header(FEATURES) == Some("features")
    ensures Header(HOOKS_TRUE).None? && HooksFlag(HOOKS_TRUE) == Some(true)
    ensures Header("").None?
  {
    hide Header, HooksFlag;
    HeaderOf("features");
    assert FEATURES == "[" + "features" + "]";
    FlagOn();
    NoBracketNoHeader(HOOKS_TRUE);
    NoBracketNoHeader("");
  }

  lemma NoBracketNoHeader(s: string)
    requires s == [] || (!IsSpace(s[0]) && s[0] != '[')
    ensures Header(s).None?
  {
    hide Bracket, Trim;
  }

  lemma FlagOn()
    ensures HooksFlag(HOOKS_TRUE) == Some(true)
  {
    hide TrimLeft;
    var s := HOOKS_TRUE;
    assert s[5..] == " " + "= true";
    assert "= true"[1..] == " " + "true";
    SkipOne("= true");
    SkipOne("true");
  }

  lemma SkipOne(s: string)
    requires s != [] && !IsSpace(s[0])
    ensures TrimLeft(" " + s) == s
  {
    assert (" " + s)[1..] == s;
  }

  /** A bare name between brackets is a header of that name. */
  lemma HeaderOf(name: string)
    requires name != [] && !IsSpace(name[0]) && !IsSpace(name[|name| - 1]) && '[' !in name && ']' !in name
    ensures Header("[" + name + "]") == Some(name)
  {
    var s := "[" + name + "]";
    assert s[1..] == name + "]";
    BracketAfter(name);
    assert s[1..][..|name|] == name && s[1..][|name| + 1..] == [];
  }

  lemma BracketAfter(name: string)
    requires '[' !in name && ']' !in name
    ensures Bracket(name + "]") == |name|
  {
    var s := name + "]";
    var k := Bracket(s);
    assert forall j :: 0 <= j < |name| ==> s[j] == name[j] && name[j] in name;
    assert s[|name|] == ']';
  }

  // ---- Which lines the patterns match -------------------------------------

  predicate AllSpace(s: string) {
    forall i :: 0 <= i < |s| ==> IsSpace(s[i])
  }

  /** No white space at either end. */
  predicate IsTrimmed(s: string) {
    s == "" || (!IsSpace(s[0]) && !IsSpace(s[|s| - 1]))
  }

  lemma {:induction false} TrimLeftIs(w: string, s: string)
    requires AllSpace(w) && (s == "" || !IsSpace(s[0]))
    ensures TrimLeft(w + s) == s
  {
    hide IsSpace;
    if w == "" {
      assert w + s == s;
    } else {
      TrimLeftIs(w[1..], s);
      assert (w + s)[0] == w[0] && (w + s)[1..] == w[1..] + s;
    }
  }

  lemma {:induction false} TrimLeftCuts(s: string)
    ensures var t := TrimLeft(s); s == s[..|s| - |t|] + t && AllSpace(s[..|s| - |t|])
  {
    hide IsSpace;
    if s != "" && IsSpace(s[0]) {
      TrimLeftCuts(s[1..]);
      var t := TrimLeft(s[1..]);
      assert s[..|s| - |t|] == [s[0]] + s[1..][..|s| - 1 - |t|];
    } else {
      assert s[..0] == "";
    }
  }

  lemma {:induction false} TrimRightCuts(s: string)
    ensures var t := TrimRight(s);
            t <= s && AllSpace(s[|t|..]) && (t != "" ==> !IsSpace(t[|t| - 1]))
  {
    hide IsSpace;
    if s != "" && IsSpace(s[|s| - 1]) {
      var front := s[..|s| - 1];
      TrimRightCuts(front);
      var t := TrimRight(front);
      assert s[|t|..] == front[|t|..] + [s[|s| - 1]];
    } else {
      assert s[|s|..] == "";
    }
  }

  /** Trimming takes white space off both ends, and all of it. */
  lemma TrimExactly(s: string)
    ensures IsTrimmed(Trim(s))
    ensures exists v, w :: AllSpace(v) && AllSpace(w) && s == v + Trim(s) + w
  {
    hide IsSpace, TrimLeft, TrimRight, AllSpace;
    var t := TrimLeft(s);
    var r := TrimRight(t);
    TrimLeftCuts(s);
    TrimRightCuts(t);
    Associate(s[..|s| - |t|], r, t[|r|..]);
    assert s == s[..|s| - |t|] + r + t[|r|..];
  }

  lemma Associate(a: string, b: string, c: string)
    ensures a + (b + c) == a + b + c
  {
  }

  lemma HeadAndTail(s: string, head: string)
    requires head <= s
    ensures s == head + s[|head|..]
  {
  }

  function FlagWord(b: bool): string {
    if b then "true" else "false"
  }

  /** The line is `hooks = true` or `hooks = false` with any white space in front and around the sign,
      and no word going on behind. */
  ghost predicate IsFlagLine(line: string, b: bool) {
    exists u, v, w, rest :: FlagLineAs(line, u, v, w, rest, b)
  }

  predicate FlagLineAs(line: string, u: string, v: string, w: string, rest: string, b: bool) {
    && AllSpace(u) && AllSpace(v) && AllSpace(w) && (rest == "" || !IsWord(rest[0]))
    && line == u + "hooks" + v + "=" + w + FlagWord(b) + rest
  }

  /** Exactly these lines set the flag, each to what it says. */
  lemma HooksFlagExactly(line: string, b: bool)
    ensures HooksFlag(line) == Some(b) <==> IsFlagLine(line, b)
  {
    hide IsSpace, IsWord, TrimLeft;
    if HooksFlag(line) == Some(b) {
      FlagFound(line, b);
    }
    if u, v, w, rest :| FlagLineAs(line, u, v, w, rest, b) { FlagRead(u, v, w, rest, b); }
  }

  lemma FlagFound(line: string, b: bool)
    requires HooksFlag(line) == Some(b)
    ensures IsFlagLine(line, b)
  {
    hide IsSpace, IsWord, TrimLeft, AllSpace, FlagWord, HooksFlag, IsFlagLine;
    FlagSteps(line, b);
    var u, s := Cut(line);
    var v, t := Cut(s[5..]);
    var w, x := Cut(t[1..]);
    FlagWords(x, b);
    var rest := x[|FlagWord(b)|..];
    HeadAndTail(s, "hooks");
    HeadAndTail(t, "=");
    HeadAndTail(x, FlagWord(b));
    FlagParts(line, u, s, v, t, w, x, FlagWord(b), rest);
    ThatLine(u, v, w, rest, b);
  }

  /** The white space in front, and what stays. */
  lemma Cut(s: string) returns (w: string, t: string)
    ensures t == TrimLeft(s) && s == w + t && AllSpace(w)
  {
    TrimLeftCuts(s);
    t := TrimLeft(s);
    w := s[..|s| - |t|];
  }

  lemma ThatLine(u: string, v: string, w: string, rest: string, b: bool)
    requires AllSpace(u) && AllSpace(v) && AllSpace(w) && (rest == "" || !IsWord(rest[0]))
    ensures IsFlagLine(u + "hooks" + v + "=" + w + FlagWord(b) + rest, b)
  {
    assert FlagLineAs(u + "hooks" + v + "=" + w + FlagWord(b) + rest, u, v, w, rest, b);
  }

  lemma FlagSteps(line: string, b: bool)
    requires HooksFlag(line) == Some(b)
    ensures
      var s := TrimLeft(line);
      "hooks" <= s &&
        var t := TrimLeft(s[5..]);
        "=" <= t &&
          var x := TrimLeft(t[1..]);
          if b then "true" <= x && (|x| == 4 || !IsWord(x[4]))
          else !("true" <= x && (|x| == 4 || !IsWord(x[4]))) && "false" <= x && (|x| == 5 || !IsWord(x[5]))
  {
    hide TrimLeft, IsWord;
  }

  lemma FlagWords(x: string, b: bool)
    requires if b then "true" <= x && (|x| == 4 || !IsWord(x[4]))
             else !("true" <= x && (|x| == 4 || !IsWord(x[4]))) && "false" <= x && (|x| == 5 || !IsWord(x[5]))
    ensures FlagWord(b) <= x && var rest := x[|FlagWord(b)|..]; rest == "" || !IsWord(rest[0])
  {
  }

  lemma FlagParts(line: string, u: string, s: string, v: string, t: string, w: string, x: string, word: string,
                  rest: string)
    requires line == u + s && s == "hooks" + (v + t) && t == "=" + (w + x) && x == word + rest
    ensures line == u + "hooks" + v + "=" + w + word + rest
  {
    Reassociate(u, "hooks", v, "=", w, word, rest);
  }

  lemma Reassociate(a: string, b: string, c: string, d: string, e: string, f: string, g: string)
    ensures a + (b + (c + (d + (e + (f + g))))) == a + b + c + d + e + f + g
  {
  }

  lemma FlagRead(u: string, v: string, w: string, rest: string, b: bool)
    requires AllSpace(u) && AllSpace(v) && AllSpace(w) && (rest == "" || !IsWord(rest[0]))
    ensures HooksFlag(u + "hooks" + v + "=" + w + FlagWord(b) + rest) == Some(b)
  {
    Letters();
    hide IsSpace, IsWord, TrimLeft, AllSpace;
    var line := u + "hooks" + v + "=" + w + FlagWord(b) + rest;
    Reassociate(u, "hooks", v, "=", w, FlagWord(b), rest);
    var x := FlagWord(b) + rest;
    var t := "=" + (w + x);
    var s := "hooks" + (v + t);
    assert x[0] == FlagWord(b)[0];
    TrimLeftIs(u, s);
    assert s[5..] == v + t;
    TrimLeftIs(v, t);
    assert t[1..] == w + x;
    TrimLeftIs(w, x);
    assert "hooks" <= s && "=" <= t && FlagWord(b) <= x;
    if b {
      assert rest != "" ==> x[4] == rest[0];
    } else {
      assert x[0] == 'f';
      assert rest != "" ==> x[5] == rest[0];
    }
  }

  lemma Letters()
    ensures !IsSpace('h') && !IsSpace('=') && !IsSpace('t') && !IsSpace('f') && !IsSpace('[') && !IsSpace('#')
  {
  }

  /** The line is a bracketed name, with white space around the brackets and perhaps a comment behind. */
  ghost predicate IsHeaderLine(line: string, name: string) {
    exists u, inner, v, tail :: HeaderLineAs(line, u, inner, v, tail) && name == Trim(inner)
  }

  predicate HeaderLineAs(line: string, u: string, inner: string, v: string, tail: string) {
    && AllSpace(u) && AllSpace(v) && inner != "" && '[' !in inner && ']' !in inner
    && (tail == "" || (tail[0] == '#' && forall c :: c in tail[1..] ==> !EndsLine(c)))
    && line == u + "[" + inner + "]" + v + tail
  }

  /** Exactly these lines open a section, each of its name. */
  lemma HeaderExactly(line: string, name: string)
    ensures Header(line) == Some(name) <==> IsHeaderLine(line, name)
  {
    hide IsSpace, TrimLeft, Trim, Header, EndsLine, AllSpace;
    if Header(line) == Some(name) { HeaderFound(line, name); }
    if u, inner, v, tail :| HeaderLineAs(line, u, inner, v, tail) && name == Trim(inner) {
      HeaderRead(u, inner, v, tail);
    }
  }

  lemma HeaderFound(line: string, name: string)
    requires Header(line) == Some(name)
    ensures IsHeaderLine(line, name)
  {
    hide IsSpace, TrimLeft, Trim, EndsLine, AllSpace, Header, IsHeaderLine;
    HeaderSteps(line, name);
    var u, s := Cut(line);
    HeadAndTail(s, "[");
    var k := Bracket(s[1..]);
    var inner, behind := s[1..][..k], s[1..][k + 1..];
    var v, tail := Cut(behind);
    BracketCuts(s[1..]);
    HeaderParts(line, u, s, inner, behind, v, tail);
    ThatHeader(u, inner, v, tail);
  }

  lemma BracketCuts(s: string)
    requires Bracket(s) < |s| && s[Bracket(s)] == ']'
    ensures var inner := s[..Bracket(s)];
            && '[' !in inner && ']' !in inner && s == inner + ("]" + s[Bracket(s) + 1..])
  {
    var k := Bracket(s);
    NoneBefore(s, k);
    SplitAt(s, k);
  }

  lemma NoneBefore(s: string, k: nat)
    requires k <= |s| && forall j :: 0 <= j < k ==> s[j] != '[' && s[j] != ']'
    ensures '[' !in s[..k] && ']' !in s[..k]
  {
    assert forall c :: c in s[..k] ==> c != '[' && c != ']';
  }

  lemma SplitAt(s: string, k: nat)
    requires k < |s|
    ensures s == s[..k] + ([s[k]] + s[k + 1..])
  {
  }

  lemma ThatHeader(u: string, inner: string, v: string, tail: string)
    requires AllSpace(u) && AllSpace(v) && inner != "" && '[' !in inner && ']' !in inner
    requires tail == "" || (tail[0] == '#' && forall c :: c in tail[1..] ==> !EndsLine(c))
    ensures IsHeaderLine(u + "[" + inner + "]" + v + tail, Trim(inner))
  {
    assert HeaderLineAs(u + "[" + inner + "]" + v + tail, u, inner, v, tail);
  }

  lemma HeaderSteps(line: string, name: string)
    requires Header(line) == Some(name)
    ensures
      var s := TrimLeft(line);
      "[" <= s &&
        var k := Bracket(s[1..]);
        && 0 < k < |s[1..]| && s[1..][k] == ']' && name == Trim(s[1..][..k])
        && var tail := TrimLeft(s[1..][k + 1..]);
           tail == "" || (tail[0] == '#' && forall c :: c in tail[1..] ==> !EndsLine(c))
  {
    hide TrimLeft, Trim, EndsLine;
  }

  lemma HeaderParts(line: string, u: string, s: string, inner: string, behind: string, v: string, tail: string)
    requires line == u + s && s == "[" + (inner + ("]" + behind)) && behind == v + tail
    ensures line == u + "[" + inner + "]" + v + tail
  {
    Reassociate(u, "[", inner, "]", v, tail, "");
    assert tail + "" == tail;
  }

  lemma HeaderRead(u: string, inner: string, v: string, tail: string)
    requires AllSpace(u) && AllSpace(v) && inner != "" && '[' !in inner && ']' !in inner
    requires tail == "" || (tail[0] == '#' && forall c :: c in tail[1..] ==> !EndsLine(c))
    ensures Header(u + "[" + inner + "]" + v + tail) == Some(Trim(inner))
  {
    Letters();
    hide IsSpace, TrimLeft, Trim, EndsLine, AllSpace;
    var line := u + "[" + inner + "]" + v + tail;
    var s := "[" + inner + "]" + v + tail;
    assert line == u + s;
    TrimLeftIs(u, s);
    assert s[1..] == inner + "]" + (v + tail);
    BracketBefore(inner, v + tail);
    assert s[1..][..|inner|] == inner && s[1..][|inner| + 1..] == v + tail;
    TrimLeftIs(v, tail);
  }

  lemma BracketBefore(name: string, rest: string)
    requires '[' !in name && ']' !in name
    ensures Bracket(name + "]" + rest) == |name|
  {
    var s := name + "]" + rest;
    assert forall j :: 0 <= j < |name| ==> s[j] == name[j] && name[j] in name;
    assert s[|name|] == ']';
  }

  function WithoutCr(line: string): string {
    if line != [] && line[|line| - 1] == '\r' then line[..|line| - 1] else line
  }

  function Chomped(raw: seq<string>): (r: seq<string>)
    ensures |r| == |raw|
    ensures forall i :: 0 <= i < |raw| && NoNewline(raw[i]) ==> NoNewline(r[i])
  {
    seq(|raw|, i requires 0 <= i < |raw| => WithoutCr(raw[i]))
  }

  /** The lines of a text whose ends are a newline with an optional carriage return before it. */
  function LinesOf(text: string): (ls: seq<string>)
    ensures |ls| >= 1
    ensures forall l :: l in ls ==> NoNewline(l)
  {
    var raw := Split(text);
    var last := |raw| - 1;
    assert forall i :: 0 <= i <= last ==> raw[i] in raw;
    Chomped(raw[..last]) + [raw[last]]
  }

  predicate EndsInCr(line: string) {
    line != [] && line[|line| - 1] == '\r'
  }

  /** No line still ends in a carriage return once its line end is taken off. */
  predicate Clean(ls: seq<string>) {
    forall l :: l in ls ==> NoNewline(l) && !EndsInCr(l)
  }

  /** Rejoining; no lines at all give the empty text. */
  function Rejoin(ls: seq<string>): string {
    if ls == [] then "" else Join(ls)
  }

  lemma LinesOfRejoin(ls: seq<string>)
    requires Clean(ls) && ls != []
    ensures LinesOf(Rejoin(ls)) == ls
  {
    SplitJoin(ls);
    assert forall i :: 0 <= i < |ls| ==> ls[i] in ls;
  }

  /** Lines, each but the last behind a newline or a carriage return and a newline. */
  function Ending(ls: seq<string>, crs: seq<bool>): string
    requires 1 <= |ls| <= |crs| + 1
  {
    if |ls| == 1 then ls[0] else ls[0] + (if crs[0] then "\r\n" else "\n") + Ending(ls[1..], crs[1..])
  }

  /** However the lines are ended, they are the same lines. */
  lemma {:induction false} AnyEnding(ls: seq<string>, crs: seq<bool>)
    requires 1 <= |ls| <= |crs| + 1 && Clean(ls)
    ensures LinesOf(Ending(ls, crs)) == ls
  {
    hide Split, LinesOf, Chomped;
    assert ls[0] in ls;
    if |ls| == 1 {
      OnlyLine(ls[0]);
    } else {
      var rest := Ending(ls[1..], crs[1..]);
      assert forall l :: l in ls[1..] ==> l in ls;
      AnyEnding(ls[1..], crs[1..]);
      var line := ls[0] + if crs[0] then "\r" else "";
      assert Ending(ls, crs) == line + "\n" + rest;
      LinesOfConcat(line, rest);
      SplitOne(line);
      EndedLine(ls[0], crs[0]);
      assert [ls[0]] + ls[1..] == ls;
    }
  }

  lemma OnlyLine(line: string)
    requires NoNewline(line)
    ensures LinesOf(line) == [line]
  {
    hide Split;
    SplitOne(line);
  }

  lemma EndedLine(line: string, cr: bool)
    requires !EndsInCr(line)
    ensures Chomped([line + if cr then "\r" else ""]) == [line]
  {
    var l := line + if cr then "\r" else "";
    assert WithoutCr(l) == line;
  }

  lemma LinesOfEmpty()
    ensures LinesOf("") == [""]
  {
    SplitOne("");
  }

  // ---- Sections -----------------------------------------------------------

  /** The name of the section a line following `ls` would be in. */
  function Section(ls: seq<string>): Option<string> {
    if ls == [] then None
    else if Header(ls[|ls| - 1]).Some? then Header(ls[|ls| - 1])
    else Section(ls[..|ls| - 1])
  }

  /** Line `i` is a hooks flag inside `[features]`. */
  predicate Decides(ls: seq<string>, i: nat)
    requires i < |ls|
  {
    Header(ls[i]).None? && Section(ls[..i]) == Some("features") && HooksFlag(ls[i]).Some?
  }

  /** The flag of the first line that decides it. */
  function Flag(ls: seq<string>): Option<bool> {
    if ls == [] then None
    else if Flag(ls[..|ls| - 1]).Some? then Flag(ls[..|ls| - 1])
    else if Decides(ls, |ls| - 1) then HooksFlag(ls[|ls| - 1])
    else None
  }

  /** Where that line is. */
  function DecidingLine(ls: seq<string>): (i: nat)
    requires Flag(ls).Some?
    ensures i < |ls| && Flag(ls[..i]).None? && Decides(ls, i) && Flag(ls) == HooksFlag(ls[i])
  {
    var n := |ls| - 1;
    if Flag(ls[..n]).Some? then
      var i := DecidingLine(ls[..n]);
      assert ls[..n][..i] == ls[..i];
      i
    else n
  }

  /** The first `[features]` header, or the number of lines. */
  function FeaturesHeader(ls: seq<string>): (k: nat)
    ensures k <= |ls|
    ensures forall i :: 0 <= i < k ==> Header(ls[i]) != Some("features")
    ensures k < |ls| ==> Header(ls[k]) == Some("features")
  {
    if ls == [] || Header(ls[0]) == Some("features") then 0 else 1 + FeaturesHeader(ls[1..])
  }

  lemma FlagOfPrefix(ls: seq<string>, i: nat)
    requires i <= |ls| && Flag(ls[..i]).Some?
    ensures Flag(ls) == Flag(ls[..i])
  {
    if i < |ls| {
      assert ls[..|ls| - 1][..i] == ls[..i];
      FlagOfPrefix(ls[..|ls| - 1], i);
    } else {
      assert ls[..i] == ls;
    }
  }

  lemma FlagNext(ls: seq<string>, i: nat)
    requires i < |ls|
    ensures Flag(ls[..i + 1]) ==
            if Flag(ls[..i]).Some? then Flag(ls[..i]) else if Decides(ls, i) then HooksFlag(ls[i]) else None
    ensures Section(ls[..i + 1]) == if Header(ls[i]).Some? then Header(ls[i]) else Section(ls[..i])
  {
    assert ls[..i + 1][..i] == ls[..i];
  }

  /** No line before decides. */
  ghost predicate FirstDecider(ls: seq<string>, i: nat) {
    i < |ls| && Decides(ls, i) && forall j :: 0 <= j < i ==> !Decides(ls, j)
  }

  ghost predicate FirstOpener(ls: seq<string>, k: nat) {
    && k < |ls| && Header(ls[k]) == Some("features")
    && forall j :: 0 <= j < k ==> Header(ls[j]) != Some("features")
  }

  lemma {:induction false} Undecided(ls: seq<string>, n: nat)
    requires n <= |ls|
    ensures Flag(ls[..n]).None? <==> forall j :: 0 <= j < n ==> !Decides(ls, j)
  {
    hide Header, HooksFlag, Section;
    if n > 0 {
      Undecided(ls, n - 1);
      FlagNext(ls, n - 1);
    } else {
      NoLines();
    }
  }

  /** The flag is that of the first line that decides, and there is none without one. */
  lemma FlagExactly(ls: seq<string>, b: bool)
    ensures Flag(ls) == Some(b) <==> exists i: nat :: FirstDecider(ls, i) && HooksFlag(ls[i]) == Some(b)
  {
    hide Header, HooksFlag, Section, Flag, FirstDecider;
    if Flag(ls).Some? { DeciderFound(ls); }
    forall i: nat | FirstDecider(ls, i) ensures i < |ls| && Flag(ls).Some? && i == DecidingLine(ls) {
      DeciderIs(ls, i);
    }
  }

  /** The section is the last header's. */
  lemma {:induction false} SectionExactly(ls: seq<string>, name: string)
    ensures Section(ls) == Some(name) <==>
            exists i: nat :: LastHeader(ls, i) && Header(ls[i]) == Some(name)
  {
    hide Header;
    if ls != [] {
      var n := |ls| - 1;
      SectionExactly(ls[..n], name);
      if Header(ls[n]).Some? {
        assert LastHeader(ls, n);
      } else {
        forall i: nat ensures LastHeader(ls, i) <==> LastHeader(ls[..n], i) { }
        assert forall i: nat :: LastHeader(ls, i) ==> ls[i] == ls[..n][i];
      }
    }
  }

  ghost predicate LastHeader(ls: seq<string>, i: nat) {
    i < |ls| && Header(ls[i]).Some? && forall j :: i < j < |ls| ==> Header(ls[j]).None?
  }

  lemma WholePrefix(ls: seq<string>)
    ensures ls[..|ls|] == ls
  {
  }

  /** parseFeaturesHooks. */
  method ParseFeaturesHooks(text: string) returns (flag: Option<bool>)
    ensures flag == Flag(LinesOf(text))
  {
    hide Header, HooksFlag, Flag, Section, LinesOf;
    var ls := LinesOf(text);
    var inFeatures := false;
    NoLines();
    assert ls[..0] == [];
    for i := 0 to |ls|
      invariant Flag(ls[..i]).None?
      invariant inFeatures <==> Section(ls[..i]) == Some("features")
    {
      FlagNext(ls, i);
      var header := Header(ls[i]);
      if header.Some? {
        inFeatures := header.value == "features";
        continue;
      }
      if inFeatures {
        var m := HooksFlag(ls[i]);
        if m.Some? {
          FlagOfPrefix(ls, i + 1);
          return m;
        }
      }
    }
    WholePrefix(ls);
    return None;
  }

  lemma NoLines()
    ensures Flag([]).None? && Section([]).None?
  {
  }

  // ---- Trust tables -------------------------------------------------------

  predicate OccursAt(s: string, part: string, i: nat) {
    i + |part| <= |s| && s[i..i + |part|] == part
  }

  predicate Contains(s: string, part: string) {
    exists i :: 0 <= i <= |s| && OccursAt(s, part, i)
  }

  const STATE := "hooks.state."
  const FIRST_HOOK := ":pre_tool_use:0:0"

  /** A header of a trust table of which the doctor says it trusts `file`. */
  predicate Trusts(line: string, file: string) {
    var h := Header(line);
    h.Some? && STATE <= h.value && Contains(h.value, file + FIRST_HOOK)
  }

  /** A header name whose table the installer deletes: it names the quoted path. */
  predicate Doomed(section: Option<string>, file: string) {
    section.Some? && STATE <= section.value && Contains(section.value, "\"" + file + ":")
  }

  /** `part` stands in `s` between `before` and `behind`. */
  predicate HoldsAfter(s: string, before: string, part: string, behind: string) {
    s == before + (part + behind)
  }

  lemma ContainsExactly(s: string, part: string)
    ensures Contains(s, part) <==> exists before, behind :: HoldsAfter(s, before, part, behind)
  {
    if i :| 0 <= i <= |s| && OccursAt(s, part, i) {
      assert s == s[..i] + (s[i..i + |part|] + s[i + |part|..]);
      assert HoldsAfter(s, s[..i], part, s[i + |part|..]);
    }
    if before, behind :| HoldsAfter(s, before, part, behind) {
      assert s[|before|..|before| + |part|] == part;
      assert OccursAt(s, part, |before|);
    }
  }

  /** The two tests side by side, by the header line: both ask for the namespace of trust tables; one
      for the path before the first hook of the event, the other for a quote before the path. */
  lemma TrustTests(line: string, name: string, file: string)
    requires Header(line) == Some(name)
    ensures Trusts(line, file) <==>
            && "hooks.state." <= name
            && exists before, behind :: HoldsAfter(name, before, file + ":pre_tool_use:0:0", behind)
    ensures Doomed(Header(line), file) <==>
            && "hooks.state." <= name
            && exists before, behind :: HoldsAfter(name, before, "\"" + file + ":", behind)
  {
    hide Header, Contains;
    ContainsExactly(name, file + FIRST_HOOK);
    ContainsExactly(name, "\"" + file + ":");
  }

  predicate HasTrust(ls: seq<string>, file: string) {
    exists l :: l in ls && Trusts(l, file)
  }

  /** The lines outside the deleted tables. */
  function Kept(ls: seq<string>, file: string): seq<string> {
    if ls == [] then []
    else Kept(ls[..|ls| - 1], file) + if Doomed(Section(ls), file) then [] else [ls[|ls| - 1]]
  }

  /** hasCodexTrustEntry. */
  method HasCodexTrustEntry(text: string, file: string) returns (found: bool)
    ensures found <==> HasTrust(LinesOf(text), file)
  {
    hide Header, Contains, LinesOf;
    var needle := file + FIRST_HOOK;
    var ls := LinesOf(text);
    for i := 0 to |ls|
      invariant forall j :: 0 <= j < i ==> !Trusts(ls[j], file)
    {
      var header := Header(ls[i]);
      if header.None? {
        continue;
      }
      if STATE <= header.value && Contains(header.value, needle) {
        assert Trusts(ls[i], file);
        return true;
      }
    }
    return false;
  }

  /** removeCodexTrustEntries. */
  method RemoveCodexTrustEntries(text: string, file: string) returns (r: string)
    ensures r == Rejoin(Kept(LinesOf(text), file))
  {
    hide Header, Contains, Section, LinesOf, Kept, Flag;
    var needle := "\"" + file + ":";
    var ls := LinesOf(text);
    var kept: seq<string> := [];
    var dropping := false;
    NoLines();
    NothingKept(file);
    assert ls[..0] == [];
    for i := 0 to |ls|
      invariant kept == Kept(ls[..i], file)
      invariant dropping <==> Doomed(Section(ls[..i]), file)
    {
      FlagNext(ls, i);
      KeptNext(ls, i, file);
      var header := Header(ls[i]);
      if header.Some? {
        dropping := STATE <= header.value && Contains(header.value, needle);
        if dropping {
          continue;
        }
        kept := kept + [ls[i]];
        continue;
      }
      if dropping {
        continue;
      }
      kept := kept + [ls[i]];
    }
    WholePrefix(ls);
    return Rejoin(kept);
  }

  lemma NothingKept(file: string)
    ensures Kept([], file) == []
  {
  }

  lemma KeptNext(ls: seq<string>, i: nat, file: string)
    requires i < |ls|
    ensures Kept(ls[..i + 1], file) == Kept(ls[..i], file) + if Doomed(Section(ls[..i + 1]), file) then [] else [ls[i]]
  {
    assert ls[..i + 1][..i] == ls[..i];
  }

  /** Deletion leaves the remaining lines in their sections. */
  lemma {:induction false} KeptSection(ls: seq<string>, file: string)
    ensures !Doomed(Section(ls), file) ==> Section(Kept(ls, file)) == Section(ls)
  {
    hide Doomed, Header;
    if ls != [] {
      var front, last := ls[..|ls| - 1], ls[|ls| - 1];
      KeptSection(front, file);
      assert (Kept(front, file) + [last])[..|Kept(front, file)|] == Kept(front, file);
    }
  }

  /** Deletion does not change the `[features] hooks` flag. */
  lemma {:induction false} KeptFlag(ls: seq<string>, file: string)
    ensures Flag(Kept(ls, file)) == Flag(ls)
  {
    hide Doomed, Header, HooksFlag;
    if ls != [] {
      var n := |ls| - 1;
      var k := Kept(ls[..n], file);
      KeptFlag(ls[..n], file);
      KeptSection(ls[..n], file);
      if Doomed(Section(ls), file) {
        DoomedIsNotFeatures(Section(ls), file);
        FlagNext(ls, n);
        WholePrefix(ls);
        assert Kept(ls, file) == k;
      } else {
        assert (k + [ls[n]])[..|k|] == k;
      }
    }
  }

  /** What is deleted: the doomed headers, and no other header. */
  lemma {:induction false} KeptHeaders(ls: seq<string>, file: string)
    ensures forall l :: l in Kept(ls, file) ==> l in ls && !Doomed(Header(l), file)
    ensures forall l :: l in ls && Header(l).Some? && !Doomed(Header(l), file) ==> l in Kept(ls, file)
  {
    hide Header, Doomed;
    NoSectionIsSafe(file);
    if ls != [] {
      KeptHeaders(ls[..|ls| - 1], file);
      assert ls == ls[..|ls| - 1] + [ls[|ls| - 1]];
    }
  }

  lemma NoSectionIsSafe(file: string)
    ensures !Doomed(None, file)
  {
  }

  /** Deleting again deletes nothing. */
  lemma {:induction false} NothingDoomed(ls: seq<string>, file: string)
    requires forall l :: l in ls ==> !Doomed(Header(l), file)
    ensures Kept(ls, file) == ls && !Doomed(Section(ls), file)
  {
    hide Header, Doomed;
    NoSectionIsSafe(file);
    if ls != [] {
      NothingDoomed(ls[..|ls| - 1], file);
      assert ls == ls[..|ls| - 1] + [ls[|ls| - 1]];
    }
  }

  lemma DoomedIsNotFeatures(section: Option<string>, file: string)
    requires Doomed(section, file)
    ensures section != Some("features")
  {
    assert section.value[0] == STATE[0];
  }

  // ---- Switching the flag on ----------------------------------------------

  /** What an appended table follows: the text, ended by a newline unless it is empty. */
  function Ended(text: string): string {
    if text == "" || text[|text| - 1] == '\n' then text else text + "\n"
  }

  /** The text with the flag on: untouched, one line rewritten, one line inserted, or a table appended. */
  function Merged(text: string): string {
    var ls := LinesOf(text);
    if Flag(ls) == Some(true) then text
    else if Flag(ls).Some? then Join(ls[DecidingLine(ls) := HOOKS_TRUE])
    else
      var k := FeaturesHeader(ls);
      if k < |ls| then Join(Inserted(ls, k))
      else Ended(text) + TABLE
  }

  /** mergeFeaturesHooksTrue. */
  method MergeFeaturesHooksTrue(text: string) returns (r: string)
    ensures r == Merged(text)
  {
    hide Header, HooksFlag, Flag, Section, LinesOf, Join;
    var current := ParseFeaturesHooks(text);
    if current.Some? && current.value { return text; }
    ghost var ls := LinesOf(text);
    var lines := LinesOf(text);
    if current.Some? {
      var inFeatures := false;
      NoLines();
      assert lines[..0] == [];
      for i := 0 to |lines|
        invariant lines == ls && Flag(lines[..i]).None?
        invariant inFeatures <==> Section(lines[..i]) == Some("features")
      {
        FlagNext(lines, i);
        var header := Header(lines[i]);
        if header.Some? {
          inFeatures := header.value == "features";
          continue;
        }
        if inFeatures && HooksFlag(lines[i]).Some? {
          DecidingLineIs(lines, i);
          lines := lines[i := HOOKS_TRUE];
          return Join(lines);
        }
      }
      WholePrefix(lines);
    }
    for i := 0 to |lines|
      invariant lines == ls && forall j :: 0 <= j < i ==> Header(lines[j]) != Some("features")
    {
      var header := Header(lines[i]);
      if header.Some? && header.value == "features" {
        assert FeaturesHeader(ls) == i;
        lines := lines[..i + 1] + [HOOKS_TRUE] + lines[i + 1..];
        return Join(lines);
      }
    }
    var base := if |text| == 0 then "" else if text[|text| - 1] == '\n' then text else text + "\n";
    return base + TABLE;
  }

  lemma DecidingLineIs(ls: seq<string>, i: nat)
    requires i < |ls| && Flag(ls[..i]).None? && Decides(ls, i)
    ensures Flag(ls).Some? && DecidingLine(ls) == i
  {
    hide Header, HooksFlag, Section;
    FlagNext(ls, i);
    FlagOfPrefix(ls, i + 1);
    var d := DecidingLine(ls);
    if d < i {
      FlagNext(ls, d);
      assert ls[..i][..d + 1] == ls[..d + 1];
      FlagOfPrefix(ls[..i], d + 1);
    } else if i < d {
      assert ls[..d][..i + 1] == ls[..i + 1];
      FlagOfPrefix(ls[..d], i + 1);
    }
  }

  /** A flag line put after lines that end inside `[features]` and decide nothing switches it on. */
  lemma FlagLineDecides(front: seq<string>, back: seq<string>)
    requires Flag(front).None? && Section(front) == Some("features")
    ensures Flag(front + [HOOKS_TRUE] + back) == Some(true)
  {
    hide Header, HooksFlag, Section;
    PlainLines();
    var ls := front + [HOOKS_TRUE] + back;
    assert ls[..|front|] == front;
    FlagNext(ls, |front|);
    FlagOfPrefix(ls, |front| + 1);
  }

  lemma UndecidedPrefix(ls: seq<string>, i: nat)
    requires i <= |ls| && Flag(ls).None?
    ensures Flag(ls[..i]).None?
  {
    if Flag(ls[..i]).Some? { FlagOfPrefix(ls, i); }
  }

  function Inserted(ls: seq<string>, k: nat): seq<string>
    requires k < |ls|
  {
    ls[..k + 1] + [HOOKS_TRUE] + ls[k + 1..]
  }

  /** The lines of a merged text, when it was not left as it is: the deciding line is rewritten; without
      one, a line is inserted after the first `[features]`; without that either, a table is appended. */
  ghost predicate OneEdit(ls: seq<string>, ls': seq<string>)
    requires ls != []
  {
    if exists i: nat :: FirstDecider(ls, i) then
      exists i: nat :: FirstDecider(ls, i) && ls' == ls[i := HOOKS_TRUE]
    else if exists k: nat :: FirstOpener(ls, k) then
      exists k: nat :: FirstOpener(ls, k) && ls' == Inserted(ls, k)
    else Appended(ls, ls')
  }

  ghost predicate Appended(ls: seq<string>, ls': seq<string>)
    requires ls != []
  {
    ls' == (if ls[|ls| - 1] == "" then ls[..|ls| - 1] else ls) + [FEATURES, HOOKS_TRUE, ""]
  }

  // ---- What a rewrite of the file does ------------------------------------

  lemma LinesOfConcat(a: string, b: string)
    ensures LinesOf(a + "\n" + b) == Chomped(Split(a)) + LinesOf(b)
  {
    hide Split, Chomped;
    SplitConcat(a, b);
    var x, y := Split(a), Split(b);
    assert (x + y)[..|x + y| - 1] == x + y[..|y| - 1];
    ChompedConcat(x, y[..|y| - 1]);
  }

  lemma ChompedConcat(x: seq<string>, y: seq<string>)
    ensures Chomped(x + y) == Chomped(x) + Chomped(y)
  {
    hide WithoutCr;
  }

  lemma LinesOfTable()
    ensures LinesOf(TABLE) == [FEATURES, HOOKS_TRUE, ""]
  {
    hide LinesOf, Join;
    var ls := [FEATURES, HOOKS_TRUE, ""];
    LinesOfRejoin(ls);
    JoinCons(FEATURES, [HOOKS_TRUE, ""]);
    JoinCons(HOOKS_TRUE, [""]);
    JoinOne("");
    assert [FEATURES] + [HOOKS_TRUE, ""] == ls && [HOOKS_TRUE] + [""] == [HOOKS_TRUE, ""];
    assert Join(ls) == FEATURES + "\n" + (HOOKS_TRUE + "\n" + "") == TABLE;
  }

  lemma AppendedLines(text: string)
    requires Clean(LinesOf(text))
    ensures Appended(LinesOf(text), LinesOf(Ended(text) + TABLE))
  {
    hide LinesOf, Chomped, Clean, Split;
    LinesOfTable();
    if text == "" {
      LinesOfEmpty();
      assert Ended(text) + TABLE == TABLE;
    } else if text[|text| - 1] == '\n' {
      var a := text[..|text| - 1];
      assert text == a + "\n" + "";
      LinesOfConcat(a, "");
      LinesOfEmpty();
      LinesOfConcat(a, TABLE);
      assert a + "\n" + "" == a + "\n" == text;
      assert LinesOf(text) == Chomped(Split(a)) + [""];
      assert LinesOf(text)[..|LinesOf(text)| - 1] == Chomped(Split(a));
      assert Ended(text) + TABLE == a + "\n" + TABLE;
    } else {
      LinesOfConcat(text, TABLE);
      ChompedClean(text);
      LastLine(text);
    }
  }

  lemma LastLine(text: string)
    requires text != "" && text[|text| - 1] != '\n'
    ensures var ls := LinesOf(text); ls[|ls| - 1] != ""
  {
    hide Split;
    LastNotEmpty(text);
  }

  lemma ChompedClean(text: string)
    requires Clean(LinesOf(text))
    ensures Chomped(Split(text)) == LinesOf(text)
  {
    hide Split, Chomped, WithoutCr;
    var ls, raw := LinesOf(text), Split(text);
    var init, last := raw[..|raw| - 1], raw[|raw| - 1];
    assert raw == init + [last];
    ChompedConcat(init, [last]);
    assert ls[|ls| - 1] in ls;
    ChompedOne(last);
  }

  lemma ChompedOne(line: string)
    requires !EndsInCr(line)
    ensures Chomped([line]) == [line]
  {
  }

  /** The flag can only change by one edit of a hooks line, one insertion after `[features]`, or one new table. */
  lemma MergedLines(text: string)
    requires Clean(LinesOf(text)) && Flag(LinesOf(text)) != Some(true)
    ensures OneEdit(LinesOf(text), LinesOf(Merged(text)))
  {
    hide Flag, Header, HooksFlag, Section, LinesOf, Ended, FeaturesHeader, DecidingLine, Join, Decides, Appended;
    var ls := LinesOf(text);
    WhichEdit(ls);
    if Flag(ls).Some? {
      var i := DecidingLine(ls);
      LinesOfRejoin(ls[i := HOOKS_TRUE]);
    } else {
      var k := FeaturesHeader(ls);
      if k < |ls| {
        LinesOfRejoin(Inserted(ls, k));
      } else {
        AppendedLines(text);
      }
    }
  }

  lemma WhichEdit(ls: seq<string>)
    ensures (exists i: nat :: FirstDecider(ls, i)) <==> Flag(ls).Some?
    ensures Flag(ls).Some? ==> FirstDecider(ls, DecidingLine(ls))
    ensures (exists k: nat :: FirstOpener(ls, k)) <==> FeaturesHeader(ls) < |ls|
    ensures FeaturesHeader(ls) < |ls| ==> FirstOpener(ls, FeaturesHeader(ls))
    ensures forall i: nat :: FirstDecider(ls, i) ==> i < |ls| && Flag(ls[..i]).None?
    ensures forall k: nat :: FirstOpener(ls, k) ==> k < |ls|
  {
    hide Header, HooksFlag, Section, Flag, Decides, FirstDecider, DecidingLine, FeaturesHeader;
    if Flag(ls).Some? { DeciderFound(ls); }
    forall i: nat | FirstDecider(ls, i) ensures Flag(ls).Some? && i < |ls| && Flag(ls[..i]).None? {
      DeciderIs(ls, i);
    }
    var open := FeaturesHeader(ls);
    assert open < |ls| ==> FirstOpener(ls, open);
    forall k: nat | FirstOpener(ls, k) ensures open < |ls| {
      assert open < |ls|;
    }
  }

  lemma DeciderFound(ls: seq<string>)
    requires Flag(ls).Some?
    ensures FirstDecider(ls, DecidingLine(ls))
  {
    hide Header, HooksFlag, Section, Flag;
    Undecided(ls, DecidingLine(ls));
  }

  lemma DeciderIs(ls: seq<string>, i: nat)
    requires FirstDecider(ls, i)
    ensures i < |ls| && Flag(ls).Some? && DecidingLine(ls) == i && Flag(ls[..i]).None?
  {
    hide Header, HooksFlag, Section, Flag;
    Undecided(ls, i);
    DecidingLineIs(ls, i);
  }

  lemma OneEditTurnsOn(ls: seq<string>, ls': seq<string>)
    requires ls != [] && OneEdit(ls, ls')
    ensures Flag(ls') == Some(true)
  {
    hide Flag, Header, HooksFlag, Decides, FirstOpener, FirstDecider, Section;
    PlainLines();
    WhichEdit(ls);
    if Flag(ls).Some? {
      var i: nat :| FirstDecider(ls, i) && ls' == ls[i := HOOKS_TRUE];
      RewrittenDecides(ls, i);
    } else if FeaturesHeader(ls) < |ls| {
      var k: nat :| FirstOpener(ls, k) && ls' == Inserted(ls, k);
      InsertedDecides(ls, k);
    } else {
      var n := |ls'| - 3;
      var front := ls'[..n];
      UndecidedPrefix(ls, n);
      assert front == ls[..n];
      FeaturesOpens(front);
      FlagLineDecides(front + [FEATURES], [""]);
      assert ls' == front + [FEATURES] + [HOOKS_TRUE] + [""];
    }
  }

  lemma RewrittenDecides(ls: seq<string>, i: nat)
    requires FirstDecider(ls, i) && Flag(ls[..i]).None?
    ensures Flag(ls[i := HOOKS_TRUE]) == Some(true)
  {
    hide Flag, Header, HooksFlag;
    FlagLineDecides(ls[..i], ls[i + 1..]);
    assert ls[i := HOOKS_TRUE] == ls[..i] + [HOOKS_TRUE] + ls[i + 1..];
  }

  lemma InsertedDecides(ls: seq<string>, k: nat)
    requires FirstOpener(ls, k) && Flag(ls).None?
    ensures Flag(Inserted(ls, k)) == Some(true)
  {
    hide Flag, Header, HooksFlag;
    UndecidedPrefix(ls, k + 1);
    assert ls[..k + 1][..k] == ls[..k];
    FlagLineDecides(ls[..k + 1], ls[k + 1..]);
  }

  lemma FeaturesOpens(front: seq<string>)
    requires Flag(front).None?
    ensures Flag(front + [FEATURES]).None? && Section(front + [FEATURES]) == Some("features")
  {
    PlainLines();
    assert (front + [FEATURES])[..|front|] == front;
  }

  lemma OneEditKeepsTrust(ls: seq<string>, ls': seq<string>, file: string)
    requires ls != [] && OneEdit(ls, ls')
    ensures HasTrust(ls', file) <==> HasTrust(ls, file)
    ensures Clean(ls) ==> Clean(ls')
  {
    hide Flag, Header, HooksFlag, Contains, Section;
    PlainLines();
    assert !(STATE <= "features") by { assert STATE[0] != "features"[0]; }
    EditedLines(ls, ls');
    OneEditKeepsHeaders(ls, ls');
  }

  lemma EditedLines(ls: seq<string>, ls': seq<string>)
    requires ls != [] && OneEdit(ls, ls')
    ensures forall l :: l in ls' ==> l in ls || l == HOOKS_TRUE || l == FEATURES || l == ""
  {
    hide FirstDecider, FirstOpener;
    WhichEdit(ls);
    if Flag(ls).None? && FeaturesHeader(ls) < |ls| {
      var k: nat :| FirstOpener(ls, k) && ls' == Inserted(ls, k);
      assert forall l :: l in ls' ==> l in ls[..k + 1] || l == HOOKS_TRUE || l in ls[k + 1..];
    }
  }

  lemma OneEditKeepsHeaders(ls: seq<string>, ls': seq<string>)
    requires ls != [] && OneEdit(ls, ls')
    ensures forall l :: l in ls && Header(l).Some? ==> l in ls'
  {
    hide Flag, Header, HooksFlag, Section;
    forall j | 0 <= j < |ls| && Header(ls[j]).Some? ensures ls[j] in ls' {
      if k: nat :| k < |ls| && ls' == Inserted(ls, k) {
        assert ls'[if j <= k then j else j + 1] == ls[j];
      } else {
        assert ls'[j] == ls[j] || ls[j] == "";
      }
    }
  }

  /** Switching the flag on: it is then read as true, a second switch changes nothing, one edit is
      all the lines see, and no hooks file is trusted that was not, or the other way round. */
  lemma MergeTurnsOn(text: string, file: string)
    requires Clean(LinesOf(text))
    ensures
      var ls, ls' := LinesOf(text), LinesOf(Merged(text));
      && Flag(ls') == Some(true) && Merged(Merged(text)) == Merged(text) && Clean(ls')
      && (if Flag(ls) == Some(true) then Merged(text) == text else OneEdit(ls, ls'))
      && (HasTrust(ls', file) <==> HasTrust(ls, file))
  {
    hide Flag, OneEdit, LinesOf, Clean, HasTrust, DecidingLine, FeaturesHeader, Join, Ended;
    var ls, ls' := LinesOf(text), LinesOf(Merged(text));
    if Flag(ls) != Some(true) {
      MergedLines(text);
      if Flag(ls).Some? { FlippedLines(text); }
      OneEditTurnsOn(ls, ls');
      OneEditKeepsTrust(ls, ls', file);
    }
  }

  lemma FlippedLines(text: string)
    requires Clean(LinesOf(text)) && Flag(LinesOf(text)) == Some(false)
    ensures LinesOf(Merged(text)) == LinesOf(text)[DecidingLine(LinesOf(text)) := HOOKS_TRUE]
  {
    hide Flag, LinesOf, DecidingLine, Join;
    var ls := LinesOf(text);
    LinesOfRejoin(ls[DecidingLine(ls) := HOOKS_TRUE]);
  }

  /** The text without the tables of our hooks file. */
  function Removed(text: string, file: string): string {
    Rejoin(Kept(LinesOf(text), file))
  }

  /** Deletion: gone are exactly the doomed headers and the lines after them, up to the next header;
      deleting again changes nothing, and neither does it change the flag. */
  lemma RemovalIsExact(text: string, file: string)
    requires Clean(LinesOf(text))
    ensures
      var ls, ls' := LinesOf(text), LinesOf(Removed(text, file));
      && (ls' == Kept(ls, file) || (Kept(ls, file) == [] && ls' == [""]))
      && Clean(ls') && Flag(ls') == Flag(ls)
      && (forall l :: Header(l).Some? ==> (l in ls' <==> l in ls && !Doomed(Header(l), file)))
      && Removed(Removed(text, file), file) == Removed(text, file)
  {
    hide Flag, LinesOf, Kept, Header, Doomed, Clean, Rejoin;
    var ls := LinesOf(text);
    var k := Kept(ls, file);
    KeptFlag(ls, file);
    KeptHeaders(ls, file);
    NothingDoomed(k, file);
    if k == [] {
      BlankLine(file);
    } else {
      KeptClean(ls, file);
      LinesOfRejoin(k);
    }
  }

  lemma BlankLine(file: string)
    ensures Rejoin([]) == "" && LinesOf("") == [""] && Rejoin([""]) == "" && Clean([""])
    ensures Header("").None? && Kept([""], file) == [""] && Flag([""]) == Flag([])
  {
    hide Header, HooksFlag, Doomed, LinesOf, Join, Split, Flag, Kept;
    LinesOfEmpty();
    PlainLines();
    NoLines();
    NothingKept(file);
    NoSectionIsSafe(file);
    JoinOne("");
    var ls := [""];
    assert ls[..0] == [];
    KeptNext(ls, 0, file);
    FlagNext(ls, 0);
    assert ls[..1] == ls;
  }

  lemma KeptClean(ls: seq<string>, file: string)
    requires Clean(ls)
    ensures Clean(Kept(ls, file))
  {
    hide Header, Doomed;
    KeptHeaders(ls, file);
  }

  /** The configuration written beside a rewritten hooks file. */
  function Rewritten(text: string, file: string): string {
    Merged(Removed(text, file))
  }

  /** After a rewrite the flag is on, and the doctor still finds trust exactly when a trust header
      matched our path without naming it in double quotes. */
  lemma TrustAfterRewrite(text: string, file: string)
    requires Clean(LinesOf(text))
    ensures
      var ls, ls' := LinesOf(text), LinesOf(Rewritten(text, file));
      && Flag(ls') == Some(true)
      && (HasTrust(ls', file) <==> exists l :: l in ls && Trusts(l, file) && !Doomed(Header(l), file))
  {
    hide Flag, LinesOf, Kept, Header, Doomed, Clean, Merged, Removed, Contains;
    RemovalIsExact(text, file);
    MergeTurnsOn(Removed(text, file), file);
    var ls, ls' := LinesOf(text), LinesOf(Removed(text, file));
    forall l | Trusts(l, file) ensures l in ls' <==> l in ls && !Doomed(Header(l), file) {
    }
  }

  // ---- Keys that survive --------------------------------------------------

  /** A header line with a trust key. */
  function KeyLine(quote: char, path: string): string {
    "[" + KeyName(quote, path) + "]"
  }

  function KeyName(quote: char, path: string): string {
    STATE + [quote] + path + FIRST_HOOK + [quote]
  }

  lemma KeyHeader(quote: char, path: string)
    requires quote == '"' || quote == '\''
    requires '[' !in path && ']' !in path
    ensures Header(KeyLine(quote, path)) == Some(KeyName(quote, path)) && STATE <= KeyName(quote, path)
  {
    hide Header;
    var name := KeyName(quote, path);
    forall c | c == '[' || c == ']' ensures c !in name {
      assert c !in STATE && c !in [quote] && c !in path && c !in FIRST_HOOK;
    }
    assert name[0] == STATE[0] == 'h' && name[|name| - 1] == quote;
    HeaderOf(name);
  }

  /** A key for a file whose path has ours as a proper suffix counts as our trust and survives. */
  lemma SuffixPathStaysTrusted(p: string, file: string)
    requires p != "" && forall c :: c in p + file ==> c != '"' && c != '[' && c != ']' && c != ':'
    ensures var line := KeyLine('"', p + file); Trusts(line, file) && !Doomed(Header(line), file)
  {
    hide Header;
    var name := KeyName('"', p + file);
    KeyHeader('"', p + file);
    assert name[|STATE| + 1 + |p|..][..|file + FIRST_HOOK|] == file + FIRST_HOOK;
    assert OccursAt(name, file + FIRST_HOOK, |STATE| + 1 + |p|);
    NeverQuoted(p, file);
  }

  lemma NeverQuoted(p: string, file: string)
    requires p != "" && '"' !in p + file && ':' !in p + file
    ensures !Contains(KeyName('"', p + file), "\"" + file + ":")
  {
    var name, needle := KeyName('"', p + file), "\"" + file + ":";
    var key := p + file + FIRST_HOOK;
    assert '"' !in STATE && '"' !in FIRST_HOOK && '"' !in key;
    assert name == STATE + ['"'] + key + ['"'];
    forall i | 0 <= i <= |name| ensures !OccursAt(name, needle, i) {
      if i == |STATE| {
        assert name[i + 1 + |file|] == (p + file)[|file|] && needle[1 + |file|] == ':';
        NotAt(name, needle, i, 1 + |file|);
      } else if i < |name| - 1 {
        assert name[i] in STATE || name[i] in key;
        NotAt(name, needle, i, 0);
      }
    }
  }

  /** A key for our own path written in single quotes survives as well. */
  lemma LiteralKeyStaysTrusted(file: string)
    requires forall c :: c in file ==> c != '"' && c != '[' && c != ']'
    ensures var line := KeyLine('\'', file); Trusts(line, file) && !Doomed(Header(line), file)
  {
    hide Header;
    var name, needle := KeyName('\'', file), "\"" + file + ":";
    KeyHeader('\'', file);
    assert name[|STATE| + 1..][..|file + FIRST_HOOK|] == file + FIRST_HOOK;
    assert OccursAt(name, file + FIRST_HOOK, |STATE| + 1);
    assert '"' !in STATE && '"' !in ['\''] && '"' !in FIRST_HOOK;
    forall i | 0 <= i <= |name| ensures !OccursAt(name, needle, i) {
      if i < |name| {
        assert name[i] in name;
        NotAt(name, needle, i, 0);
      }
    }
  }

  lemma NotAt(s: string, part: string, i: nat, j: nat)
    requires j < |part| && i + j < |s| && s[i + j] != part[j]
    ensures !OccursAt(s, part, i)
  {
    assert i + |part| <= |s| ==> s[i..i + |part|][j] == s[i + j];
  }
}
