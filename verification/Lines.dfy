/** Text and the newline-separated lines it is made of. */
module Lines {

  predicate NoNewline(s: string) {
    '\n' !in s
  }

  /** The first position of `c` in `s`, or the length of `s`. */
  function IndexOf(s: string, c: char): (k: nat)
    ensures k <= |s|
    ensures c !in s[..k]
    ensures k < |s| ==> s[k] == c
    ensures c in s <==> k < |s|
  {
    if s == [] || s[0] == c then 0 else 1 + IndexOf(s[1..], c)
  }

  lemma IndexOfPrefix(a: string, c: char, b: string)
    requires c !in a
    ensures IndexOf(a + [c] + b, c) == |a|
  {
    var s := a + [c] + b;
    var k := IndexOf(s, c);
    assert s[|a|] == c;
    assert forall j :: 0 <= j < k ==> s[..k][j] == s[j];
    assert forall j :: 0 <= j < |a| ==> s[j] == a[j];
  }

  /** The lines of `s`: one more than it has newlines. */
  function Split(s: string): (ls: seq<string>)
    ensures |ls| >= 1
    ensures forall l :: l in ls ==> NoNewline(l)
    decreases |s|
  {
    var k := IndexOf(s, '\n');
    if k == |s| then assert s[..k] == s; [s] else [s[..k]] + Split(s[k + 1..])
  }

  function Join(ls: seq<string>): string
    requires |ls| >= 1
  {
    if |ls| == 1 then ls[0] else ls[0] + "\n" + Join(ls[1..])
  }

  lemma JoinCons(line: string, rest: seq<string>)
    requires |rest| >= 1
    ensures Join([line] + rest) == line + "\n" + Join(rest)
  {
    assert ([line] + rest)[1..] == rest;
  }

  lemma JoinSplit(s: string)
    ensures Join(Split(s)) == s
    decreases |s|
  {
    hide IndexOf, Join;
    var k := IndexOf(s, '\n');
    if k < |s| {
      JoinSplit(s[k + 1..]);
      JoinCons(s[..k], Split(s[k + 1..]));
      assert s == s[..k] + "\n" + s[k + 1..];
    } else {
      JoinOne(s);
    }
  }

  lemma JoinOne(s: string)
    ensures Join([s]) == s
  {
  }

  lemma SplitCons(line: string, rest: string)
    requires NoNewline(line)
    ensures Split(line + "\n" + rest) == [line] + Split(rest)
  {
    var s := line + "\n" + rest;
    IndexOfPrefix(line, '\n', rest);
    assert s[..|line|] == line && s[|line| + 1..] == rest;
  }

  lemma SplitOne(line: string)
    requires NoNewline(line)
    ensures Split(line) == [line]
  {
    assert line[..|line|] == line;
  }

  lemma SplitJoin(ls: seq<string>)
    requires |ls| >= 1 && forall l :: l in ls ==> NoNewline(l)
    ensures Split(Join(ls)) == ls
  {
    if |ls| == 1 {
      SplitOne(ls[0]);
    } else {
      SplitJoin(ls[1..]);
      SplitCons(ls[0], Join(ls[1..]));
      assert ls == [ls[0]] + ls[1..];
    }
  }

  lemma {:induction false} LastNotEmpty(s: string)
    requires s != "" && s[|s| - 1] != '\n'
    ensures Split(s)[|Split(s)| - 1] != ""
    decreases |s|
  {
    var k := IndexOf(s, '\n');
    if k < |s| { LastNotEmpty(s[k + 1..]); }
  }

  /** A newline between two texts separates their lines. */
  lemma SplitConcat(a: string, b: string)
    ensures Split(a + "\n" + b) == Split(a) + Split(b)
    decreases |a|
  {
    hide IndexOf, Split;
    var k := IndexOf(a, '\n');
    if k < |a| {
      var line, rest := a[..k], a[k + 1..];
      assert a == line + "\n" + rest;
      SplitConcat(rest, b);
      SplitCons(line, rest);
      SplitConsTwice(line, rest, b);
      assert [line] + (Split(rest) + Split(b)) == ([line] + Split(rest)) + Split(b);
    } else {
      assert a[..k] == a;
      SplitOne(a);
      SplitCons(a, b);
    }
  }

  lemma SplitConsTwice(line: string, rest: string, b: string)
    requires NoNewline(line)
    ensures Split((line + "\n" + rest) + "\n" + b) == [line] + Split(rest + "\n" + b)
  {
    hide Split;
    SplitCons(line, rest + "\n" + b);
    assert (line + "\n" + rest) + "\n" + b == line + "\n" + (rest + "\n" + b);
  }
}
