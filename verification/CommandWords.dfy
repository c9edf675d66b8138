/** Command lines as words between white space, for the patterns that recognise a managed command. */
module CommandWords {
  import opened CodexConfig

  predicate NoSpace(s: string) {
    forall i :: 0 <= i < |s| ==> !IsSpace(s[i])
  }

  predicate EndsWith(s: string, part: string) {
    |part| <= |s| && s[|s| - |part|..] == part
  }

  function FirstSpace(s: string): (k: nat)
    ensures k <= |s|
    ensures forall j :: 0 <= j < k ==> !IsSpace(s[j])
    ensures k < |s| ==> IsSpace(s[k])
  {
    if s == "" || IsSpace(s[0]) then 0 else 1 + FirstSpace(s[1..])
  }

  /** The words of `s`, in order. */
  function Words(s: string): seq<string>
    decreases |s|
  {
    if s == "" then []
    else if IsSpace(s[0]) then Words(s[1..])
    else
      var k := FirstSpace(s);
      [s[..k]] + Words(s[k..])
  }

  /** A cut next to white space cuts no word. */
  predicate Apart(a: string, c: string) {
    a == "" || c == "" || IsSpace(a[|a| - 1]) || IsSpace(c[0])
  }

  lemma FirstSpaceIs(s: string, k: nat)
    requires k <= |s| && NoSpace(s[..k]) && (k == |s| || IsSpace(s[k]))
    ensures FirstSpace(s) == k
  {
    assert forall j :: 0 <= j < k ==> s[..k][j] == s[j];
  }

  lemma {:induction false} WordsConcat(a: string, c: string)
    requires Apart(a, c)
    ensures Words(a + c) == Words(a) + Words(c)
    decreases |a|
  {
    hide IsSpace, FirstSpace;
    if a == "" {
      assert a + c == c;
    } else if IsSpace(a[0]) {
      WordsConcat(a[1..], c);
      assert (a + c)[1..] == a[1..] + c;
    } else {
      var k := FirstSpace(a);
      assert (a + c)[..k] == a[..k] && (a + c)[k..] == a[k..] + c;
      FirstSpaceIs(a + c, k);
      WordsConcat(a[k..], c);
      assert [a[..k]] + (Words(a[k..]) + Words(c)) == [a[..k]] + Words(a[k..]) + Words(c);
    }
  }

  lemma OneWord(w: string)
    requires w != "" && NoSpace(w)
    ensures Words(w) == [w]
  {
    assert w[..|w|] == w && w[|w|..] == "";
    FirstSpaceIs(w, |w|);
    hide FirstSpace;
  }

  lemma {:induction false} NoWords(s: string)
    ensures Words(s) == [] <==> AllSpace(s)
    decreases |s|
  {
    hide IsSpace;
    if s != "" && IsSpace(s[0]) {
      NoWords(s[1..]);
      assert forall i :: 1 <= i < |s| ==> s[1..][i - 1] == s[i];
    }
  }

  /** Where word `n` stands. */
  lemma {:induction false} WordAt(s: string, n: nat) returns (a: string, b: string)
    requires n < |Words(s)|
    ensures var w := Words(s)[n];
            s == a + w + b && w != "" && NoSpace(w) && Apart(a, w) && Apart(w, b)
    ensures Words(a) == Words(s)[..n] && Words(b) == Words(s)[n + 1..]
    decreases |s|
  {
    hide IsSpace, FirstSpace, Words, NoSpace;
    WordsUnfold(s);
    if IsSpace(s[0]) {
      var a';
      a', b := WordAt(s[1..], n);
      a := [s[0]] + a';
      assert a[1..] == a';
      WordsUnfold(a);
    } else {
      var k := FirstSpace(s);
      if n == 0 {
        a, b := "", s[k..];
        WordsUnfold(a);
      } else {
        var a';
        a', b := WordAt(s[k..], n - 1);
        a := s[..k] + a';
        NotEmptyWords(s[k..]);
        FirstCharOf(a', Words(s[k..])[n - 1], b, s[k..]);
        LongerFirst(s[..k], a');
        WordsUnfold(a);
      }
    }
  }

  lemma WordsUnfold(s: string)
    ensures Words(s) ==
            if s == "" then [] else if IsSpace(s[0]) then Words(s[1..])
            else [s[..FirstSpace(s)]] + Words(s[FirstSpace(s)..])
    ensures s != "" && !IsSpace(s[0]) ==> FirstSpace(s) > 0 && NoSpace(s[..FirstSpace(s)])
  {
    hide IsSpace;
  }

  lemma NotEmptyWords(s: string)
    requires Words(s) != []
    ensures s != ""
  {
  }

  lemma LongerFirst(w: string, a: string)
    requires w != "" && NoSpace(w) && a != "" && IsSpace(a[0])
    ensures var s := w + a; !IsSpace(s[0]) && FirstSpace(s) == |w| && s[..|w|] == w && s[|w|..] == a
  {
    hide IsSpace;
    assert (w + a)[..|w|] == w;
    FirstSpaceIs(w + a, |w|);
  }

  lemma FirstCharOf(a: string, w: string, b: string, s: string)
    requires s == a + w + b && w != "" && NoSpace(w) && s != "" && IsSpace(s[0])
    ensures a != "" && a[0] == s[0]
  {
    hide IsSpace;
    Ends(a, w, b);
  }

  lemma Ends(a: string, w: string, b: string)
    requires w != ""
    ensures var s := a + w + b;
            && s[0] == (if a == "" then w[0] else a[0])
            && s[|s| - 1] == (if b == "" then w[|w| - 1] else b[|b| - 1])
  {
  }

  /** The last word of a text that ends in `t`. */
  lemma LastWord(s: string, t: string)
    requires t != "" && NoSpace(t)
    ensures var ws := Words(s + t); ws != [] && EndsWith(ws[|ws| - 1], t)
  {
    hide IsSpace, Words;
    var u := s + t;
    assert u[|u| - 1] == t[|t| - 1];
    NoWords(u);
    var n := |Words(u)| - 1;
    var a, b := WordAt(u, n);
    var w := Words(u)[n];
    NoWords(b);
    Ends(a, w, b);
    assert u == a + w;
    assert forall x :: |s| <= x < |u| ==> u[x] == t[x - |s|];
    assert forall x :: 0 <= x < |a| ==> u[x] == a[x];
    assert |a| <= |s|;
    assert w == u[|a|..];
    assert w[|w| - |t|..] == u[|s|..] == t;
  }

  /** Three words in a row, between white space. */
  lemma ThreeWords(pre: string, x: string, gap: string, y: string, gap': string, z: string, post: string)
    requires x != "" && y != "" && z != "" && NoSpace(x) && NoSpace(y) && NoSpace(z)
    requires gap != "" && gap' != "" && AllSpace(gap) && AllSpace(gap') && Apart(pre, x) && Apart(z, post)
    ensures Words(pre + x + gap + y + gap' + z + post) == Words(pre) + [x, y, z] + Words(post)
  {
    hide IsSpace, Words;
    NoWords(gap);
    NoWords(gap');
    OneWord(x);
    OneWord(y);
    OneWord(z);
    WordsConcat(pre, x);
    WordsConcat(pre + x, gap);
    WordsConcat(pre + x + gap, y);
    WordsConcat(pre + x + gap + y, gap');
    WordsConcat(pre + x + gap + y + gap', z);
    WordsConcat(pre + x + gap + y + gap' + z, post);
    assert Words(pre) + [x] + [] + [y] + [] + [z] == Words(pre) + [x, y, z];
  }

  /** The pieces of a command line, each at its place. */
  lemma Pieces(a: string, x: string, g: string, t: string, y: string, h: string, z: string, d: string)
    ensures
      var s := a + x + g + t + y + h + z + d;
      var i := |a|;
      var e := i + |x|;
      var j := e + |g|;
      var k := j + |t|;
      var f := k + |y|;
      var l := f + |h|;
      && |s| == l + |z| + |d| && s[..i] == a && s[i..e] == x && s[e..j] == g && s[j..k] == t
      && s[k..f] == y && s[f..l] == h && s[l..l + |z|] == z && s[l + |z|..] == d
  {
    var u, v := a + x + g + t, y + h + z + d;
    FourPieces(a, x, g, t);
    FourPieces(y, h, z, d);
    Regrouped(u, y, h, z, d);
    Joined(u, v, |a|, |a| + |x|, |a| + |x| + |g|, |y|, |y| + |h|, |y| + |h| + |z|);
  }

  /** Cutting a sum at six places is cutting the summands. */
  lemma Joined(u: string, v: string, i: nat, e: nat, j: nat, f: nat, l: nat, m: nat)
    requires i <= e <= j <= |u| && f <= l <= m <= |v|
    ensures
      var s, k := u + v, |u|;
      && |s| == k + |v| && s[..i] == u[0..i] && s[i..e] == u[i..e] && s[e..j] == u[e..j] && s[j..k] == u[j..k]
      && s[k..k + f] == v[0..f] && s[k + f..k + l] == v[f..l] && s[k + l..k + m] == v[l..m] && s[k + m..] == v[m..|v|]
  {
  }

  lemma FourPieces(a: string, x: string, g: string, t: string)
    ensures
      var u := a + x + g + t;
      var i := |a| + |x|;
      && u[0..|a|] == a && u[|a|..i] == x && u[i..i + |g|] == g && u[i + |g|..|u|] == t
  {
  }

  lemma Regrouped(u: string, y: string, h: string, z: string, d: string)
    ensures u + y + h + z + d == u + (y + h + z + d)
  {
  }

  lemma SliceOfSlice(s: string, i: nat, j: nat, a: nat, b: nat)
    requires i <= j <= |s| && a <= b <= j - i
    ensures s[i..j][a..b] == s[i + a..i + b]
  {
    var t, u := s[i..j][a..b], s[i + a..i + b];
    assert |t| == |u| && forall k :: 0 <= k < |t| ==> t[k] == u[k];
  }

  lemma SpacesWithin(s: string, i: nat, j: nat)
    requires i <= j <= |s|
    ensures AllSpace(s[i..j]) <==> forall x :: i <= x < j ==> IsSpace(s[x])
    ensures NoSpace(s[i..j]) <==> forall x :: i <= x < j ==> !IsSpace(s[x])
  {
    hide IsSpace;
    assert forall x :: i <= x < j ==> s[i..j][x - i] == s[x];
    assert forall x :: 0 <= x < j - i ==> s[i..j][x] == s[i + x];
  }

  lemma TakeMore(s: string, a: nat, b: nat)
    requires a <= b <= |s|
    ensures s[..b] == s[..a] + s[a..b]
  {
  }

  /** A text is the sum of its pieces. */
  lemma SumOfCuts(s: string, i: nat, e: nat, j: nat, f: nat, l: nat, m: nat)
    requires i <= e <= j <= f <= l <= m <= |s|
    ensures s == s[..i] + s[i..e] + s[e..j] + s[j..f] + s[f..l] + s[l..m] + s[m..]
  {
    TakeMore(s, i, e);
    TakeMore(s, e, j);
    TakeMore(s, j, f);
    TakeMore(s, f, l);
    TakeMore(s, l, m);
    assert s == s[..m] + s[m..];
  }
}
