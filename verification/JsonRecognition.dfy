/**
 The recogniser's functions and the grammar describe the same language.
 Every lemma pair is one direction each: from an accepted text to a tree that
 spells it, and from a tree to what the recogniser answers on its text.
 */
module JsonRecognition {
  import opened Wrappers
  import opened JsonGrammar
  import opened JsonScan
  import Utf8

  /** The worker's dialect: RFC 8259 plus the escape backslash-NUL. */
  const WORKER: Encoding := Bytes(true)

  /** RFC 8259 over well-formed UTF-8. */
  const STRICT: Encoding := Bytes(false)

  predicate AreBytes(s: seq<int>) {
    forall k :: 0 <= k < |s| ==> 0 <= s[k] < 256
  }

  // ---- Strings ------------------------------------------------------------

  /** The shift-and-mask decoder with its three range checks accepts exactly the
      byte ranges of section 4 of RFC 3629. */
  lemma MultibyteIsChar(s: seq<int>, i: nat, e: nat)
    requires AreBytes(s) && i < e <= |s| && s[i] >= 0x80
    ensures MultibyteEnd(s, i) == Some(e) <==> Utf8.IsChar(s[i..e])
  {
    var lead, count := s[i], TailCount(s[i]);
    assert s[i..e][0] == lead;
    if e == i + 1 + count && count > 0 {
      if count == 1 { FoldOne(s, i); }
      else if count == 2 { FoldTwo(s, i); }
      else { FoldThree(s, i); }
    }
  }

  lemma FoldOne(s: seq<int>, i: nat)
    requires AreBytes(s) && i + 2 <= |s| && TailCount(s[i]) == 1
    ensures MultibyteEnd(s, i) == Some(i + 2) <==> Utf8.IsChar(s[i..i + 2])
  {
    var v := LeadBits(s[i]);
    assert Fold(s, i + 1, 1, v) == if Utf8.IsTail(s[i + 1]) then Fold(s, i + 2, 0, v * 64 + s[i + 1] % 64) else None;
  }

  lemma FoldTwo(s: seq<int>, i: nat)
    requires AreBytes(s) && i + 3 <= |s| && TailCount(s[i]) == 2
    ensures MultibyteEnd(s, i) == Some(i + 3) <==> Utf8.IsChar(s[i..i + 3])
  {
    var v, b, c := LeadBits(s[i]), s[i + 1], s[i + 2];
    var w := v * 64 + b % 64;
    assert Fold(s, i + 1, 2, v) == if Utf8.IsTail(b) then Fold(s, i + 2, 1, w) else None;
    assert Fold(s, i + 2, 1, w) == if Utf8.IsTail(c) then Fold(s, i + 3, 0, w * 64 + c % 64) else None;
    assert v == s[i] - 0xE0;
  }

  lemma FoldThree(s: seq<int>, i: nat)
    requires AreBytes(s) && i + 4 <= |s| && TailCount(s[i]) == 3
    ensures MultibyteEnd(s, i) == Some(i + 4) <==> Utf8.IsChar(s[i..i + 4])
  {
    var v, b, c, d := LeadBits(s[i]), s[i + 1], s[i + 2], s[i + 3];
    var w := v * 64 + b % 64;
    var x := w * 64 + c % 64;
    assert Fold(s, i + 1, 3, v) == if Utf8.IsTail(b) then Fold(s, i + 2, 2, w) else None;
    assert Fold(s, i + 2, 2, w) == if Utf8.IsTail(c) then Fold(s, i + 3, 1, x) else None;
    assert Fold(s, i + 3, 1, x) == if Utf8.IsTail(d) then Fold(s, i + 4, 0, x * 64 + d % 64) else None;
    assert v == s[i] - 0xF0;
  }

  lemma PieceSound(s: seq<int>, i: nat) returns (p: Piece)
    requires AreBytes(s) && i < |s| && s[i] != QUOTE && PieceEnd(s, i).Some?
    ensures PieceOk(WORKER, p) && At(s, i, PieceText(p))
    ensures PieceEnd(s, i) == Some(i + |PieceText(p)|)
  {
    var e := PieceEnd(s, i).value;
    if s[i] == BACKSLASH {
      if s[i + 1] == LOWER_U {
        p := Unicode(s[i + 2..e]);
        assert s[i..e] == [BACKSLASH, LOWER_U] + s[i + 2..e];
      } else {
        p := Escape(s[i + 1]);
      }
    } else {
      p := Plain(s[i..e]);
      if s[i] >= 0x80 { MultibyteIsChar(s, i, e); }
    }
  }

  lemma PieceComplete(s: seq<int>, i: nat, p: Piece)
    requires AreBytes(s) && PieceOk(WORKER, p) && At(s, i, PieceText(p))
    ensures i < |s| && s[i] != QUOTE
    ensures PieceEnd(s, i) == Some(i + |PieceText(p)|)
  {
    var text := PieceText(p);
    assert s[i] == s[i..i + |text|][0];
    match p {
      case Plain(units) =>
        if s[i] >= 0x80 { MultibyteIsChar(s, i, i + |text|); }
      case Escape(c) =>
        assert s[i + 1] == s[i..i + |text|][1];
      case Unicode(hex) =>
        assert s[i + 1] == s[i..i + |text|][1];
        assert forall k :: 0 <= k < 4 ==> s[i + 2 + k] == s[i..i + |text|][2 + k] == hex[k];
        assert forall k :: i + 1 < k < i + 6 ==> IsHex(s[k]) by {
          forall k | i + 1 < k < i + 6 ensures IsHex(s[k]) { assert s[k] == hex[k - i - 2]; }
        }
    }
  }

  lemma BodySound(s: seq<int>, i: nat) returns (b: Body)
    requires AreBytes(s) && i <= |s| && BodyEnd(s, i).Some?
    ensures BodyOk(WORKER, b) && At(s, i, BodyText(b))
    ensures BodyEnd(s, i) == Some(i + |BodyText(b)|)
    decreases |s| - i
  {
    if s[i] == QUOTE {
      b := Closing;
    } else {
      var p := PieceSound(s, i);
      var rest := BodySound(s, PieceEnd(s, i).value);
      b := Then(p, rest);
      AtConcat(s, i, PieceText(p), BodyText(rest));
    }
  }

  lemma BodyComplete(s: seq<int>, i: nat, b: Body)
    requires AreBytes(s) && BodyOk(WORKER, b) && At(s, i, BodyText(b))
    ensures BodyEnd(s, i) == Some(i + |BodyText(b)|)
    decreases b
  {
    match b {
      case Closing => AtOne(s, i, QUOTE);
      case Then(p, rest) =>
        AtConcat(s, i, PieceText(p), BodyText(rest));
        PieceComplete(s, i, p);
        BodyComplete(s, i + |PieceText(p)|, rest);
    }
  }

  lemma StringSound(s: seq<int>, i: nat) returns (b: Body)
    requires AreBytes(s) && i <= |s| && StringEnd(s, i).Some?
    ensures BodyOk(WORKER, b) && At(s, i, StringText(b))
    ensures StringEnd(s, i) == Some(i + |StringText(b)|)
  {
    b := BodySound(s, i + 1);
    AtConcat(s, i, [QUOTE], BodyText(b));
  }

  lemma StringComplete(s: seq<int>, i: nat, b: Body)
    requires AreBytes(s) && BodyOk(WORKER, b) && At(s, i, StringText(b))
    ensures i < |s| && s[i] == QUOTE
    ensures StringEnd(s, i) == Some(i + |StringText(b)|)
  {
    AtConcat(s, i, [QUOTE], BodyText(b));
    AtOne(s, i, QUOTE);
    BodyComplete(s, i + 1, b);
  }

  // ---- Numbers and words --------------------------------------------------

  /** A character that may follow a value in a document. */
  predicate Follows(s: seq<int>, e: nat) {
    e < |s| ==> IsBlank(s[e]) || s[e] == COMMA || s[e] == RBRACE || s[e] == RBRACKET
  }

  lemma FracSound(s: seq<int>, i: nat, x: nat)
    requires i <= |s| && FracEnd(s, i) == Some(x)
    ensures i <= x <= |s| && FracOk(s[i..x])
  {
    if x != i { assert s[i..x][1..] == s[i + 1..x]; }
  }

  lemma ExpSound(s: seq<int>, i: nat, e: nat)
    requires i <= |s| && ExpEnd(s, i) == Some(e)
    ensures i <= e <= |s| && ExpOk(s[i..e])
  {
    if e != i {
      var tail := s[i + 1..e];
      assert s[i..e][1..] == tail;
      if IsSign(s[i + 1]) { assert tail[1..] == s[i + 2..e]; }
    }
  }

  lemma EmptyAt(s: seq<int>, i: nat, t: seq<int>)
    ensures At(s, i, t) ==> At(s, i, [])
  {
  }

  /** A number's text lies at `i` exactly when its parts lie one after another. */
  lemma NumberAt(s: seq<int>, i: nat, t: Tree)
    requires t.Number?
    ensures
      var w := if t.minus then i + 1 else i;
      At(s, i, TreeText(t)) <==>
      && (t.minus ==> i < |s| && s[i] == MINUS)
      && At(s, w, t.whole) && At(s, w + |t.whole|, t.frac) && At(s, w + |t.whole| + |t.frac|, t.exp)
    ensures |TreeText(t)| == (if t.minus then 1 else 0) + |t.whole| + |t.frac| + |t.exp|
  {
    hide At;
    var w := if t.minus then i + 1 else i;
    var sign := if t.minus then [MINUS] else [];
    AtThree(s, w, t.whole, t.frac, t.exp);
    AtConcat(s, i, sign, t.whole + (t.frac + t.exp));
    if t.minus { AtOne(s, i, MINUS); } else { EmptyAt(s, i, t.whole); }
  }

  lemma WholeSound(s: seq<int>, w: nat, f: nat)
    requires w < |s| && IsDigit(s[w])
    requires f == if s[w] == ZERO then w + 1 else SkipDigits(s, w + 1)
    ensures f <= |s| && WholeOk(s[w..f])
  {
  }

  lemma NumberSound(s: seq<int>, i: nat) returns (t: Tree)
    requires i < |s| && NumberEnd(s, i).Some?
    ensures t.Number? && TreeOk(WORKER, t) && At(s, i, TreeText(t))
    ensures NumberEnd(s, i) == Some(i + |TreeText(t)|)
  {
    hide WholeOk, FracOk, ExpOk, FracEnd, ExpEnd, At, TreeText;
    var w := if s[i] == MINUS then i + 1 else i;
    var f := if s[w] == ZERO then w + 1 else SkipDigits(s, w + 1);
    var x := FracEnd(s, f).value;
    var e := ExpEnd(s, x).value;
    WholeSound(s, w, f);
    FracSound(s, f, x);
    ExpSound(s, x, e);
    t := Number(s[i] == MINUS, s[w..f], s[f..x], s[x..e]);
    SliceAt(s, w, f);
    SliceAt(s, f, x);
    SliceAt(s, x, e);
    NumberAt(s, i, t);
  }

  lemma FracComplete(s: seq<int>, i: nat, frac: seq<int>)
    requires FracOk(frac) && At(s, i, frac)
    requires i + |frac| < |s| ==> !IsDigit(s[i + |frac|]) && s[i + |frac|] != DOT
    ensures FracEnd(s, i) == Some(i + |frac|)
  {
    if frac != [] {
      assert s[i] == frac[0];
      assert s[i + 1..i + |frac|] == frac[1..];
      DigitsAt(s, i + 1, frac[1..]);
    }
  }

  lemma ExpComplete(s: seq<int>, i: nat, exp: seq<int>)
    requires ExpOk(exp) && At(s, i, exp)
    requires i + |exp| < |s| ==> !IsDigit(s[i + |exp|]) && s[i + |exp|] != LOWER_E && s[i + |exp|] != UPPER_E
    ensures ExpEnd(s, i) == Some(i + |exp|)
  {
    if exp != [] {
      assert s[i] == exp[0] && s[i + 1] == exp[1];
      if IsSign(exp[1]) {
        assert exp[1..][1..] == exp[2..] == s[i + 2..i + |exp|];
        DigitsAt(s, i + 2, exp[2..]);
      } else {
        assert s[i + 1..i + |exp|] == exp[1..];
        DigitsAt(s, i + 1, exp[1..]);
      }
    }
  }

  lemma WholeComplete(s: seq<int>, w: nat, whole: seq<int>)
    requires WholeOk(whole) && At(s, w, whole)
    requires w + |whole| < |s| ==> !IsDigit(s[w + |whole|])
    ensures w < |s| && s[w] == whole[0] && IsDigit(s[w])
    ensures w + |whole| == if s[w] == ZERO then w + 1 else SkipDigits(s, w + 1)
  {
    assert s[w] == s[w..w + |whole|][0];
    if s[w] != ZERO {
      assert s[w + 1..w + |whole|] == whole[1..];
      DigitsAt(s, w + 1, whole[1..]);
    }
  }

  lemma FracStart(s: seq<int>, f: nat, frac: seq<int>)
    requires FracOk(frac) && At(s, f, frac)
    ensures frac != [] ==> s[f] == DOT
  {
    if frac != [] { assert s[f] == s[f..f + |frac|][0]; }
  }

  lemma ExpStart(s: seq<int>, x: nat, exp: seq<int>)
    requires ExpOk(exp) && At(s, x, exp)
    ensures exp != [] ==> s[x] == LOWER_E || s[x] == UPPER_E
  {
    if exp != [] { assert s[x] == s[x..x + |exp|][0]; }
  }

  lemma NumberComplete(s: seq<int>, i: nat, t: Tree)
    requires t.Number? && TreeOk(WORKER, t) && At(s, i, TreeText(t))
    requires Follows(s, i + |TreeText(t)|)
    ensures i < |s| && (s[i] == MINUS || IsDigit(s[i]))
    ensures NumberEnd(s, i) == Some(i + |TreeText(t)|)
  {
    hide At, TreeText, WholeOk, FracOk, ExpOk, FracEnd, ExpEnd;
    NumberAt(s, i, t);
    var w := if t.minus then i + 1 else i;
    var f := w + |t.whole|;
    var x := f + |t.frac|;
    var e := x + |t.exp|;
    FracStart(s, f, t.frac);
    ExpStart(s, x, t.exp);
    WholeComplete(s, w, t.whole);
    FracComplete(s, f, t.frac);
    ExpComplete(s, x, t.exp);
  }

  lemma ScalarSound(s: seq<int>, i: nat) returns (t: Tree)
    requires AreBytes(s) && i < |s| && ScalarEnd(s, i).Some?
    ensures !t.Container? && TreeOk(WORKER, t) && At(s, i, TreeText(t))
    ensures ScalarEnd(s, i) == Some(i + |TreeText(t)|)
  {
    if s[i] == QUOTE {
      var b := StringSound(s, i);
      t := String(b);
    } else if s[i] == TRUE_WORD[0] {
      t := Literal(TRUE_WORD);
    } else if s[i] == FALSE_WORD[0] {
      t := Literal(FALSE_WORD);
    } else if s[i] == NULL_WORD[0] {
      t := Literal(NULL_WORD);
    } else {
      t := NumberSound(s, i);
    }
  }

  lemma ScalarComplete(s: seq<int>, i: nat, t: Tree)
    requires AreBytes(s) && !t.Container? && TreeOk(WORKER, t) && At(s, i, TreeText(t))
    requires Follows(s, i + |TreeText(t)|)
    ensures i < |s| && !IsBlank(s[i]) && s[i] != LBRACE && s[i] != LBRACKET
    ensures s[i] != COMMA && s[i] != RBRACE && s[i] != RBRACKET
    ensures ScalarEnd(s, i) == Some(i + |TreeText(t)|)
  {
    match t {
      case Literal(word) => assert s[i] == s[i..i + |word|][0];
      case Number(_, _, _, _) => NumberComplete(s, i, t);
      case String(body) => StringComplete(s, i, body);
    }
  }

  // ---- Values -------------------------------------------------------------

  lemma EmptyContainerAt(s: seq<int>, v: nat, t: Tree)
    requires t.Container? && t.items.End?
    ensures
      var c := v + 1 + |t.blank|;
      At(s, v, TreeText(t)) <==>
      v < |s| && s[v] == Opener(t.isObject) && At(s, v + 1, t.blank) && c < |s| && s[c] == Closer(t.isObject)
    ensures |TreeText(t)| == |t.blank| + 2
  {
    hide At;
    AtThree(s, v, [Opener(t.isObject)], t.blank, [Closer(t.isObject)]);
    AtOne(s, v, Opener(t.isObject));
    AtOne(s, v + 1 + |t.blank|, Closer(t.isObject));
  }

  lemma ContainerAt(s: seq<int>, v: nat, t: Tree)
    requires t.Container? && t.items.Item?
    ensures At(s, v, TreeText(t)) <==>
      v < |s| && s[v] == Opener(t.isObject) && At(s, v + 1, ItemsText(t.items, Closer(t.isObject)))
    ensures |TreeText(t)| == 1 + |ItemsText(t.items, Closer(t.isObject))|
  {
    hide At, ItemsText;
    AtConcat(s, v, [Opener(t.isObject)], ItemsText(t.items, Closer(t.isObject)));
    AtOne(s, v, Opener(t.isObject));
  }

  lemma ValueSound(s: seq<int>, i: nat, depth: nat) returns (w: seq<int>, t: Tree)
    requires AreBytes(s) && i <= |s| && ValueEnd(s, i, depth).Some?
    ensures w == s[i..SkipBlanks(s, i)] && Blanks(w)
    ensures TreeOk(WORKER, t) && At(s, i + |w|, TreeText(t))
    ensures ValueEnd(s, i, depth) == Some(i + |w| + |TreeText(t)|)
    ensures depth + Height(t) <= MAX_DEPTH
    ensures t.Container? && t.isObject <==> s[SkipBlanks(s, i)] == LBRACE
    decreases |s| - i, 0, 1
  {
    hide At, TreeText, ScalarEnd, ItemsText, ItemsEnd;
    var v := SkipBlanks(s, i);
    w := s[i..v];
    if s[v] == LBRACE || s[v] == LBRACKET {
      t := ContainerSound(s, v, depth);
    } else {
      t := ScalarSound(s, v);
    }
  }

  lemma ContainerSound(s: seq<int>, v: nat, depth: nat) returns (t: Tree)
    requires AreBytes(s) && v < |s| && (s[v] == LBRACE || s[v] == LBRACKET) && depth <= MAX_DEPTH
    requires var k := SkipBlanks(s, v + 1);
             var isObject := s[v] == LBRACE;
             (k < |s| && s[k] == Closer(isObject)) || ItemsEnd(s, k, depth, isObject).Some?
    ensures t.Container? && t.isObject == (s[v] == LBRACE) && TreeOk(WORKER, t) && At(s, v, TreeText(t))
    ensures var k := SkipBlanks(s, v + 1);
            Some(v + |TreeText(t)|) ==
            if k < |s| && s[k] == Closer(t.isObject) then Some(k + 1) else ItemsEnd(s, k, depth, t.isObject)
    ensures depth + Height(t) <= MAX_DEPTH
    decreases |s| - v, 0, 0
  {
    hide At, TreeText, ItemsText, ItemsEnd;
    var isObject := s[v] == LBRACE;
    var k := SkipBlanks(s, v + 1);
    if k < |s| && s[k] == Closer(isObject) {
      t := Container(isObject, s[v + 1..k], End);
      SliceAt(s, v + 1, k);
      EmptyContainerAt(s, v, t);
    } else {
      var items := ItemsSound(s, k, depth, isObject, v + 1);
      t := Container(isObject, [], items);
      ContainerAt(s, v, t);
    }
  }

  lemma KeyAt(s: seq<int>, i: nat, tag: Tag)
    requires tag.Key?
    ensures
      var k := i + |StringText(tag.name)|;
      var c := k + |tag.gap|;
      At(s, i, TagText(tag)) <==>
      At(s, i, StringText(tag.name)) && At(s, k, tag.gap) && c < |s| && s[c] == COLON
    ensures |TagText(tag)| == |StringText(tag.name)| + |tag.gap| + 1
  {
    hide At, StringText;
    AtThree(s, i, StringText(tag.name), tag.gap, [COLON]);
    AtOne(s, i + |StringText(tag.name)| + |tag.gap|, COLON);
  }

  lemma TagSound(s: seq<int>, i: nat, isObject: bool) returns (tag: Tag)
    requires AreBytes(s) && i <= |s| && TagEnd(s, i, isObject).Some?
    ensures TagOk(WORKER, isObject, tag) && At(s, i, TagText(tag))
    ensures TagEnd(s, i, isObject) == Some(i + |TagText(tag)|)
    ensures !isObject ==> TagText(tag) == []
  {
    if isObject {
      var b := StringSound(s, i);
      var k := StringEnd(s, i).value;
      tag := Key(b, s[k..SkipBlanks(s, k)]);
      KeyAt(s, i, tag);
    } else {
      tag := NoTag;
    }
  }

  lemma NoBlanks(s: seq<int>, i: nat)
    requires i <= |s| && (i < |s| ==> !IsBlank(s[i]))
    ensures SkipBlanks(s, i) == i
  {
  }

  /** One step of the scanner's loop over items. */
  lemma ItemsStep(s: seq<int>, k: nat, depth: nat, isObject: bool, p: nat, e: nat)
    requires k <= |s| && TagEnd(s, k, isObject) == Some(p)
    requires e <= |s| && SkipBlanks(s, e) < |s|
    ensures ValueEnd(s, p, depth + 1).None? ==> ItemsEnd(s, k, depth, isObject).None?
    ensures ValueEnd(s, p, depth + 1) == Some(e) ==>
      var c := SkipBlanks(s, e);
      && (s[c] == Closer(isObject) ==> ItemsEnd(s, k, depth, isObject) == Some(c + 1))
      && (s[c] == COMMA ==> ItemsEnd(s, k, depth, isObject) == ItemsEnd(s, SkipBlanks(s, c + 1), depth, isObject))
  {
    hide ValueEnd, TagEnd, SkipBlanks, IsBlank, Blanks;
  }

  /** What the scanner found on its way to an end of a list of items. */
  lemma ItemsFound(s: seq<int>, i: nat, depth: nat, isObject: bool) returns (v: nat, e: nat)
    requires i <= |s| && ItemsEnd(s, i, depth, isObject).Some?
    ensures i <= v < e <= |s|
    ensures TagEnd(s, i, isObject) == Some(v) && ValueEnd(s, v, depth + 1) == Some(e)
    ensures
      var c := SkipBlanks(s, e);
      && c < |s| && (s[c] == Closer(isObject) || s[c] == COMMA)
      && ItemsEnd(s, i, depth, isObject) ==
         if s[c] == COMMA then ItemsEnd(s, SkipBlanks(s, c + 1), depth, isObject) else Some(c + 1)
  {
    hide ValueEnd, TagEnd, SkipBlanks, IsBlank, Blanks;
    v := TagEnd(s, i, isObject).value;
    e := ValueEnd(s, v, depth + 1).value;
  }

  /** The items found at `i`, with the blanks that precede them from `from` on. */
  lemma ItemsSound(s: seq<int>, i: nat, depth: nat, isObject: bool, from: nat) returns (items: Items)
    requires AreBytes(s) && from <= i <= |s| && ItemsEnd(s, i, depth, isObject).Some?
    requires Blanks(s[from..i]) && (i < |s| ==> !IsBlank(s[i]))
    ensures items.Item? && ItemsOk(WORKER, isObject, items)
    ensures At(s, from, ItemsText(items, Closer(isObject)))
    ensures ItemsEnd(s, i, depth, isObject) == Some(from + |ItemsText(items, Closer(isObject))|)
    ensures depth + ItemsHeight(items) <= MAX_DEPTH
    decreases |s| - i, 1
  {
    hide At, TreeText, ValueEnd, TagEnd, ItemsEnd, TreeOk, TagOk, TagText, Height, Blanks, ItemsText;
    hide SkipBlanks, AreBytes, IsBlank;
    var v, e := ItemsFound(s, i, depth, isObject);
    NoBlanks(s, i);
    var tag := TagSound(s, i, isObject);
    var pre, value := ValueSound(s, v, depth + 1);
    var c := SkipBlanks(s, e);
    SliceAt(s, from, i);
    SliceAt(s, v, SkipBlanks(s, v));
    SliceAt(s, e, c);
    var rest := End;
    if s[c] == COMMA {
      rest := ItemsSound(s, SkipBlanks(s, c + 1), depth, isObject, c + 1);
    }
    items := Item(s[from..i], tag, pre, value, s[e..c], rest);
    ItemsAt(s, from, items, Closer(isObject));
  }

  /** An item's text lies at `from` exactly when its parts lie one after another. */
  lemma ItemAt(s: seq<int>, from: nat, lead: seq<int>, tag: seq<int>, pre: seq<int>,
               value: seq<int>, post: seq<int>, tail: seq<int>)
    ensures
      var i := from + |lead|;
      var v := i + |tag| + |pre|;
      At(s, from, ItemText(lead, tag, pre, value, post, tail)) <==>
      && At(s, from, lead) && At(s, i, tag) && At(s, i + |tag|, pre) && At(s, v, value)
      && At(s, v + |value|, post) && At(s, v + |value| + |post|, tail)
    ensures |ItemText(lead, tag, pre, value, post, tail)| == |lead| + |tag| + |pre| + |value| + |post| + |tail|
  {
    hide At;
    var i := from + |lead|;
    AtThree(s, i + |tag| + |pre|, value, post, tail);
    AtThree(s, i, tag, pre, value + (post + tail));
    AtConcat(s, from, lead, tag + (pre + (value + (post + tail))));
  }

  /** Where the first item's closing character or comma lies. */
  function ItemStop(from: nat, items: Items): nat
    requires items.Item?
  {
    from + |items.lead| + |TagText(items.tag)| + |items.pre| + |TreeText(items.value)| + |items.post|
  }

  lemma ItemsAt(s: seq<int>, from: nat, items: Items, closer: int)
    requires items.Item?
    ensures
      var i := from + |items.lead|;
      var p := i + |TagText(items.tag)|;
      var v := p + |items.pre|;
      var c := ItemStop(from, items);
      At(s, from, ItemsText(items, closer)) <==>
      && At(s, from, items.lead) && At(s, i, TagText(items.tag)) && At(s, p, items.pre)
      && At(s, v, TreeText(items.value)) && At(s, v + |TreeText(items.value)|, items.post)
      && c < |s| && s[c] == (if items.rest.End? then closer else COMMA)
      && (items.rest.Item? ==> At(s, c + 1, ItemsText(items.rest, closer)))
    ensures |ItemsText(items, closer)| ==
            ItemStop(from, items) - from + 1 + (if items.rest.End? then 0 else |ItemsText(items.rest, closer)|)
  {
    hide At, ItemText, TagText, TreeText;
    var tag, value, c := TagText(items.tag), TreeText(items.value), ItemStop(from, items);
    if items.rest.End? {
      ItemAt(s, from, items.lead, tag, items.pre, value, items.post, [closer]);
      AtOne(s, c, closer);
    } else {
      var more := ItemsText(items.rest, closer);
      ItemAt(s, from, items.lead, tag, items.pre, value, items.post, [COMMA] + more);
      AtConcat(s, c, [COMMA], more);
      AtOne(s, c, COMMA);
    }
  }

  /** A tree's text never starts with a blank, a separator or a closer. */
  lemma TreeStart(enc: Encoding, s: seq<int>, v: nat, t: Tree)
    requires TreeOk(enc, t) && At(s, v, TreeText(t))
    ensures v < |s| && !IsBlank(s[v]) && s[v] != RBRACE && s[v] != RBRACKET
    ensures s[v] == LBRACE <==> t.Container? && t.isObject
    ensures s[v] == LBRACKET <==> t.Container? && !t.isObject
    ensures s[v] == QUOTE <==> t.String?
  {
    match t {
      case Literal(word) => assert s[v] == s[v..v + |word|][0];
      case Number(minus, whole, _, _) =>
        NumberAt(s, v, t);
        var w := if minus then v + 1 else v;
        assert s[w] == s[w..w + |whole|][0];
      case String(body) =>
        AtConcat(s, v, [QUOTE], BodyText(body));
        AtOne(s, v, QUOTE);
      case Container(_, _, items) => if items.End? { EmptyContainerAt(s, v, t); } else { ContainerAt(s, v, t); }
    }
  }

  lemma FollowsBlanks(s: seq<int>, e: nat, post: seq<int>)
    requires At(s, e, post) && Blanks(post) && Follows(s, e + |post|)
    ensures Follows(s, e)
  {
    if post != [] { assert s[e] == s[e..e + |post|][0]; }
  }

  lemma ValueComplete(s: seq<int>, i: nat, depth: nat, w: seq<int>, t: Tree)
    requires AreBytes(s) && Blanks(w) && TreeOk(WORKER, t)
    requires At(s, i, w) && At(s, i + |w|, TreeText(t)) && Follows(s, i + |w| + |TreeText(t)|)
    ensures i <= |s|
    ensures ValueEnd(s, i, depth) ==
            if depth + Height(t) <= MAX_DEPTH then Some(i + |w| + |TreeText(t)|) else None
    decreases t
  {
    hide At, TreeText, ItemsText, ScalarEnd, ItemsEnd, Blanks;
    var v := i + |w|;
    TreeStart(WORKER, s, v, t);
    BlanksAt(s, i, w);
    if !t.Container? {
      ScalarComplete(s, v, t);
    } else if t.items.End? {
      EmptyContainerAt(s, v, t);
      BlanksAt(s, v + 1, t.blank);
    } else {
      ContainerAt(s, v, t);
      ItemsComplete(s, v + 1, depth, t.isObject, t.items);
    }
  }

  /** The first item in the text is where the scanner finds it, up to its comma or closer. */
  lemma FirstItem(s: seq<int>, from: nat, depth: nat, isObject: bool, items: Items)
    requires AreBytes(s) && items.Item? && ItemsOk(WORKER, isObject, items)
    requires At(s, from, ItemsText(items, Closer(isObject)))
    ensures
      var k := from + |items.lead|;
      var p := k + |TagText(items.tag)|;
      var e := p + |items.pre| + |TreeText(items.value)|;
      && e <= |s| && SkipBlanks(s, from) == k && s[k] != Closer(isObject)
      && TagEnd(s, k, isObject) == Some(p)
      && ValueEnd(s, p, depth + 1) == (if depth + 1 + Height(items.value) <= MAX_DEPTH then Some(e) else None)
      && SkipBlanks(s, e) == ItemStop(from, items)
    decreases items, 0
  {
    hide At, TreeText, TagText, ItemsText, ValueEnd, TagEnd, SkipBlanks, TreeOk, TagOk, Blanks, Height;
    ItemsAt(s, from, items, Closer(isObject));
    var k := from + |items.lead|;
    var p := k + |TagText(items.tag)|;
    var e := p + |items.pre| + |TreeText(items.value)|;
    FollowsBlanks(s, e, items.post);
    ItemStart(s, k, isObject, items.tag, items.pre, items.value);
    BlanksAt(s, from, items.lead);
    ValueComplete(s, p, depth + 1, items.pre, items.value);
    BlanksAt(s, e, items.post);
  }

  /** Items in the text are where the scanner finds them, and it stops where they end. */
  lemma ItemsComplete(s: seq<int>, from: nat, depth: nat, isObject: bool, items: Items)
    requires AreBytes(s) && items.Item? && ItemsOk(WORKER, isObject, items)
    requires At(s, from, ItemsText(items, Closer(isObject)))
    ensures from <= |s|
    ensures var k := SkipBlanks(s, from);
            && k < |s| && s[k] != Closer(isObject)
            && ItemsEnd(s, k, depth, isObject) ==
               if depth + ItemsHeight(items) <= MAX_DEPTH
               then Some(from + |ItemsText(items, Closer(isObject))|) else None
    decreases items, 1
  {
    hide At, TreeText, TagText, ItemsText, ValueEnd, TagEnd, ItemsEnd, SkipBlanks, TreeOk, TagOk;
    hide Blanks, Height, AreBytes, ItemStop;
    FirstItem(s, from, depth, isObject, items);
    ItemsAt(s, from, items, Closer(isObject));
    var k := from + |items.lead|;
    var p := k + |TagText(items.tag)|;
    ItemsStep(s, k, depth, isObject, p, p + |items.pre| + |TreeText(items.value)|);
    if items.rest.Item? {
      ItemsComplete(s, ItemStop(from, items) + 1, depth, isObject, items.rest);
    }
  }

  /** An item's first character is no blank and no closer, and its name is found there. */
  lemma ItemStart(s: seq<int>, k: nat, isObject: bool, tag: Tag, pre: seq<int>, value: Tree)
    requires AreBytes(s) && TagOk(WORKER, isObject, tag) && (isObject || pre == []) && TreeOk(WORKER, value)
    requires var p := k + |TagText(tag)|;
             && At(s, k, TagText(tag)) && At(s, p, pre) && At(s, p + |pre|, TreeText(value))
             && Follows(s, p + |pre| + |TreeText(value)|)
    ensures k < |s| && !IsBlank(s[k]) && s[k] != Closer(isObject)
    ensures TagEnd(s, k, isObject) == Some(k + |TagText(tag)|)
  {
    hide At, TreeText, TreeOk, StringText;
    if isObject {
      KeyAt(s, k, tag);
      StringComplete(s, k, tag.name);
      BlanksAt(s, k + |StringText(tag.name)|, tag.gap);
    } else {
      assert |TagText(tag)| == 0;
      TreeStart(WORKER, s, k, value);
    }
  }
}
