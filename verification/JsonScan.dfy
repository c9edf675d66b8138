/**
 What the worker's byte recogniser computes, as functions from a start index to
 the index just past what was recognised, and the proof that this is exactly the
 grammar: soundness builds a syntax tree, completeness follows one.
 */
module JsonScan {
  import opened Wrappers
  import opened JsonGrammar
  import Utf8
  type Byte = Utf8.Byte

  /** Values nested deeper than this are refused. */
  const MAX_DEPTH := 64

  // ---- The scanner --------------------------------------------------------

  function SkipBlanks(s: seq<int>, i: nat): (k: nat)
    requires i <= |s|
    ensures i <= k <= |s|
    ensures Blanks(s[i..k])
    ensures k == |s| || !IsBlank(s[k])
    decreases |s| - i
  {
    if i < |s| && IsBlank(s[i]) then SkipBlanks(s, i + 1) else i
  }

  function SkipDigits(s: seq<int>, i: nat): (k: nat)
    requires i <= |s|
    ensures i <= k <= |s|
    ensures forall j :: i <= j < k ==> IsDigit(s[j])
    ensures k == |s| || !IsDigit(s[k])
    decreases |s| - i
  {
    if i < |s| && IsDigit(s[i]) then SkipDigits(s, i + 1) else i
  }

  /** Continuation bytes a lead byte announces; 0 for a byte that is no lead. */
  function TailCount(lead: int): nat {
    if 0xC2 <= lead <= 0xDF then 1
    else if 0xE0 <= lead <= 0xEF then 2
    else if 0xF0 <= lead <= 0xF4 then 3
    else 0
  }

  function LeadBits(lead: int): int {
    if lead <= 0xDF then lead % 32 else if lead <= 0xEF then lead % 16 else lead % 8
  }

  /** The code point after folding in `n` continuation bytes from index `i`. */
  function Fold(s: seq<int>, i: nat, n: nat, value: int): Option<int>
    requires i <= |s|
    decreases n
  {
    if n == 0 then Some(value)
    else if i == |s| || !Utf8.IsTail(s[i]) then None
    else Fold(s, i + 1, n - 1, value * 64 + s[i] % 64)
  }

  predicate CodePointOk(count: nat, value: int) {
    && !(count == 2 && value < 0x800) && !(count == 3 && value < 0x10000)
    && value <= 0x10FFFF && !(0xD800 <= value <= 0xDFFF)
  }

  function MultibyteEnd(s: seq<int>, i: nat): (r: Option<nat>)
    requires i < |s|
    ensures r.Some? ==> i < r.value <= |s|
  {
    var count := TailCount(s[i]);
    if count == 0 then None
    else
      match Fold(s, i + 1, count, LeadBits(s[i]))
      case None => None
      case Some(value) =>
        FoldFits(s, i + 1, count, LeadBits(s[i]));
        if CodePointOk(count, value) then Some(i + 1 + count) else None
  }

  lemma FoldFits(s: seq<int>, i: nat, n: nat, value: int)
    requires i <= |s| && Fold(s, i, n, value).Some?
    ensures i + n <= |s|
    decreases n
  {
    if n > 0 { FoldFits(s, i + 1, n - 1, value * 64 + s[i] % 64); }
  }

  function EscapeEnd(s: seq<int>, i: nat): (r: Option<nat>)
    requires i <= |s|
    ensures r.Some? ==> i < r.value <= |s|
  {
    if i == |s| then None
    else if s[i] == LOWER_U then
      if i + 5 <= |s| && forall k :: i < k < i + 5 ==> IsHex(s[k]) then Some(i + 5) else None
    else if IsEscapeLetter(s[i]) || s[i] == 0 then Some(i + 1)
    else None
  }

  function PieceEnd(s: seq<int>, i: nat): (r: Option<nat>)
    requires i < |s|
    ensures r.Some? ==> i < r.value <= |s|
  {
    if s[i] < 0x20 then None
    else if s[i] == BACKSLASH then EscapeEnd(s, i + 1)
    else if s[i] >= 0x80 then MultibyteEnd(s, i)
    else Some(i + 1)
  }

  function BodyEnd(s: seq<int>, i: nat): (r: Option<nat>)
    requires i <= |s|
    ensures r.Some? ==> i < r.value <= |s|
    decreases |s| - i
  {
    if i == |s| then None
    else if s[i] == QUOTE then Some(i + 1)
    else match PieceEnd(s, i)
         case None => None
         case Some(k) => BodyEnd(s, k)
  }

  function StringEnd(s: seq<int>, i: nat): (r: Option<nat>)
    requires i <= |s|
    ensures r.Some? ==> i < r.value <= |s|
  {
    if i == |s| || s[i] != QUOTE then None else BodyEnd(s, i + 1)
  }

  function FracEnd(s: seq<int>, i: nat): (r: Option<nat>)
    requires i <= |s|
    ensures r.Some? ==> i <= r.value <= |s|
  {
    if i < |s| && s[i] == DOT then
      var e := SkipDigits(s, i + 1); if e == i + 1 then None else Some(e)
    else Some(i)
  }

  function ExpEnd(s: seq<int>, i: nat): (r: Option<nat>)
    requires i <= |s|
    ensures r.Some? ==> i <= r.value <= |s|
  {
    if i < |s| && (s[i] == LOWER_E || s[i] == UPPER_E) then
      var start := if i + 1 < |s| && IsSign(s[i + 1]) then i + 2 else i + 1;
      var e := SkipDigits(s, start); if e == start then None else Some(e)
    else Some(i)
  }

  function NumberEnd(s: seq<int>, i: nat): (r: Option<nat>)
    requires i < |s|
    ensures r.Some? ==> i < r.value <= |s|
  {
    var w := if s[i] == MINUS then i + 1 else i;
    if w == |s| || !IsDigit(s[w]) then None
    else
      var f := if s[w] == ZERO then w + 1 else SkipDigits(s, w + 1);
      match FracEnd(s, f)
      case None => None
      case Some(x) => ExpEnd(s, x)
  }

  predicate At(s: seq<int>, i: nat, text: seq<int>) {
    i + |text| <= |s| && s[i..i + |text|] == text
  }

  function WordEnd(s: seq<int>, i: nat, word: seq<int>): Option<nat> {
    if At(s, i, word) then Some(i + |word|) else None
  }

  function ScalarEnd(s: seq<int>, i: nat): (r: Option<nat>)
    requires i < |s|
    ensures r.Some? ==> i < r.value <= |s|
  {
    if s[i] == QUOTE then StringEnd(s, i)
    else if s[i] == TRUE_WORD[0] then WordEnd(s, i, TRUE_WORD)
    else if s[i] == FALSE_WORD[0] then WordEnd(s, i, FALSE_WORD)
    else if s[i] == NULL_WORD[0] then WordEnd(s, i, NULL_WORD)
    else NumberEnd(s, i)
  }

  function ValueEnd(s: seq<int>, i: nat, depth: nat): (r: Option<nat>)
    requires i <= |s|
    ensures r.Some? ==> i < r.value <= |s|
    decreases |s| - i, 0
  {
    var v := SkipBlanks(s, i);
    if depth > MAX_DEPTH || v == |s| then None
    else if s[v] == LBRACE || s[v] == LBRACKET then
      var isObject := s[v] == LBRACE;
      var k := SkipBlanks(s, v + 1);
      if k < |s| && s[k] == Closer(isObject) then Some(k + 1)
      else ItemsEnd(s, k, depth, isObject)
    else ScalarEnd(s, v)
  }

  /** The end of an object member's name and colon; nothing for an array element. */
  function TagEnd(s: seq<int>, i: nat, isObject: bool): (r: Option<nat>)
    requires i <= |s|
    ensures r.Some? ==> i <= r.value <= |s|
  {
    if !isObject then Some(i)
    else match StringEnd(s, i)
         case None => None
         case Some(k) =>
           var c := SkipBlanks(s, k);
           if c < |s| && s[c] == COLON then Some(c + 1) else None
  }

  /** The end of one item and of the blanks that follow it. */
  function ItemEnd(s: seq<int>, i: nat, depth: nat, isObject: bool): (r: Option<nat>)
    requires i <= |s|
    ensures r.Some? ==> i < r.value <= |s|
    decreases |s| - i, 1
  {
    match TagEnd(s, i, isObject)
    case None => None
    case Some(v) =>
      match ValueEnd(s, v, depth + 1)
      case None => None
      case Some(e) => Some(SkipBlanks(s, e))
  }

  function ItemsEnd(s: seq<int>, i: nat, depth: nat, isObject: bool): (r: Option<nat>)
    requires i <= |s|
    ensures r.Some? ==> i < r.value <= |s|
    decreases |s| - i, 2
  {
    match ItemEnd(s, i, depth, isObject)
    case None => None
    case Some(c) =>
      if c == |s| then None
      else if s[c] == Closer(isObject) then Some(c + 1)
      else if s[c] != COMMA then None
      else ItemsEnd(s, SkipBlanks(s, c + 1), depth, isObject)
  }

  /** Whether the whole of `s` is accepted as one JSON object. */
  predicate Accepts(s: seq<int>) {
    var i := SkipBlanks(s, 0);
    && i < |s| && s[i] == LBRACE
    && var r := ValueEnd(s, i, 0); r.Some? && SkipBlanks(s, r.value) == |s|
  }

  // ---- Texts inside texts -------------------------------------------------

  lemma AtConcat(s: seq<int>, i: nat, a: seq<int>, b: seq<int>)
    ensures At(s, i, a + b) <==> At(s, i, a) && At(s, i + |a|, b)
  {
    if i + |a| + |b| <= |s| {
      var t := s[i..i + |a + b|];
      assert t[..|a|] == s[i..i + |a|] && t[|a|..] == s[i + |a|..i + |a| + |b|];
      if At(s, i, a + b) {
        assert (a + b)[..|a|] == a && (a + b)[|a|..] == b;
      }
      if At(s, i, a) && At(s, i + |a|, b) {
        assert t == t[..|a|] + t[|a|..];
      }
    }
  }

  lemma AtThree(s: seq<int>, i: nat, a: seq<int>, b: seq<int>, c: seq<int>)
    ensures At(s, i, a + (b + c)) <==> At(s, i, a) && At(s, i + |a|, b) && At(s, i + |a| + |b|, c)
  {
    hide At;
    AtConcat(s, i, a, b + c);
    AtConcat(s, i + |a|, b, c);
  }

  lemma SliceAt(s: seq<int>, i: nat, k: nat)
    requires i <= k <= |s|
    ensures At(s, i, s[i..k])
  {
  }

  lemma AtOne(s: seq<int>, i: nat, c: int)
    ensures At(s, i, [c]) <==> i < |s| && s[i] == c
  {
  }

  lemma BlanksAt(s: seq<int>, i: nat, w: seq<int>)
    requires At(s, i, w) && Blanks(w)
    requires i + |w| == |s| || !IsBlank(s[i + |w|])
    ensures SkipBlanks(s, i) == i + |w|
    decreases |w|
  {
    if w != [] {
      assert s[i] == w[0];
      BlanksAt(s, i + 1, w[1..]);
    }
  }

  lemma DigitsAt(s: seq<int>, i: nat, w: seq<int>)
    requires At(s, i, w) && forall k :: 0 <= k < |w| ==> IsDigit(w[k])
    requires i + |w| == |s| || !IsDigit(s[i + |w|])
    ensures SkipDigits(s, i) == i + |w|
    decreases |w|
  {
    if w != [] {
      assert s[i] == w[0];
      DigitsAt(s, i + 1, w[1..]);
    }
  }
}
