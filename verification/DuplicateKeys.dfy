/**
 The second walk over a status document.  JSON.parse has already accepted the
 text, so a syntax tree for it exists; the walk decides, without building one,
 whether containers nest too deep and whether an object repeats a decoded key.
 */
module DuplicateKeys {
  import opened Wrappers
  import opened JsonGrammar
  import opened JsonScan
  import opened JsonRecognition

  const MAX_CONTAINERS := 64

  // ---- Decoded strings ----------------------------------------------------

  function HexDigit(c: int): int {
    if IsDigit(c) then c - ZERO else if c <= 0x46 then c - 0x41 + 10 else c - 0x61 + 10
  }

  function HexValue(hex: seq<int>): int
    requires |hex| == 4
  {
    ((HexDigit(hex[0]) * 16 + HexDigit(hex[1])) * 16 + HexDigit(hex[2])) * 16 + HexDigit(hex[3])
  }

  function Unescape(letter: int): int {
    match letter
    case 0x62 => 0x08
    case 0x66 => 0x0C
    case 0x6E => LF
    case 0x72 => CR
    case 0x74 => TAB
    case _ => letter
  }

  /** The code unit a piece stands for, by section 7 of RFC 8259. */
  function DecodePiece(p: Piece): int
    requires PieceOk(CodeUnits, p)
  {
    match p
    case Plain(units) => units[0]
    case Escape(letter) => Unescape(letter)
    case Unicode(hex) => HexValue(hex)
  }

  function DecodeBody(b: Body): seq<int>
    requires BodyOk(CodeUnits, b)
  {
    match b
    case Closing => []
    case Then(p, rest) => [DecodePiece(p)] + DecodeBody(rest)
  }

  /** What JSON.parse makes of the text after an opening quote. */
  function DecodeText(s: seq<int>): seq<int>
    decreases |s|
  {
    if s == [] || s[0] == QUOTE then []
    else if s[0] != BACKSLASH then [s[0]] + DecodeText(s[1..])
    else if |s| < 2 then []
    else if s[1] != LOWER_U then [Unescape(s[1])] + DecodeText(s[2..])
    else if |s| < 6 then []
    else [HexValue(s[2..6])] + DecodeText(s[6..])
  }

  lemma DecodeBodyText(b: Body)
    requires BodyOk(CodeUnits, b)
    ensures DecodeText(BodyText(b)) == DecodeBody(b)
  {
    if b.Then? {
      DecodeBodyText(b.rest);
      var piece, s := PieceText(b.piece), BodyText(b);
      assert s[|piece|..] == BodyText(b.rest);
      if b.piece.Unicode? { assert s[2..6] == b.piece.hex; }
    }
  }

  /** Where a scan that only knows quotes and backslashes ends a string. */
  function RawEnd(s: seq<int>, i: nat): (r: Option<nat>)
    ensures r.Some? ==> i < r.value <= |s|
    decreases |s| - i
  {
    if i >= |s| then None
    else if s[i] == BACKSLASH then RawEnd(s, i + 2)
    else if s[i] == QUOTE then Some(i + 1)
    else RawEnd(s, i + 1)
  }

  lemma RawEndPiece(s: seq<int>, i: nat, p: Piece)
    requires PieceOk(CodeUnits, p) && At(s, i, PieceText(p))
    ensures RawEnd(s, i) == RawEnd(s, i + |PieceText(p)|)
  {
    var text := PieceText(p);
    assert s[i] == s[i..i + |text|][0];
    if p.Unicode? {
      assert forall k :: 0 <= k < 4 ==> s[i + 2 + k] == s[i..i + |text|][2 + k] == p.hex[k];
      assert s[i + 2] == p.hex[0] && s[i + 3] == p.hex[1] && s[i + 4] == p.hex[2] && s[i + 5] == p.hex[3];
      assert RawEnd(s, i + 2) == RawEnd(s, i + 3) == RawEnd(s, i + 4) == RawEnd(s, i + 5) == RawEnd(s, i + 6);
    }
  }

  lemma RawEndBody(s: seq<int>, i: nat, b: Body)
    requires BodyOk(CodeUnits, b) && At(s, i, BodyText(b))
    ensures RawEnd(s, i) == Some(i + |BodyText(b)|)
    decreases b
  {
    hide RawEnd, PieceText, PieceOk;
    match b {
      case Closing =>
        AtOne(s, i, QUOTE);
        RawEndQuote(s, i);
      case Then(p, rest) =>
        AtConcat(s, i, PieceText(p), BodyText(rest));
        RawEndPiece(s, i, p);
        RawEndBody(s, i + |PieceText(p)|, rest);
    }
  }

  lemma RawEndQuote(s: seq<int>, i: nat)
    requires i < |s| && s[i] == QUOTE
    ensures RawEnd(s, i) == Some(i + 1)
  {
  }

  // ---- What the walk decides ----------------------------------------------

  ghost predicate Distinct(names: seq<seq<int>>) {
    forall i, j :: 0 <= i < j < |names| ==> names[i] != names[j]
  }

  ghost function Names(items: Items): seq<seq<int>>
    requires ItemsOk(CodeUnits, true, items)
  {
    if items.End? then [] else [DecodeBody(items.tag.name)] + Names(items.rest)
  }

  /** No object of the tree has two members whose decoded names are equal. */
  ghost predicate NoDuplicates(t: Tree)
    requires TreeOk(CodeUnits, t)
    decreases t
  {
    t.Container? ==>
      (t.isObject ==> Distinct(Names(t.items))) && NoDuplicatesWithin(t.isObject, t.items)
  }

  ghost predicate NoDuplicatesWithin(isObject: bool, items: Items)
    requires ItemsOk(CodeUnits, isObject, items)
    decreases items
  {
    items.Item? ==> NoDuplicates(items.value) && NoDuplicatesWithin(isObject, items.rest)
  }

  /** What remains to be decided after the names in `seen`. */
  ghost predicate Remaining(isObject: bool, items: Items, seen: set<seq<int>>)
    requires ItemsOk(CodeUnits, isObject, items)
    decreases items
  {
    items.Item? ==>
      && NoDuplicates(items.value)
      && (isObject ==> DecodeBody(items.tag.name) !in seen)
      && Remaining(isObject, items.rest, seen + (if isObject then {DecodeBody(items.tag.name)} else {}))
  }

  lemma DistinctCons(name: seq<int>, rest: seq<seq<int>>)
    ensures Distinct([name] + rest) <==> Distinct(rest) && name !in rest
  {
    var names := [name] + rest;
    assert forall k :: 0 <= k < |rest| ==> names[k + 1] == rest[k];
    if Distinct(names) {
      forall i, j | 0 <= i < j < |rest| ensures rest[i] != rest[j] {
        assert names[i + 1] != names[j + 1];
      }
      forall k | 0 <= k < |rest| ensures rest[k] != name {
        assert names[0] != names[k + 1];
      }
    }
  }

  /** A first name is new among the others and the seen, seen or not with the rest. */
  lemma DistinctFrom(name: seq<int>, rest: seq<seq<int>>, seen: set<seq<int>>)
    ensures (Distinct([name] + rest) && forall n :: n in [name] + rest ==> n !in seen) <==>
            (name !in seen && Distinct(rest) && forall n :: n in rest ==> n !in seen + {name})
  {
    hide Distinct;
    DistinctCons(name, rest);
    assert forall n :: n in [name] + rest <==> n == name || n in rest;
  }

  /** No two of the names are equal and none was seen. */
  ghost predicate AllNew(names: seq<seq<int>>, seen: set<seq<int>>) {
    Distinct(names) && forall n :: n in names ==> n !in seen
  }

  lemma RemainingItem(isObject: bool, items: Items, seen: set<seq<int>>)
    requires ItemsOk(CodeUnits, isObject, items) && items.Item?
    ensures ItemsOk(CodeUnits, isObject, items.rest)
    ensures NoDuplicatesWithin(isObject, items) <==>
            NoDuplicates(items.value) && NoDuplicatesWithin(isObject, items.rest)
    ensures isObject ==> Names(items) == [DecodeBody(items.tag.name)] + Names(items.rest)
    ensures isObject ==>
              var name := DecodeBody(items.tag.name);
              (Remaining(isObject, items, seen) <==>
                 NoDuplicates(items.value) && name !in seen && Remaining(isObject, items.rest, seen + {name}))
    ensures !isObject ==>
              (Remaining(isObject, items, seen) <==> NoDuplicates(items.value) && Remaining(isObject, items.rest, seen))
  {
    hide NoDuplicates, DecodeBody;
    assert seen + {} == seen;
  }

  lemma RemainingMeans(isObject: bool, items: Items, seen: set<seq<int>>)
    requires ItemsOk(CodeUnits, isObject, items)
    ensures Remaining(isObject, items, seen) <==>
            NoDuplicatesWithin(isObject, items) && (isObject ==> AllNew(Names(items), seen))
    decreases items
  {
    if items.Item? {
      hide NoDuplicates, NoDuplicatesWithin, DecodeBody, Distinct, Remaining, Names, ItemsOk;
      RemainingItem(isObject, items, seen);
      if isObject {
        var name := DecodeBody(items.tag.name);
        RemainingMeans(isObject, items.rest, seen + {name});
        DistinctFrom(name, Names(items.rest), seen);
      } else {
        RemainingMeans(isObject, items.rest, seen);
      }
    }
  }

  // ---- Scalars ------------------------------------------------------------

  predicate IsStop(c: int) {
    IsBlank(c) || c == COMMA || c == RBRACKET || c == RBRACE
  }

  function StopAt(s: seq<int>, i: nat): (k: nat)
    requires i <= |s|
    ensures i <= k <= |s|
    decreases |s| - i
  {
    if i < |s| && !IsStop(s[i]) then StopAt(s, i + 1) else i
  }

  lemma StopAfter(s: seq<int>, i: nat, text: seq<int>)
    requires At(s, i, text) && (forall k :: 0 <= k < |text| ==> !IsStop(text[k])) && Follows(s, i + |text|)
    ensures StopAt(s, i) == i + |text|
    decreases |text|
  {
    if text != [] {
      assert s[i] == text[0];
      StopAfter(s, i + 1, text[1..]);
    }
  }

  lemma ScalarHasNoStop(t: Tree)
    requires TreeOk(CodeUnits, t) && (t.Literal? || t.Number?)
    ensures forall k :: 0 <= k < |TreeText(t)| ==> !IsStop(TreeText(t)[k])
  {
    if t.Number? {
      var sign := if t.minus then [MINUS] else [];
      assert forall c :: c in t.whole ==> !IsStop(c);
      FracHasNoStop(t.frac);
      ExpHasNoStop(t.exp);
      assert forall c :: c in TreeText(t) ==> c in sign || c in t.whole || c in t.frac || c in t.exp;
      assert forall k :: 0 <= k < |TreeText(t)| ==> TreeText(t)[k] in TreeText(t);
    }
  }

  lemma FracHasNoStop(frac: seq<int>)
    requires FracOk(frac)
    ensures forall c :: c in frac ==> !IsStop(c)
  {
    if frac != [] { assert frac == [DOT] + frac[1..]; }
  }

  lemma ExpHasNoStop(exp: seq<int>)
    requires ExpOk(exp)
    ensures forall c :: c in exp ==> !IsStop(c)
  {
    if exp != [] {
      var tail := exp[1..];
      assert exp == [exp[0]] + tail;
      if !Digits(tail) { assert tail == [tail[0]] + tail[1..]; }
    }
  }

  // ---- Items --------------------------------------------------------------

  /** An item list begins, after its blanks, with a character that is not the closer. */
  lemma ItemsBegin(s: seq<int>, from: nat, isObject: bool, items: Items)
    requires items.Item? && ItemsOk(CodeUnits, isObject, items)
    requires At(s, from, ItemsText(items, Closer(isObject)))
    ensures var k := from + |items.lead|;
            k < |s| && SkipBlanks(s, from) == k && s[k] != Closer(isObject)
  {
    hide At, TreeText, ItemsText, TagText, StringText, TreeOk, Blanks, SkipBlanks;
    var k := from + |items.lead|;
    ItemsAt(s, from, items, Closer(isObject));
    if isObject {
      KeyAt(s, k, items.tag);
      StringBegins(s, k, items.tag.name);
    } else {
      NoTagText(items.tag);
      TreeStart(CodeUnits, s, k, items.value);
    }
    BlanksAt(s, from, items.lead);
  }

  lemma StringIs(t: Tree)
    requires t.String?
    ensures TreeText(t) == StringText(t.body)
  {
  }

  lemma NoTagText(tag: Tag)
    requires tag.NoTag?
    ensures TagText(tag) == []
  {
  }

  lemma StringBegins(s: seq<int>, k: nat, name: Body)
    requires At(s, k, StringText(name))
    ensures k < |s| && s[k] == QUOTE
  {
    AtConcat(s, k, [QUOTE], BodyText(name));
    AtOne(s, k, QUOTE);
  }

  /** What follows an item's value may follow any value. */
  lemma ItemFollows(s: seq<int>, from: nat, isObject: bool, items: Items)
    requires items.Item? && ItemsOk(CodeUnits, isObject, items)
    requires At(s, from, ItemsText(items, Closer(isObject)))
    ensures var e := ItemStop(from, items) - |items.post|;
            Follows(s, e) && SkipBlanks(s, e) == ItemStop(from, items) <= |s|
  {
    hide At, TreeText, ItemsText, TagText, StringText, TreeOk, Blanks, SkipBlanks;
    ItemsAt(s, from, items, Closer(isObject));
    var e := ItemStop(from, items) - |items.post|;
    FollowsBlanks(s, e, items.post);
    BlanksAt(s, e, items.post);
  }

  lemma RemainingStep(isObject: bool, items: Items, seen: set<seq<int>>)
    requires items.Item? && ItemsOk(CodeUnits, isObject, items)
    ensures ItemsNesting(items) == Max(Nesting(items.value), ItemsNesting(items.rest))
    ensures Remaining(isObject, items, seen) <==>
            && NoDuplicates(items.value)
            && (isObject ==> DecodeBody(items.tag.name) !in seen)
            && Remaining(isObject, items.rest, seen + (if isObject then {DecodeBody(items.tag.name)} else {}))
  {
  }

  // ---- The walk -----------------------------------------------------------

  class Walker {
    const text: seq<int>
    var offset: nat

    constructor (text: seq<int>)
      ensures this.text == text && offset == 0
    {
      this.text := text;
      offset := 0;
    }

    predicate Looking(c: int)
      reads this
    {
      offset < |text| && text[offset] == c
    }

    method Whitespace()
      requires offset <= |text|
      modifies this
      ensures offset <= |text| && offset == SkipBlanks(text, old(offset))
    {
      while offset < |text| && IsBlank(text[offset])
        invariant offset <= |text| && SkipBlanks(text, offset) == SkipBlanks(text, old(offset))
      {
        offset := offset + 1;
      }
    }

    /** Any text: scans to the closing quote and decodes, or runs out and throws. */
    method String() returns (key: Result<seq<int>>)
      modifies this
      ensures match RawEnd(text, old(offset) + 1)
              case None => key.Thrown?
              case Some(e) => key == Ok(DecodeText(text[old(offset) + 1..e])) && offset == e
    {
      var start := offset;
      offset := offset + 1;
      while offset < |text|
        invariant start < offset && RawEnd(text, offset) == RawEnd(text, start + 1)
      {
        var c := text[offset];
        offset := offset + 1;
        if c == BACKSLASH { offset := offset + 1; }
        else if c == QUOTE { return Ok(DecodeText(text[start + 1..offset])); }
      }
      return Thrown;
    }

    method StringAt(ghost b: Body) returns (key: Result<seq<int>>)
      requires BodyOk(CodeUnits, b) && At(text, offset, StringText(b))
      modifies this
      ensures key == Ok(DecodeBody(b)) && offset == old(offset) + |StringText(b)| <= |text|
    {
      AtConcat(text, offset, [QUOTE], BodyText(b));
      RawEndBody(text, offset + 1, b);
      DecodeBodyText(b);
      key := String();
    }

    method Scalar(ghost t: Tree)
      requires TreeOk(CodeUnits, t) && (t.Literal? || t.Number?) && At(text, offset, TreeText(t))
      requires Follows(text, offset + |TreeText(t)|)
      modifies this
      ensures offset == old(offset) + |TreeText(t)| <= |text|
    {
      ScalarHasNoStop(t);
      StopAfter(text, offset, TreeText(t));
      while offset < |text| && !IsStop(text[offset])
        invariant offset <= |text| && StopAt(text, offset) == StopAt(text, old(offset))
      {
        offset := offset + 1;
      }
    }

    /** The walk over one value; `ok` is false when it throws. */
    method Visit(depth: nat, ghost w: seq<int>, ghost t: Tree) returns (ok: bool)
      requires TreeOk(CodeUnits, t) && Blanks(w) && depth <= MAX_CONTAINERS
      requires At(text, offset, w) && At(text, offset + |w|, TreeText(t))
      requires Follows(text, offset + |w| + |TreeText(t)|)
      modifies this
      ensures ok <==> depth + Nesting(t) <= MAX_CONTAINERS && NoDuplicates(t)
      ensures ok ==> offset == old(offset) + |w| + |TreeText(t)| <= |text|
      decreases t, 1
    {
      hide At, TreeText, StringText, Blanks;
      TreeStart(CodeUnits, text, offset + |w|, t);
      BlanksAt(text, offset, w);
      Whitespace();
      var c := text[offset];
      if c == QUOTE {
        StringIs(t);
        var key := StringAt(t.body);
        return true;
      }
      if c == LBRACE || c == LBRACKET {
        if depth >= 64 { return false; }
        ok := ContainerAtOpener(depth, t);
        return;
      }
      Scalar(t);
      return true;
    }

    /** The walk over a container, from its opening character on. */
    method ContainerAtOpener(depth: nat, ghost t: Tree) returns (ok: bool)
      requires TreeOk(CodeUnits, t) && t.Container? && depth < MAX_CONTAINERS
      requires At(text, offset, TreeText(t)) && offset < |text| && text[offset] == Opener(t.isObject)
      modifies this
      ensures ok <==> depth + Nesting(t) <= MAX_CONTAINERS && NoDuplicates(t)
      ensures ok ==> offset == old(offset) + |TreeText(t)| <= |text|
      decreases t, 0
    {
      hide At, TreeText, ItemsText, Blanks, SkipBlanks;
      ghost var v := offset;
      var isObject := text[offset] == LBRACE;
      offset := offset + 1;
      if t.items.End? {
        EmptyContainerAt(text, v, t);
        BlanksAt(text, v + 1, t.blank);
      } else {
        ContainerAt(text, v, t);
        ItemsBegin(text, v + 1, isObject, t.items);
        RemainingMeans(isObject, t.items, {});
      }
      Whitespace();
      if Looking(Closer(isObject)) {
        offset := offset + 1;
        return true;
      }
      ok := Members(depth, isObject, t.items);
    }

    /** The loop over the items of a container, up to and including its closer. */
    method Members(depth: nat, isObject: bool, ghost items: Items) returns (ok: bool)
      requires items.Item? && ItemsOk(CodeUnits, isObject, items) && depth < MAX_CONTAINERS
      requires offset >= |items.lead| && At(text, offset - |items.lead|, ItemsText(items, Closer(isObject)))
      modifies this
      ensures ok <==> depth + 1 + ItemsNesting(items) <= MAX_CONTAINERS && Remaining(isObject, items, {})
      ensures ok ==> offset == old(offset) - |items.lead| + |ItemsText(items, Closer(isObject))| <= |text|
      decreases items, 1
    {
      hide At, TreeText, ItemsText, TagText, TreeOk, TagOk, Blanks, Remaining, NoDuplicates;
      hide Nesting, ItemsNesting, SkipBlanks, DecodeBody;
      var keys: set<seq<int>> := {};
      ghost var rest := items;
      ghost var end := offset - |items.lead| + |ItemsText(items, Closer(isObject))|;
      while true
        invariant rest.Item? && ItemsOk(CodeUnits, isObject, rest) && (rest == items || rest < items)
        invariant offset >= |rest.lead| && At(text, offset - |rest.lead|, ItemsText(rest, Closer(isObject)))
        invariant end == offset - |rest.lead| + |ItemsText(rest, Closer(isObject))|
        invariant
          (depth + 1 + ItemsNesting(items) <= MAX_CONTAINERS && Remaining(isObject, items, {})) <==>
          (depth + 1 + ItemsNesting(rest) <= MAX_CONTAINERS && Remaining(isObject, rest, keys))
        decreases rest
      {
        ghost var from := offset - |rest.lead|;
        RemainingStep(isObject, rest, keys);
        ItemsAt(text, from, rest, Closer(isObject));
        ok, keys := Member(depth, isObject, keys, rest);
        if !ok { return; }
        var next := text[offset];
        offset := offset + 1;
        if next == Closer(isObject) {
          EndRemains(isObject, rest.rest, keys);
          return;
        }
        rest := rest.rest;
        ItemsBegin(text, offset, isObject, rest);
        Whitespace();
      }
    }

    /** One item: its name if it has one, its value, and the blanks after it. */
    method Member(depth: nat, isObject: bool, keys: set<seq<int>>, ghost items: Items)
      returns (ok: bool, keys': set<seq<int>>)
      requires items.Item? && ItemsOk(CodeUnits, isObject, items) && depth < MAX_CONTAINERS
      requires offset >= |items.lead| && At(text, offset - |items.lead|, ItemsText(items, Closer(isObject)))
      modifies this
      ensures ok <==> && depth + 1 + Nesting(items.value) <= MAX_CONTAINERS && NoDuplicates(items.value)
                      && (isObject ==> DecodeBody(items.tag.name) !in keys)
      ensures ok ==> && offset == ItemStop(old(offset) - |items.lead|, items) <= |text|
                     && keys' == keys + (if isObject then {DecodeBody(items.tag.name)} else {})
      decreases items, 0
    {
      hide At, TreeText, ItemsText, TagText, StringText, TreeOk, Blanks, NoDuplicates, Nesting, SkipBlanks, DecodeBody;
      ghost var from := offset - |items.lead|;
      ItemsAt(text, from, items, Closer(isObject));
      ItemFollows(text, from, isObject, items);
      keys' := keys;
      if isObject {
        KeyAt(text, offset, items.tag);
        var key := StringAt(items.tag.name);
        if key.value in keys { return false, keys; }
        keys' := keys + {key.value};
        BlanksAt(text, offset, items.tag.gap);
        Whitespace();
        offset := offset + 1;
      } else {
        NoTagText(items.tag);
      }
      ok := Visit(depth + 1, items.pre, items.value);
      if ok { Whitespace(); }
    }
  }

  lemma EndRemains(isObject: bool, items: Items, seen: set<seq<int>>)
    requires items.End?
    ensures ItemsNesting(items) == 0 && Remaining(isObject, items, seen)
  {
  }

  /** The whole walk, on the text of any document of the grammar. */
  method UniqueKeys(text: seq<int>, ghost d: Document) returns (ok: bool)
    requires DocumentOk(CodeUnits, d) && DocumentText(d) == text
    ensures ok <==> Nesting(d.root) <= MAX_CONTAINERS && NoDuplicates(d.root)
  {
    hide At, TreeText, ItemsText, DocumentText, Blanks;
    var walker := new Walker(text);
    WholeDocument(text, d);
    ok := walker.Visit(0, d.before, d.root);
    if !ok { return; }
    walker.Whitespace();
    assert walker.offset == |text|;
    ok := walker.offset == |text|;
  }

  lemma WholeDocument(s: seq<int>, d: Document)
    requires DocumentOk(CodeUnits, d) && DocumentText(d) == s
    ensures At(s, 0, d.before) && At(s, |d.before|, TreeText(d.root))
    ensures var e := |d.before| + |TreeText(d.root)|;
            Follows(s, e) && e <= |s| && SkipBlanks(s, e) == |s|
  {
    hide At, TreeText, ItemsText, Blanks;
    AtThree(s, 0, d.before, TreeText(d.root), d.after);
    AtWhole(s);
    var e := |d.before| + |TreeText(d.root)|;
    FollowsBlanks(s, e, d.after);
    BlanksAt(s, e, d.after);
  }

  lemma AtWhole(s: seq<int>)
    ensures At(s, 0, s)
  {
  }
}
