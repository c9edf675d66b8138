/**
 Which byte strings the worker takes for a JSON object: exactly the documents of
 RFC 8259 in well-formed UTF-8, at most 64 levels deep, except that a backslash
 followed by the byte 0 passes for an escape.
 */
module WorkerDialect {
  import opened Wrappers
  import opened JsonGrammar
  import opened JsonScan
  import opened JsonRecognition

  /** `d` is a document whose root is an object at most `MAX_DEPTH` levels deep, and it spells `s`. */
  ghost predicate Spells(enc: Encoding, d: Document, s: seq<int>) {
    && DocumentOk(enc, d) && d.root.Container? && d.root.isObject
    && Height(d.root) <= MAX_DEPTH && DocumentText(d) == s
  }

  ghost predicate IsObjectText(enc: Encoding, s: seq<int>) {
    exists d :: Spells(enc, d, s)
  }

  lemma DocumentAt(s: seq<int>, d: Document)
    ensures
      var i := |d.before|;
      var e := i + |TreeText(d.root)|;
      DocumentText(d) == s <==>
      At(s, 0, d.before) && At(s, i, TreeText(d.root)) && At(s, e, d.after) && e + |d.after| == |s|
  {
    hide TreeText;
    AtThree(s, 0, d.before, TreeText(d.root), d.after);
    assert s[0..|s|] == s;
  }

  lemma AcceptedIsSpelled(s: seq<int>) returns (d: Document)
    requires AreBytes(s) && Accepts(s)
    ensures Spells(WORKER, d, s)
  {
    hide At, TreeText, ValueEnd, TreeOk, Height, DocumentText;
    ValueEndSkips(s, 0, 0);
    var w, t := ValueSound(s, 0, 0);
    var e := ValueEnd(s, 0, 0).value;
    d := Document(w, t, s[e..|s|]);
    SliceAt(s, 0, SkipBlanks(s, 0));
    SliceAt(s, e, |s|);
    DocumentAt(s, d);
  }

  /** Blanks before a value make no difference to where it ends. */
  lemma ValueEndSkips(s: seq<int>, i: nat, depth: nat)
    requires i <= |s|
    ensures ValueEnd(s, SkipBlanks(s, i), depth) == ValueEnd(s, i, depth)
  {
    NoBlanks(s, SkipBlanks(s, i));
  }

  lemma SpelledIsAccepted(s: seq<int>, d: Document)
    requires AreBytes(s) && Spells(WORKER, d, s)
    ensures Accepts(s)
  {
    hide At, TreeText, ValueEnd, TreeOk, Height, DocumentText, Blanks;
    DocumentAt(s, d);
    var i := |d.before|;
    var e := i + |TreeText(d.root)|;
    EndFollows(s, e, d.after);
    TreeStart(WORKER, s, i, d.root);
    BlanksAt(s, 0, d.before);
    ValueEndSkips(s, 0, 0);
    ValueComplete(s, 0, 0, d.before, d.root);
    BlanksAt(s, e, d.after);
  }

  lemma EndFollows(s: seq<int>, e: nat, after: seq<int>)
    requires At(s, e, after) && Blanks(after) && e + |after| == |s|
    ensures Follows(s, e)
  {
    if after != [] { assert s[e] == after[0]; }
  }

  /** The recogniser decides membership in the worker's dialect, for every byte string. */
  lemma RecognisesWorkerDialect(s: seq<int>)
    requires AreBytes(s)
    ensures Accepts(s) <==> IsObjectText(WORKER, s)
  {
    if Accepts(s) {
      var d := AcceptedIsSpelled(s);
    }
    if d :| Spells(WORKER, d, s) {
      SpelledIsAccepted(s, d);
    }
  }

  // ---- Against RFC 8259 itself --------------------------------------------

  lemma BodyStrict(b: Body)
    requires BodyOk(WORKER, b)
    ensures BodyOk(STRICT, b) <==> 0 !in BodyText(b)
  {
    if b.Then? {
      BodyStrict(b.rest);
      assert 0 in BodyText(b) <==> 0 in PieceText(b.piece) || 0 in BodyText(b.rest);
    }
  }

  lemma NumberNoNul(t: Tree)
    requires t.Number? && TreeOk(WORKER, t)
    ensures 0 !in TreeText(t)
  {
    assert forall c :: c in t.whole ==> IsDigit(c);
    assert t.frac != [] ==> t.frac == [DOT] + t.frac[1..];
    if t.exp != [] {
      assert t.exp == [t.exp[0]] + t.exp[1..];
      var tail := t.exp[1..];
      if !Digits(tail) { assert tail == [tail[0]] + tail[1..]; }
      assert 0 !in tail;
    }
    assert 0 !in t.frac && 0 !in t.exp;
  }

  lemma BlanksNoNul(s: seq<int>)
    requires Blanks(s)
    ensures 0 !in s
  {
  }

  lemma TreeStrict(t: Tree)
    requires TreeOk(WORKER, t)
    ensures TreeOk(STRICT, t) <==> 0 !in TreeText(t)
    decreases t
  {
    match t {
      case Literal(_) =>
      case Number(_, _, _, _) => NumberNoNul(t);
      case String(body) => BodyStrict(body);
      case Container(isObject, blank, items) =>
        BlanksNoNul(blank);
        if items.Item? { ItemsStrict(items, isObject); }
    }
  }

  lemma TagStrict(tag: Tag, isObject: bool)
    requires TagOk(WORKER, isObject, tag)
    ensures TagOk(STRICT, isObject, tag) <==> 0 !in TagText(tag)
  {
    if tag.Key? {
      BodyStrict(tag.name);
      BlanksNoNul(tag.gap);
    }
  }

  lemma ItemsStrict(items: Items, isObject: bool)
    requires items.Item? && ItemsOk(WORKER, isObject, items)
    ensures ItemsOk(STRICT, isObject, items) <==> 0 !in ItemsText(items, Closer(isObject))
    decreases items
  {
    hide TreeOk, TreeText, TagOk, TagText, Blanks;
    TagStrict(items.tag, isObject);
    TreeStrict(items.value);
    BlanksNoNul(items.lead);
    BlanksNoNul(items.pre);
    BlanksNoNul(items.post);
    if items.rest.Item? { ItemsStrict(items.rest, isObject); }
  }

  lemma DocumentStrict(d: Document)
    requires DocumentOk(WORKER, d)
    ensures DocumentOk(STRICT, d) <==> 0 !in DocumentText(d)
  {
    TreeStrict(d.root);
    BlanksNoNul(d.before);
    BlanksNoNul(d.after);
  }

  lemma StrictBody(b: Body)
    requires BodyOk(STRICT, b)
    ensures BodyOk(WORKER, b)
  {
  }

  lemma StrictTree(t: Tree)
    requires TreeOk(STRICT, t)
    ensures TreeOk(WORKER, t)
    decreases t
  {
    match t {
      case Literal(_) =>
      case Number(_, _, _, _) =>
      case String(body) => StrictBody(body);
      case Container(isObject, _, items) => StrictItems(items, isObject);
    }
  }

  lemma StrictItems(items: Items, isObject: bool)
    requires ItemsOk(STRICT, isObject, items)
    ensures ItemsOk(WORKER, isObject, items)
    decreases items
  {
    if items.Item? {
      StrictTree(items.value);
      if items.tag.Key? { StrictBody(items.tag.name); }
      StrictItems(items.rest, isObject);
    }
  }

  /** The worker agrees with RFC 8259 exactly on the inputs that hold no byte 0. */
  lemma RecognisesRfc8259(s: seq<int>)
    requires AreBytes(s)
    ensures IsObjectText(STRICT, s) <==> Accepts(s) && 0 !in s
  {
    RecognisesWorkerDialect(s);
    if d :| Spells(STRICT, d, s) {
      StrictTree(d.root);
      DocumentStrict(d);
      assert Spells(WORKER, d, s);
    }
    if Accepts(s) && 0 !in s {
      var d :| Spells(WORKER, d, s);
      DocumentStrict(d);
      assert Spells(STRICT, d, s);
    }
  }

  /** One input on which they disagree: an object whose only name is a backslash and the byte 0. */
  const NUL_ESCAPE := [LBRACE, QUOTE, BACKSLASH, 0, QUOTE, COLON, ZERO, RBRACE]

  lemma DisagreesOnNulEscape()
    ensures Accepts(NUL_ESCAPE) && !IsObjectText(STRICT, NUL_ESCAPE)
  {
    var s := NUL_ESCAPE;
    hide TreeText, TreeOk, Spells;
    assert BodyEnd(s, 4) == Some(5);
    assert EscapeEnd(s, 3) == Some(4);
    assert TagEnd(s, 1, true) == Some(6);
    assert NumberEnd(s, 6) == Some(7);
    assert SkipBlanks(s, 0) == 0 && SkipBlanks(s, 1) == 1 && SkipBlanks(s, 6) == 6 && SkipBlanks(s, 7) == 7;
    assert ValueEnd(s, 6, 1) == Some(7);
    ItemsStep(s, 1, 0, true, 6, 7);
    RecognisesRfc8259(NUL_ESCAPE);
    assert NUL_ESCAPE[3] == 0;
  }
}
