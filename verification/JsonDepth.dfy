/** How the two depth rules compare: the worker bounds values, the other walk bounds containers. */
module JsonDepth {
  import opened JsonGrammar
  import opened JsonScan
  import opened JsonRecognition
  import opened WorkerDialect
  import opened DuplicateKeys

  /** A tree nests at least as deep as it is high, and at most one deeper. */
  lemma {:induction false} NestingIsHeight(t: Tree)
    ensures Height(t) <= Nesting(t) <= Height(t) + 1
    decreases t
  {
    if t.Container? { ItemsNestingIsHeight(t.items); }
  }

  lemma {:induction false} ItemsNestingIsHeight(items: Items)
    ensures ItemsHeight(items) <= 1 + ItemsNesting(items) && ItemsNesting(items) <= ItemsHeight(items)
    ensures items.Item? ==> ItemsHeight(items) >= 1
    decreases items
  {
    if items.Item? {
      NestingIsHeight(items.value);
      ItemsNestingIsHeight(items.rest);
    }
  }

  /** Nothing too deep for the worker is shallow enough for the walk, and the two rules part exactly
      on trees of 65 nested containers whose deepest value is at level 64. */
  lemma DepthRulesPart(t: Tree)
    ensures Nesting(t) <= MAX_CONTAINERS ==> Height(t) <= MAX_DEPTH
    ensures (Height(t) <= MAX_DEPTH <==> Nesting(t) <= MAX_CONTAINERS) <==>
            !(Height(t) == MAX_DEPTH && Nesting(t) == MAX_CONTAINERS + 1)
  {
    NestingIsHeight(t);
  }

  // ---- A document between the rules ---------------------------------------

  /** `n` arrays around an empty one. */
  function Tower(n: nat): Tree {
    Container(false, [], if n == 0 then End else Item([], NoTag, [], Tower(n - 1), [], End))
  }

  /** An object whose only member, with an empty name, is a tower. */
  function TowerDocument(n: nat): Document {
    Document([], Container(true, [], Item([], Key(Closing, []), [], Tower(n), [], End)), [])
  }

  lemma {:induction false} TowerMeans(n: nat, enc: Encoding)
    ensures TreeOk(enc, Tower(n)) && Height(Tower(n)) == n && Nesting(Tower(n)) == n + 1
    ensures AreBytes(TreeText(Tower(n)))
    ensures TreeOk(CodeUnits, Tower(n)) && NoDuplicates(Tower(n))
  {
    if n > 0 {
      TowerMeans(n - 1, enc);
      ArrayOfOne(Tower(n - 1), enc);
    }
  }

  lemma ArrayOfOne(t: Tree, enc: Encoding)
    requires TreeOk(enc, t) && AreBytes(TreeText(t)) && TreeOk(CodeUnits, t) && NoDuplicates(t)
    ensures
      var a := Container(false, [], Item([], NoTag, [], t, [], End));
      && TreeOk(enc, a) && Height(a) == 1 + Height(t) && Nesting(a) == 1 + Nesting(t)
      && AreBytes(TreeText(a)) && TreeOk(CodeUnits, a) && NoDuplicates(a)
  {
    var items := Item([], NoTag, [], t, [], End);
    assert ItemsText(items, RBRACKET) == TreeText(t) + [RBRACKET];
    OneItem(items);
  }

  /** Up to 64 arrays in the tower the worker takes the document; with 64, and so 65 containers of which
      the innermost is empty, the walk refuses it for its depth alone. */
  lemma TowersDisagree(n: nat)
    requires n < MAX_DEPTH
    ensures
      var d := TowerDocument(n);
      && Spells(STRICT, d, DocumentText(d)) && Accepts(DocumentText(d))
      && DocumentOk(CodeUnits, d) && NoDuplicates(d.root)
      && Nesting(d.root) == n + 2 && (Nesting(d.root) <= MAX_CONTAINERS <==> n != MAX_DEPTH - 1)
  {
    var d, t := TowerDocument(n), Tower(n);
    TowerMeans(n, STRICT);
    ObjectOfOne(t);
    hide Tower, TreeText, TreeOk, Height;
    RecognisesRfc8259(DocumentText(d));
  }

  lemma ObjectOfOne(t: Tree)
    requires TreeOk(STRICT, t) && AreBytes(TreeText(t)) && TreeOk(CodeUnits, t) && NoDuplicates(t)
    ensures
      var o := Container(true, [], Item([], Key(Closing, []), [], t, [], End));
      && TreeOk(STRICT, o) && Height(o) == 1 + Height(t) && Nesting(o) == 1 + Nesting(t)
      && AreBytes(DocumentText(Document([], o, []))) && TreeOk(CodeUnits, o) && NoDuplicates(o)
  {
    var items := Item([], Key(Closing, []), [], t, [], End);
    assert StringText(Closing) == [QUOTE, QUOTE];
    assert ItemsText(items, RBRACE) == [QUOTE, QUOTE, COLON] + (TreeText(t) + [RBRACE]);
    OneItem(items);
    OneName(items);
  }

  lemma OneItem(items: Items)
    requires items.Item? && items.rest.End?
    ensures ItemsHeight(items) == 1 + Height(items.value) && ItemsNesting(items) == Nesting(items.value)
  {
    assert ItemsHeight(items.rest) == 0 && ItemsNesting(items.rest) == 0;
  }

  lemma OneName(items: Items)
    requires ItemsOk(CodeUnits, true, items) && items.Item? && items.rest.End?
    ensures Distinct(Names(items))
  {
    assert Names(items.rest) == [];
  }
}
