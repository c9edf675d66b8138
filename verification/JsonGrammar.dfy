/**
 The grammar of RFC 8259 sections 2 to 7, written once as concrete syntax trees
 and the text each tree spells.  Two programs are verified against it: the
 worker's byte recogniser and the duplicate-key walker over decoded text.
 Text is a sequence of code units: bytes for the first, UTF-16 for the second.
 */
module JsonGrammar {
  import Utf8

  const TAB := 0x09
  const LF := 0x0A
  const CR := 0x0D
  const SPACE := 0x20
  const QUOTE := 0x22
  const PLUS := 0x2B
  const COMMA := 0x2C
  const MINUS := 0x2D
  const DOT := 0x2E
  const ZERO := 0x30
  const NINE := 0x39
  const COLON := 0x3A
  const UPPER_E := 0x45
  const LBRACKET := 0x5B
  const BACKSLASH := 0x5C
  const RBRACKET := 0x5D
  const LOWER_E := 0x65
  const LOWER_U := 0x75
  const LBRACE := 0x7B
  const RBRACE := 0x7D

  /** How the unescaped characters of a string are encoded.  `nulEscape` adds the
      one escape that is not in section 7: a backslash followed by the byte 0. */
  datatype Encoding = Bytes(nulEscape: bool) | CodeUnits

  datatype Piece =
    | Plain(units: seq<int>)
    | Escape(letter: int)
    | Unicode(hex: seq<int>)

  /** What follows the opening quote of a string. */
  datatype Body = Closing | Then(piece: Piece, rest: Body)

  datatype Tag = NoTag | Key(name: Body, gap: seq<int>)

  datatype Tree =
    | Literal(word: seq<int>)
    | Number(minus: bool, whole: seq<int>, frac: seq<int>, exp: seq<int>)
    | String(body: Body)
    | Container(isObject: bool, blank: seq<int>, items: Items)

  datatype Items =
    | End
    | Item(lead: seq<int>, tag: Tag, pre: seq<int>, value: Tree, post: seq<int>, rest: Items)

  /** Section 2: JSON-text = ws value ws. */
  datatype Document = Document(before: seq<int>, root: Tree, after: seq<int>)

  // ---- Terminals ----------------------------------------------------------

  predicate IsBlank(c: int) {
    c == SPACE || c == TAB || c == LF || c == CR
  }

  predicate Blanks(s: seq<int>) {
    forall k :: 0 <= k < |s| ==> IsBlank(s[k])
  }

  predicate IsDigit(c: int) {
    ZERO <= c <= NINE
  }

  predicate Digits(s: seq<int>) {
    |s| > 0 && forall k :: 0 <= k < |s| ==> IsDigit(s[k])
  }

  predicate IsHex(c: int) {
    IsDigit(c) || 0x61 <= c <= 0x66 || 0x41 <= c <= 0x46
  }

  predicate IsEscapeLetter(c: int) {
    c in {QUOTE, BACKSLASH, 0x2F, 0x62, 0x66, 0x6E, 0x72, 0x74}
  }

  predicate IsSign(c: int) {
    c == PLUS || c == MINUS
  }

  const TRUE_WORD := [0x74, 0x72, 0x75, 0x65]
  const FALSE_WORD := [0x66, 0x61, 0x6C, 0x73, 0x65]
  const NULL_WORD := [0x6E, 0x75, 0x6C, 0x6C]

  // ---- Well-formed trees --------------------------------------------------

  predicate PlainOk(enc: Encoding, units: seq<int>) {
    && |units| > 0
    && units[0] >= 0x20 && units[0] != QUOTE && units[0] != BACKSLASH
    && (if enc.Bytes? then Utf8.IsChar(units) else |units| == 1)
  }

  predicate PieceOk(enc: Encoding, p: Piece) {
    match p
    case Plain(units) => PlainOk(enc, units)
    case Escape(c) => IsEscapeLetter(c) || (enc.Bytes? && enc.nulEscape && c == 0)
    case Unicode(hex) => |hex| == 4 && forall k :: 0 <= k < 4 ==> IsHex(hex[k])
  }

  predicate BodyOk(enc: Encoding, b: Body) {
    b.Then? ==> PieceOk(enc, b.piece) && BodyOk(enc, b.rest)
  }

  predicate WholeOk(whole: seq<int>) {
    whole == [ZERO] || (Digits(whole) && whole[0] != ZERO)
  }

  predicate FracOk(frac: seq<int>) {
    frac == [] || (frac[0] == DOT && Digits(frac[1..]))
  }

  predicate ExpOk(exp: seq<int>) {
    exp == [] || ((exp[0] == LOWER_E || exp[0] == UPPER_E) && ExpTailOk(exp[1..]))
  }

  predicate ExpTailOk(tail: seq<int>) {
    Digits(tail) || (|tail| > 0 && IsSign(tail[0]) && Digits(tail[1..]))
  }

  predicate TreeOk(enc: Encoding, t: Tree)
    decreases t
  {
    match t
    case Literal(word) => word in {TRUE_WORD, FALSE_WORD, NULL_WORD}
    case Number(_, whole, frac, exp) => WholeOk(whole) && FracOk(frac) && ExpOk(exp)
    case String(body) => BodyOk(enc, body)
    case Container(isObject, blank, items) => Blanks(blank) && ItemsOk(enc, isObject, items)
  }

  predicate TagOk(enc: Encoding, isObject: bool, tag: Tag) {
    tag.Key? == isObject && (tag.Key? ==> BodyOk(enc, tag.name) && Blanks(tag.gap))
  }

  predicate ItemsOk(enc: Encoding, isObject: bool, items: Items)
    decreases items
  {
    match items
    case End => true
    case Item(lead, tag, pre, value, post, rest) =>
      && Blanks(lead) && TagOk(enc, isObject, tag) && Blanks(pre) && (isObject || pre == [])
      && TreeOk(enc, value) && Blanks(post) && ItemsOk(enc, isObject, rest)
  }

  predicate DocumentOk(enc: Encoding, d: Document) {
    Blanks(d.before) && TreeOk(enc, d.root) && Blanks(d.after)
  }

  // ---- The text a tree spells ---------------------------------------------

  function PieceText(p: Piece): seq<int> {
    match p
    case Plain(units) => units
    case Escape(c) => [BACKSLASH, c]
    case Unicode(hex) => [BACKSLASH, LOWER_U] + hex
  }

  function BodyText(b: Body): seq<int> {
    match b
    case Closing => [QUOTE]
    case Then(p, rest) => PieceText(p) + BodyText(rest)
  }

  function StringText(b: Body): seq<int> {
    [QUOTE] + BodyText(b)
  }

  function NumberText(minus: bool, whole: seq<int>, frac: seq<int>, exp: seq<int>): seq<int> {
    (if minus then [MINUS] else []) + (whole + (frac + exp))
  }

  function TagText(tag: Tag): seq<int> {
    match tag
    case NoTag => []
    case Key(name, gap) => StringText(name) + (gap + [COLON])
  }

  function Opener(isObject: bool): int {
    if isObject then LBRACE else LBRACKET
  }

  function Closer(isObject: bool): int {
    if isObject then RBRACE else RBRACKET
  }

  function TreeText(t: Tree): seq<int>
    decreases t
  {
    match t
    case Literal(word) => word
    case Number(minus, whole, frac, exp) => NumberText(minus, whole, frac, exp)
    case String(body) => StringText(body)
    case Container(isObject, blank, items) =>
      [Opener(isObject)] +
      (if items.End? then blank + [Closer(isObject)] else ItemsText(items, Closer(isObject)))
  }

  /** A nonempty list of items, separated by commas and ended by `closer`. */
  function ItemsText(items: Items, closer: int): seq<int>
    requires items.Item?
    decreases items
  {
    ItemText(items.lead, TagText(items.tag), items.pre, TreeText(items.value), items.post,
             if items.rest.End? then [closer] else [COMMA] + ItemsText(items.rest, closer))
  }

  function ItemText(lead: seq<int>, tag: seq<int>, pre: seq<int>, value: seq<int>, post: seq<int>, tail: seq<int>)
    : seq<int>
  {
    lead + (tag + (pre + (value + (post + tail))))
  }

  function DocumentText(d: Document): seq<int> {
    d.before + (TreeText(d.root) + d.after)
  }

  // ---- Measures the two programs bound ------------------------------------

  function Max(a: nat, b: nat): nat {
    if a < b then b else a
  }

  /** How deep the deepest value lies below `t` itself. */
  function Height(t: Tree): nat
    decreases t
  {
    if t.Container? then ItemsHeight(t.items) else 0
  }

  function ItemsHeight(items: Items): nat
    decreases items
  {
    if items.End? then 0 else Max(1 + Height(items.value), ItemsHeight(items.rest))
  }

  /** How many containers enclose one another in `t`, `t` included. */
  function Nesting(t: Tree): nat
    decreases t
  {
    if t.Container? then 1 + ItemsNesting(t.items) else 0
  }

  function ItemsNesting(items: Items): nat
    decreases items
  {
    if items.End? then 0 else Max(Nesting(items.value), ItemsNesting(items.rest))
  }
}
