/**
 The worker's recogniser in its own form: a cursor that loops advance in place.
 Each method is tied to the scanner function of `JsonScan` with the same name;
 every read of `bytes[p]` is in bounds, and every loop and the recursion end.
 */
module WorkerJson {
  import opened Wrappers
  import opened JsonGrammar
  import JsonScan
  import JsonRecognition
  import WorkerDialect
  type Byte = JsonScan.Byte

  class Cursor {
    const bytes: seq<Byte>
    var p: nat

    ghost predicate Valid()
      reads this
    {
      p <= |bytes|
    }

    constructor (bytes: seq<Byte>)
      ensures Valid() && this.bytes == bytes && p == 0
    {
      this.bytes := bytes;
      p := 0;
    }

    /** A recogniser that started at `start` agrees with what the scanner found there. */
    ghost predicate Agrees(ok: bool, found: Option<nat>)
      reads this
    {
      Valid() && ok == found.Some? && (ok ==> p == found.value)
    }

    predicate Looking(c: int)
      reads this
      requires Valid()
    {
      p < |bytes| && bytes[p] == c
    }

    method SkipBlanks()
      requires Valid()
      modifies this
      ensures Valid() && p == JsonScan.SkipBlanks(bytes, old(p))
    {
      while p < |bytes| && IsBlank(bytes[p])
        invariant Valid() && JsonScan.SkipBlanks(bytes, p) == JsonScan.SkipBlanks(bytes, old(p))
      {
        p := p + 1;
      }
    }

    method SkipDigits()
      requires Valid()
      modifies this
      ensures Valid() && p == JsonScan.SkipDigits(bytes, old(p))
    {
      while p < |bytes| && IsDigit(bytes[p])
        invariant Valid() && JsonScan.SkipDigits(bytes, p) == JsonScan.SkipDigits(bytes, old(p))
      {
        p := p + 1;
      }
    }

    /** The rest of an escape, its backslash consumed. */
    method Escape() returns (ok: bool)
      requires Valid()
      modifies this
      ensures Agrees(ok, JsonScan.EscapeEnd(bytes, old(p)))
    {
      if p == |bytes| { return false; }
      var c := bytes[p];
      p := p + 1;
      if c == LOWER_U {
        var i := 0;
        while i < 4
          invariant 0 <= i <= 4 && p == old(p) + 1 + i <= |bytes|
          invariant forall k :: old(p) < k < p ==> IsHex(bytes[k])
        {
          if p == |bytes| || !IsHex(bytes[p]) { return false; }
          p := p + 1;
          i := i + 1;
        }
        return true;
      }
      // strchr also finds the terminator of the letters it searches.
      return IsEscapeLetter(c) || c == 0;
    }

    /** The rest of a multibyte character, its lead byte `c` consumed. */
    method Multibyte(c: Byte) returns (ok: bool)
      requires Valid() && p > 0 && bytes[p - 1] == c
      modifies this
      ensures Agrees(ok, JsonScan.MultibyteEnd(bytes, old(p) - 1))
    {
      var value: int, count: int;
      if 0xC2 <= c <= 0xDF { value, count := c % 32, 1; }
      else if 0xE0 <= c <= 0xEF { value, count := c % 16, 2; }
      else if 0xF0 <= c <= 0xF4 { value, count := c % 8, 3; }
      else { return false; }
      ghost var found := JsonScan.Fold(bytes, p, count, value);
      var remaining := count;
      while remaining > 0
        invariant 0 <= remaining <= count && Valid() && p == old(p) + (count - remaining)
        invariant JsonScan.Fold(bytes, p, remaining, value) == found
      {
        if p == |bytes| || bytes[p] / 64 != 2 { return false; }
        value := value * 64 + bytes[p] % 64;
        p := p + 1;
        remaining := remaining - 1;
      }
      if (count == 2 && value < 0x800) || (count == 3 && value < 0x10000)
         || value > 0x10FFFF || 0xD800 <= value <= 0xDFFF {
        return false;
      }
      return true;
    }

    method String() returns (ok: bool)
      requires Valid()
      modifies this
      ensures Agrees(ok, JsonScan.StringEnd(bytes, old(p)))
    {
      if !Looking(QUOTE) { return false; }
      p := p + 1;
      while p < |bytes|
        invariant Valid() && JsonScan.BodyEnd(bytes, p) == JsonScan.StringEnd(bytes, old(p))
        decreases |bytes| - p
      {
        ghost var start := p;
        var c := bytes[p];
        p := p + 1;
        if c == QUOTE { return true; }
        if c < 0x20 { return false; }
        var more := true;
        if c == BACKSLASH { more := Escape(); }
        else if c >= 0x80 { more := Multibyte(c); }
        assert Agrees(more, JsonScan.PieceEnd(bytes, start));
        if !more { return false; }
      }
      return false;
    }

    method Number() returns (ok: bool)
      requires Valid() && p < |bytes|
      modifies this
      ensures Agrees(ok, JsonScan.NumberEnd(bytes, old(p)))
    {
      if Looking(MINUS) { p := p + 1; }
      if p == |bytes| { return false; }
      if Looking(ZERO) {
        p := p + 1;
      } else {
        if !IsDigit(bytes[p]) { return false; }
        p := p + 1;
        SkipDigits();
      }
      ok := Fraction();
      if !ok { return; }
      ok := Exponent();
    }

    method Fraction() returns (ok: bool)
      requires Valid()
      modifies this
      ensures Agrees(ok, JsonScan.FracEnd(bytes, old(p)))
    {
      if Looking(DOT) {
        p := p + 1;
        var start := p;
        SkipDigits();
        if p == start { return false; }
      }
      return true;
    }

    method Exponent() returns (ok: bool)
      requires Valid()
      modifies this
      ensures Agrees(ok, JsonScan.ExpEnd(bytes, old(p)))
    {
      if Looking(LOWER_E) || Looking(UPPER_E) {
        p := p + 1;
        if Looking(PLUS) || Looking(MINUS) { p := p + 1; }
        var start := p;
        SkipDigits();
        if p == start { return false; }
      }
      return true;
    }

    method Word(word: seq<int>) returns (ok: bool)
      requires Valid()
      modifies this
      ensures Agrees(ok, JsonScan.WordEnd(bytes, old(p), word))
    {
      if |bytes| - p < |word| || bytes[p..p + |word|] != word { return false; }
      p := p + |word|;
      return true;
    }

    method Scalar() returns (ok: bool)
      requires Valid() && p < |bytes|
      modifies this
      ensures Agrees(ok, JsonScan.ScalarEnd(bytes, old(p)))
    {
      if Looking(QUOTE) { ok := String(); }
      else if Looking(TRUE_WORD[0]) { ok := Word(TRUE_WORD); }
      else if Looking(FALSE_WORD[0]) { ok := Word(FALSE_WORD); }
      else if Looking(NULL_WORD[0]) { ok := Word(NULL_WORD); }
      else { ok := Number(); }
    }

    /** The name and colon of an object member. */
    method Name() returns (ok: bool)
      requires Valid()
      modifies this
      ensures Agrees(ok, JsonScan.TagEnd(bytes, old(p), true))
    {
      ok := String();
      if !ok { return; }
      SkipBlanks();
      if p == |bytes| { return false; }
      p := p + 1;
      return bytes[p - 1] == COLON;
    }

    method Value(depth: nat) returns (ok: bool)
      requires Valid()
      modifies this
      ensures Agrees(ok, JsonScan.ValueEnd(bytes, old(p), depth))
      decreases |bytes| - p, 0
    {
      SkipBlanks();
      if depth > 64 || p == |bytes| { return false; }
      var c := bytes[p];
      if c == LBRACE || c == LBRACKET {
        var isObject := c == LBRACE;
        p := p + 1;
        SkipBlanks();
        if Looking(Closer(isObject)) { p := p + 1; return true; }
        ok := Items(depth, isObject);
      } else {
        ok := Scalar();
      }
    }

    /** The loop over a container's items, up to and including its closer. */
    method Items(depth: nat, isObject: bool) returns (ok: bool)
      requires Valid()
      modifies this
      ensures Agrees(ok, JsonScan.ItemsEnd(bytes, old(p), depth, isObject))
      decreases |bytes| - p, 2
    {
      hide JsonScan.ItemEnd, JsonScan.ValueEnd, JsonScan.TagEnd, JsonScan.SkipBlanks, Blanks, IsBlank;
      ok := true;
      while true
        invariant Valid() && old(p) <= p
        invariant JsonScan.ItemsEnd(bytes, p, depth, isObject) == JsonScan.ItemsEnd(bytes, old(p), depth, isObject)
        decreases |bytes| - p
      {
        ok := Item(depth, isObject);
        if !ok || p == |bytes| { return false; }
        var next := bytes[p];
        p := p + 1;
        if next == Closer(isObject) { return true; }
        if next != COMMA { return false; }
        SkipBlanks();
      }
    }

    /** One item and the blanks after it. */
    method Item(depth: nat, isObject: bool) returns (ok: bool)
      requires Valid()
      modifies this
      ensures Agrees(ok, JsonScan.ItemEnd(bytes, old(p), depth, isObject))
      decreases |bytes| - p, 1
    {
      hide JsonScan.ValueEnd, JsonScan.StringEnd, JsonScan.SkipBlanks;
      if isObject {
        ok := Name();
        if !ok { return; }
      }
      ok := Value(depth + 1);
      if !ok { return; }
      SkipBlanks();
    }
  }

  /** The whole check of one payload file: true exactly for the worker's dialect of JSON objects. */
  method IsObject(bytes: seq<Byte>) returns (ok: bool)
    ensures ok == JsonScan.Accepts(bytes)
    ensures ok <==> WorkerDialect.IsObjectText(JsonRecognition.WORKER, bytes)
    ensures 0 !in bytes ==> (ok <==> WorkerDialect.IsObjectText(JsonRecognition.STRICT, bytes))
  {
    WorkerDialect.RecognisesWorkerDialect(bytes);
    WorkerDialect.RecognisesRfc8259(bytes);
    var j := new Cursor(bytes);
    j.SkipBlanks();
    if !j.Looking(LBRACE) { return false; }
    WorkerDialect.ValueEndSkips(bytes, 0, 0);
    ok := j.Value(0);
    if !ok { return; }
    j.SkipBlanks();
    ok := j.p == |bytes|;
  }
}
