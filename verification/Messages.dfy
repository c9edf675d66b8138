/** The lines the worker prints and how the executor reads them. */
module Messages {
  import opened Wrappers
  import Decimal
  import Lines

  /** A device and inode number. */
  datatype Identity = Identity(dev: nat, ino: nat)

  datatype Message =
    | Ready
    | Valid
    | Dir(identity: Identity)
    | File(index: nat, identity: Identity)
    | Done
    | Other

  const FILE_COUNT := 6

  /** The pattern \d+ \d+ over the whole of `s`. */
  function ReadIdentity(s: string): Option<Identity> {
    var k := Lines.IndexOf(s, ' ');
    if k < |s| && Decimal.IsNumeral(s[..k]) && Decimal.IsNumeral(s[k + 1..])
    then Some(Identity(Decimal.Value(s[..k]), Decimal.Value(s[k + 1..])))
    else None
  }

  function Read(line: string): (m: Message)
    ensures m.File? ==> m.index < FILE_COUNT
  {
    if line == "READY" then Ready
    else if line == "VALID" then Valid
    else if line == "DONE" then Done
    else if "DIR " <= line then
      match ReadIdentity(line[4..])
      case Some(id) => Dir(id)
      case None => Other
    else if "FILE " <= line && |line| >= 7 && '0' <= line[5] <= '5' && line[6] == ' ' then
      match ReadIdentity(line[7..])
      case Some(id) => File(line[5] as int - '0' as int, id)
      case None => Other
    else Other
  }

  // ---- What is read -------------------------------------------------------

  /** Two numerals with one blank between them. */
  predicate IdentityAs(s: string, a: string, b: string, id: Identity) {
    && s == a + " " + b && Decimal.IsNumeral(a) && Decimal.IsNumeral(b)
    && id == Identity(Decimal.Value(a), Decimal.Value(b))
  }

  ghost predicate SpellsIdentity(s: string, id: Identity) {
    exists a, b :: IdentityAs(s, a, b, id)
  }

  lemma IdentityExactly(s: string, id: Identity)
    ensures ReadIdentity(s) == Some(id) <==> SpellsIdentity(s, id)
  {
    var k := Lines.IndexOf(s, ' ');
    if k < |s| {
      assert s == s[..k] + " " + s[k + 1..];
      assert IdentityAs(s, s[..k], s[k + 1..], id) || ReadIdentity(s) != Some(id);
    }
    if a, b :| IdentityAs(s, a, b, id) {
      NumeralHas(a, ' ');
      Lines.IndexOfPrefix(a, ' ', b);
      assert s[..|a|] == a && s[|a| + 1..] == b;
    }
  }

  /** The six texts that name a file. */
  const FILE_HEADS := ["FILE 0 ", "FILE 1 ", "FILE 2 ", "FILE 3 ", "FILE 4 ", "FILE 5 "]

  predicate Follows(line: string, head: string, rest: string) {
    line == head + rest
  }

  ghost predicate Announces(line: string, head: string, id: Identity) {
    exists rest :: Follows(line, head, rest) && SpellsIdentity(rest, id)
  }

  ghost predicate Means(line: string, m: Message) {
    match m
    case Ready => line == "READY"
    case Valid => line == "VALID"
    case Done => line == "DONE"
    case Dir(id) => Announces(line, "DIR ", id)
    case File(i, id) => i < FILE_COUNT && Announces(line, FILE_HEADS[i], id)
    case Other => false
  }

  /** For every line: the message it is read as, any other line being none. */
  lemma ReadExactly(line: string, m: Message)
    requires !m.Other?
    ensures Read(line) == m <==> Means(line, m)
  {
    hide ReadIdentity, SpellsIdentity;
    match m {
      case Dir(id) => DirExactly(line, id);
      case File(i, id) => FileExactly(line, i, id);
      case _ =>
    }
  }

  lemma DirExactly(line: string, id: Identity)
    ensures Read(line) == Dir(id) <==> Announces(line, "DIR ", id)
  {
    hide ReadIdentity, SpellsIdentity;
    if "DIR " <= line {
      IdentityExactly(line[4..], id);
      assert Follows(line, "DIR ", line[4..]);
    }
    if rest :| Follows(line, "DIR ", rest) && SpellsIdentity(rest, id) {
      assert line[4..] == rest && line[0] == 'D' && line[1] == 'I';
    }
  }

  lemma FileExactly(line: string, i: nat, id: Identity)
    ensures Read(line) == File(i, id) <==> i < FILE_COUNT && Announces(line, FILE_HEADS[i], id)
  {
    hide ReadIdentity, SpellsIdentity;
    if "FILE " <= line && |line| >= 7 && i < FILE_COUNT && line[5] == '0' + i as char && line[6] == ' ' {
      IdentityExactly(line[7..], id);
      assert line[..7] == "FILE " + [line[5]] + " ";
      HeadIs(i);
      assert Follows(line, FILE_HEADS[i], line[7..]);
    }
    if i < FILE_COUNT {
      HeadIs(i);
      if rest :| Follows(line, FILE_HEADS[i], rest) && SpellsIdentity(rest, id) {
        assert line[7..] == rest && line[..7] == FILE_HEADS[i];
        assert line[0] == 'F' && line[..5] == "FILE " && line[5] == '0' + i as char && line[6] == ' ';
        IdentityExactly(rest, id);
      }
    }
  }

  lemma HeadIs(i: nat)
    requires i < FILE_COUNT
    ensures FILE_HEADS[i] == "FILE " + ['0' + i as char] + " "
  {
  }

  // ---- What the worker prints ---------------------------------------------

  function PrintIdentity(id: Identity): string {
    Decimal.Print(id.dev) + " " + Decimal.Print(id.ino)
  }

  function Print(m: Message): string
    requires !m.Other? && (m.File? ==> m.index < FILE_COUNT)
  {
    match m
    case Ready => "READY"
    case Valid => "VALID"
    case Done => "DONE"
    case Dir(id) => "DIR " + PrintIdentity(id)
    case File(i, id) => "FILE " + ['0' + i as char] + " " + PrintIdentity(id)
  }

  lemma NumeralHas(s: string, c: char)
    requires Decimal.IsNumeral(s) && !Decimal.IsDigit(c)
    ensures c !in s
  {
  }

  lemma ReadPrintedIdentity(id: Identity)
    ensures ReadIdentity(PrintIdentity(id)) == Some(id)
  {
    var a, b := Decimal.Print(id.dev), Decimal.Print(id.ino);
    NumeralHas(a, ' ');
    Lines.IndexOfPrefix(a, ' ', b);
    var s := PrintIdentity(id);
    assert s[..|a|] == a && s[|a| + 1..] == b;
    Decimal.ValuePrint(id.dev);
    Decimal.ValuePrint(id.ino);
  }

  lemma ReadPrintedDir(id: Identity)
    ensures Read(Print(Dir(id))) == Dir(id)
  {
    hide ReadIdentity, PrintIdentity;
    var line := Print(Dir(id));
    ReadPrintedIdentity(id);
    assert line[4..] == PrintIdentity(id);
    assert line[0] == 'D' && line[1] == 'I';
  }

  lemma ReadPrintedFile(i: nat, id: Identity)
    requires i < FILE_COUNT
    ensures Read(Print(File(i, id))) == File(i, id)
  {
    hide ReadIdentity, PrintIdentity;
    var line := Print(File(i, id));
    ReadPrintedIdentity(id);
    assert line[7..] == PrintIdentity(id);
    assert line[0] == 'F' && line[..5] == "FILE ";
    assert line[5] == '0' + i as char;
  }

  /** The executor reads back exactly what the worker meant. */
  lemma ReadPrinted(m: Message)
    requires !m.Other? && (m.File? ==> m.index < FILE_COUNT)
    ensures Read(Print(m)) == m
  {
    match m {
      case Dir(id) => ReadPrintedDir(id);
      case File(i, id) => ReadPrintedFile(i, id);
      case _ =>
    }
  }

  lemma PrintedIsOneLine(m: Message)
    requires !m.Other? && (m.File? ==> m.index < FILE_COUNT)
    ensures Lines.NoNewline(Print(m))
  {
    if m.Dir? || m.File? {
      NumeralHas(Decimal.Print(m.identity.dev), '\n');
      NumeralHas(Decimal.Print(m.identity.ino), '\n');
    }
  }

  predicate Is64Bit(id: Identity) {
    id.dev < Decimal.TWO_TO_THE_64 && id.ino < Decimal.TWO_TO_THE_64
  }

  /** The longest line of each kind, its newline not counted. */
  function LineBudget(m: Message): nat {
    match m
    case Dir(_) => 45
    case File(_, _) => 48
    case _ => 5
  }

  lemma PrintedFits(m: Message)
    requires !m.Other? && (m.File? ==> m.index < FILE_COUNT)
    requires m.Dir? || m.File? ==> Is64Bit(m.identity)
    ensures |Print(m)| <= LineBudget(m)
  {
    if m.Dir? || m.File? {
      Decimal.Print64(m.identity.dev);
      Decimal.Print64(m.identity.ino);
    }
  }
}
