/**
 The budgeted file read: chunks of at most 64 KiB until the budget or the end of
 the file, one probe byte, and a trim to a whole number of encoded characters.
 */
module SafeRead {
  import opened Wrappers
  import opened Utf8

  const CHUNK := 64 * 1024
  const SNIFF := 8 * 1024

  // ---- The trim -----------------------------------------------------------

  /** How long a sequence its lead byte announces; 0 for no lead byte. */
  function Needed(b: Byte): nat {
    if 0xC0 <= b <= 0xDF then 2 else if 0xE0 <= b <= 0xEF then 3 else if 0xF0 <= b <= 0xF7 then 4 else 0
  }

  /** `buf` without a sequence that its end cuts, looked for from `back` bytes before the last. */
  function Trimmed(buf: seq<Byte>, back: nat): (r: seq<Byte>)
    requires back <= 3 && back <= |buf|
    ensures r <= buf && |buf| - 3 <= |r|
    decreases 3 - back
  {
    if back == 3 || back == |buf| then buf
    else
      var i := |buf| - 1 - back;
      if IsTail(buf[i]) then Trimmed(buf, back + 1)
      else if |buf| - i < Needed(buf[i]) then buf[..i]
      else buf
  }

  /** trimPartialUtf8. */
  method TrimPartialUtf8(buf: seq<Byte>) returns (r: seq<Byte>)
    ensures r == Trimmed(buf, 0)
  {
    var maxLookback := if |buf| < 3 then |buf| else 3;
    for back := 0 to maxLookback
      invariant Trimmed(buf, 0) == Trimmed(buf, back)
    {
      var index := |buf| - 1 - back;
      var b := buf[index];
      if 0x80 <= b < 0xC0 { continue; }
      if b < 0x80 { return buf; }
      var needed := 0;
      if 0xC0 <= b < 0xE0 { needed := 2; }
      else if 0xE0 <= b < 0xF0 { needed := 3; }
      else if 0xF0 <= b < 0xF8 { needed := 4; }
      else { return buf; }
      var available := |buf| - index;
      return if available >= needed then buf else buf[..index];
    }
    return buf;
  }

  /** The byte at `k` announces more bytes than are left, of which all are continuation bytes. */
  predicate CutsAt(buf: seq<Byte>, k: nat) {
    && k < |buf| && (forall j :: k < j < |buf| ==> 0x80 <= buf[j] < 0xC0)
    && match |buf| - k
       case 1 => 0xC0 <= buf[k] < 0xF8
       case 2 => 0xE0 <= buf[k] < 0xF8
       case 3 => 0xF0 <= buf[k] < 0xF8
       case _ => false
  }

  lemma {:induction false} TrimFrom(buf: seq<Byte>, back: nat, k: nat)
    requires back <= 3 && back <= |buf| && k < |buf| && forall j :: |buf| - back <= j < |buf| ==> IsTail(buf[j])
    ensures Trimmed(buf, back) == buf[..k] <==> CutsAt(buf, k)
    decreases 3 - back
  {
    assert |buf[..k]| == k;
    if back < 3 && back < |buf| && IsTail(buf[|buf| - 1 - back]) {
      TrimFrom(buf, back + 1, k);
    }
  }

  /** For all bytes, well-formed or not: what is cut off starts at a byte that announces too much, and
      without one nothing is. */
  lemma TrimExactly(buf: seq<Byte>)
    ensures forall k: nat :: k < |buf| ==> (Trimmed(buf, 0) == buf[..k] <==> CutsAt(buf, k))
    ensures Trimmed(buf, 0) == buf <==> forall k: nat :: !CutsAt(buf, k)
  {
    hide Trimmed, CutsAt;
    forall k: nat | k < |buf| ensures Trimmed(buf, 0) == buf[..k] <==> CutsAt(buf, k) {
      TrimFrom(buf, 0, k);
    }
    var r := Trimmed(buf, 0);
    assert r == buf[..|r|];
    forall k: nat | CutsAt(buf, k) ensures k < |buf| { CutInside(buf, k); }
  }

  lemma CutInside(buf: seq<Byte>, k: nat)
    requires CutsAt(buf, k)
    ensures k < |buf|
  {
  }

  // ---- Characters do not overlap ------------------------------------------

  lemma SameLength(s: seq<int>, m: nat, n: nat)
    requires m <= |s| && n <= |s| && IsChar(s[..m]) && IsChar(s[..n])
    ensures m == n
  {
    assert s[..m][0] == s[0] == s[..n][0];
  }

  lemma FirstChar(s: seq<int>) returns (n: nat)
    requires WellFormed(s) && s != []
    ensures 1 <= n <= |s| && IsChar(s[..n]) && WellFormed(s[n..])
  {
    n :| 1 <= n <= |s| && IsChar(s[..n]) && WellFormed(s[n..]);
  }

  lemma CutSum(a: seq<int>, b: seq<int>, n: nat)
    requires n <= |a|
    ensures (a + b)[..n] == a[..n] && (a + b)[n..] == a[n..] + b
  {
  }

  /** What follows a well-formed beginning of a well-formed text is well-formed. */
  lemma {:induction false} RestWellFormed(a: seq<int>, b: seq<int>)
    requires WellFormed(a) && WellFormed(a + b)
    ensures WellFormed(b)
    decreases |a|
  {
    hide WellFormed, IsChar;
    if a == [] {
      assert a + b == b;
    } else {
      var n := FirstChar(a);
      var m := FirstChar(a + b);
      CutSum(a, b, n);
      SameLength(a + b, m, n);
      RestWellFormed(a[n..], b);
    }
  }

  lemma SliceOfRest(s: seq<int>, from: nat, a: nat, b: nat)
    requires from <= |s| && a <= b && from + b <= |s|
    ensures s[from..][a..b] == s[from + a..from + b]
  {
  }

  /** Where the last whole character before position `m` of a well-formed text ends, and how long the
      character is that ends there (`end == m`) or is cut (`end < m`). */
  lemma {:induction false} CutAt(s: seq<int>, m: nat) returns (end: nat, n: nat)
    requires WellFormed(s) && m <= |s|
    ensures end <= m && WellFormed(s[..end])
    ensures end < m ==> m < end + n <= |s| && IsChar(s[end..end + n])
    ensures end == m && m > 0 ==> n <= m && IsChar(s[m - n..m])
    decreases |s|
  {
    hide WellFormed, IsChar;
    NothingWellFormed(s);
    if m == 0 {
      return 0, 0;
    }
    var first := FirstChar(s);
    if m < first {
      assert s[0..first] == s[..first];
      return 0, first;
    }
    var e: nat;
    e, n := CutAt(s[first..], m - first);
    end := first + e;
    CharThen(s, first, e);
    if e < m - first {
      SliceOfRest(s, first, e, e + n);
    } else if m > first {
      SliceOfRest(s, first, m - first - n, m - first);
    } else {
      n := first;
      assert s[0..m] == s[..n];
    }
  }

  lemma NothingWellFormed(s: seq<int>)
    ensures WellFormed(s[..0])
  {
  }

  lemma CharThen(s: seq<int>, first: nat, e: nat)
    requires 1 <= first && first + e <= |s| && IsChar(s[..first]) && WellFormed(s[first..][..e])
    ensures WellFormed(s[..first + e])
  {
    var t := s[..first + e];
    assert t[..first] == s[..first] && t[first..] == s[first..][..e];
  }

  /** Past its first bytes a character has only tails, and its first byte announces its length. */
  lemma CharShape(c: seq<Byte>)
    requires IsChar(c)
    ensures 1 <= |c| <= 4 && !IsTail(c[0]) && (if |c| == 1 then c[0] < 0x80 else Needed(c[0]) == |c|)
    ensures forall i :: 1 <= i < |c| ==> IsTail(c[i])
  {
  }

  /** The scan passes tails until it meets a byte that is none, at most three bytes from the end. */
  lemma ScanTails(buf: seq<Byte>, i: nat, back: nat)
    requires i < |buf| && |buf| - 1 - i < 3 && back <= |buf| - 1 - i
    requires forall j :: i < j < |buf| ==> IsTail(buf[j])
    ensures Trimmed(buf, back) == Trimmed(buf, |buf| - 1 - i)
    decreases |buf| - i - back
  {
    if back < |buf| - 1 - i { ScanTails(buf, i, back + 1); }
  }

  /** Whatever the cut, a well-formed text keeps its longest well-formed prefix within it. */
  lemma TrimKeepsLongest(data: seq<Byte>, m: nat)
    requires WellFormed(data) && m <= |data|
    ensures var t := Trimmed(data[..m], 0);
            && t <= data[..m] && WellFormed(t)
            && forall k :: 0 <= k <= m && WellFormed(data[..k]) ==> k <= |t|
  {
    var end, n := CutAt(data, m);
    if end < m {
      CutIsTrimmed(data, m, end, n);
      forall k | end < k <= m ensures !WellFormed(data[..k]) { NoLonger(data, end, n, k); }
      assert data[..m][..end] == data[..end];
    } else if m > 0 {
      WholeIsKept(data, m, n);
    }
  }

  lemma CutIsTrimmed(data: seq<Byte>, m: nat, end: nat, n: nat)
    requires end < m < end + n <= |data| && IsChar(data[end..end + n])
    ensures Trimmed(data[..m], 0) == data[..m][..end]
  {
    var c, buf := data[end..end + n], data[..m];
    CharShape(c);
    forall j | end < j < m ensures IsTail(buf[j]) { assert buf[j] == c[j - end]; }
    ScanTails(buf, end, 0);
    assert buf[end] == c[0];
  }

  lemma WholeIsKept(data: seq<Byte>, m: nat, n: nat)
    requires 0 < m <= |data| && n <= m && IsChar(data[m - n..m])
    ensures Trimmed(data[..m], 0) == data[..m]
  {
    var c, buf := data[m - n..m], data[..m];
    CharShape(c);
    forall j | m - n < j < m ensures IsTail(buf[j]) { assert buf[j] == c[j - (m - n)]; }
    assert buf[m - n] == c[0];
    if n <= 3 { ScanTails(buf, m - n, 0); } else { ScanTails(buf, m - 3, 0); }
  }

  lemma NoLonger(data: seq<Byte>, end: nat, n: nat, k: nat)
    requires end < k < end + n <= |data| && WellFormed(data[..end]) && IsChar(data[end..end + n])
    ensures !WellFormed(data[..k])
  {
    var c, rest := data[end..end + n], data[end..k];
    assert data[..k] == data[..end] + rest;
    CutSlice(data, end, n, k);
    NoCharWithin(c, k - end);
    if WellFormed(data[..k]) { RestWellFormed(data[..end], rest); }
  }

  lemma CutSlice(data: seq<int>, end: nat, n: nat, k: nat)
    requires end <= k <= end + n <= |data|
    ensures data[end..k] == data[end..end + n][..k - end]
  {
  }

  lemma NoCharWithin(c: seq<int>, k: nat)
    requires IsChar(c) && 0 < k < |c|
    ensures !WellFormed(c[..k])
  {
    forall j | 1 <= j <= k ensures !IsChar(c[..k][..j]) {
      assert c[..k][..j] == c[..j] && c[..|c|] == c;
      if IsChar(c[..j]) { SameLength(c, j, |c|); }
    }
  }

  // ---- The file -----------------------------------------------------------

  /** An open regular file. A read gives some of what was asked for: nothing only at the end, and it
      may fail. */
  class File {
    const data: seq<Byte>
    var pos: nat
    ghost var failed: bool

    constructor (data: seq<Byte>)
      ensures this.data == data && pos == 0 && !failed
    {
      this.data := data;
      pos := 0;
      failed := false;
    }

    ghost predicate Valid()
      reads this
    {
      pos <= |data|
    }

    method Read(want: nat) returns (r: Result<seq<Byte>>)
      requires Valid() && want > 0
      modifies this
      ensures Valid()
      ensures r.Thrown? ==> failed
      ensures r.Ok? ==> failed == old(failed) && pos == old(pos) + |r.value| && r.value == data[old(pos)..pos]
      ensures r.Ok? ==> |r.value| <= want && (r.value == [] <==> old(pos) == |data|)
    {
      var fails: bool := *;
      if fails {
        failed := true;
        return Thrown;
      }
      var left := |data| - pos;
      var most := if want < left then want else left;
      var n: int := *;
      if n < 0 || n > most || (n == 0 && most > 0) { n := most; }
      r := Ok(data[pos..pos + n]);
      pos := pos + n;
    }
  }

  datatype Stat = Missing | NoAccess | NoFile | Size(bytes: nat)

  datatype Outcome =
    | Content(bytes: seq<Byte>, truncated: bool, total: nat)
    | NotFound | NotAFile | TooLarge | Binary | IoError

  function Concat(chunks: seq<seq<Byte>>): seq<Byte> {
    if chunks == [] then [] else Concat(chunks[..|chunks| - 1]) + chunks[|chunks| - 1]
  }

  lemma ConcatMore(chunks: seq<seq<Byte>>, c: seq<Byte>)
    ensures Concat(chunks + [c]) == Concat(chunks) + c
  {
    assert (chunks + [c])[..|chunks|] == chunks;
  }

  function Min(a: int, b: int): int {
    if a < b then a else b
  }

  /** A byte 0 in what the first read gave, as far as it is looked at. */
  predicate Sniffed(data: seq<Byte>, first: nat)
    requires first <= |data|
  {
    0 in data[..Min(first, SNIFF)]
  }

  /** A byte 0 at `k` is seen exactly by a first read that gets past it, in the first 8 KiB: the same file
      is text after a shorter first read and binary after a longer one. */
  lemma FirstReadDecides(data: seq<Byte>, k: nat, first: nat)
    requires k < |data| && data[k] == 0 && first <= |data| && forall i :: 0 <= i < k ==> data[i] != 0
    ensures Sniffed(data, first) <==> k < first && k < 8192
  {
    var n := Min(first, SNIFF);
    if k < n { assert data[..n][k] == 0; }
  }

  /** safeReadFile up to the decoding of the bytes it keeps; `first` is how much the first read gave. */
  method SafeReadFile(stat: Stat, file: File, maxBytes: int, hardReject: Option<int>)
    returns (r: Outcome, ghost first: nat)
    requires file.Valid() && file.pos == 0 && !file.failed
    modifies file
    ensures r.NotFound? <==> stat.Missing?
    ensures r.NotAFile? <==> stat.NoFile?
    ensures r.TooLarge? <==> stat.Size? && hardReject.Some? && stat.bytes > hardReject.value
    ensures r.IoError? ==> stat.NoAccess? || (maxBytes > 0 && file.failed)
    ensures first <= |file.data| && (r.Binary? || r.Content? ==> (first > 0 <==> file.data != [] && maxBytes > 0))
    ensures first > 0 ==> (r.Binary? <==> Sniffed(file.data, first))
    ensures r.Binary? ==> first > 0
    ensures r.Content? ==> stat.Size? && r.total == stat.bytes && !file.failed
    ensures r.Content? && maxBytes <= 0 ==> r.bytes == [] && r.truncated == (stat.bytes > 0)
    ensures r.Content? && maxBytes > 0 ==>
              && (r.truncated <==> |file.data| > maxBytes)
              && r.bytes == (if r.truncated then Trimmed(file.data[..maxBytes], 0) else file.data)
  {
    first := 0;
    match stat {
      case Missing => return NotFound, first;
      case NoAccess => return IoError, first;
      case NoFile => return NotAFile, first;
      case Size(_) =>
    }
    if hardReject.Some? && stat.bytes > hardReject.value { return TooLarge, first; }
    if maxBytes <= 0 { return Content([], stat.bytes > 0, stat.bytes), first; }
    var chunks: seq<seq<Byte>> := [];
    var collected := 0;
    var truncated := false;
    while collected < maxBytes
      invariant file.Valid() && !file.failed && file.pos == collected <= maxBytes
      invariant Concat(chunks) == file.data[..collected]
      invariant chunks == [] <==> collected == 0
      invariant first <= collected && (first == 0 <==> collected == 0)
      invariant first > 0 ==> 0 !in file.data[..Min(first, SNIFF)]
      decreases maxBytes - collected
    {
      var want := Min(CHUNK, maxBytes - collected);
      var chunk := file.Read(want);
      if chunk.Thrown? { return IoError, first; }
      if chunk.value == [] { break; }
      if chunks == [] {
        first := |chunk.value|;
        var sniff := chunk.value[..Min(SNIFF, |chunk.value|)];
        assert sniff == file.data[..Min(first, SNIFF)];
        if 0 in sniff { return Binary, first; }
      }
      ConcatMore(chunks, chunk.value);
      assert file.data[..collected] + chunk.value == file.data[..file.pos];
      chunks := chunks + [chunk.value];
      collected := collected + |chunk.value|;
    }
    if collected >= maxBytes {
      var probe := file.Read(1);
      if probe.Thrown? { return IoError, first; }
      truncated := |probe.value| > 0;
    }
    var buffer := Concat(chunks);
    if truncated {
      buffer := TrimPartialUtf8(buffer);
    } else {
      assert collected == |file.data|;
    }
    return Content(buffer, truncated, stat.bytes), first;
  }
}
