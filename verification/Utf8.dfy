/** Well-formed UTF-8 as the byte ranges of section 4 of RFC 3629. */
module Utf8 {

  type Byte = x: int | 0 <= x < 256

  /** The production UTF8-tail. */
  predicate IsTail(b: int) {
    0x80 <= b <= 0xBF
  }

  /** The production UTF8-char: one encoded code point, and nothing after it. */
  predicate IsChar(c: seq<int>) {
    || (|c| == 1 && 0x00 <= c[0] <= 0x7F)
    || (|c| == 2 && 0xC2 <= c[0] <= 0xDF && IsTail(c[1]))
    || (|c| == 3 && IsTail(c[2]) && Lead3(c[0], c[1]))
    || (|c| == 4 && IsTail(c[2]) && IsTail(c[3]) && Lead4(c[0], c[1]))
  }

  predicate Lead3(b0: int, b1: int) {
    || (b0 == 0xE0 && 0xA0 <= b1 <= 0xBF)
    || (0xE1 <= b0 <= 0xEC && IsTail(b1))
    || (b0 == 0xED && 0x80 <= b1 <= 0x9F)
    || (0xEE <= b0 <= 0xEF && IsTail(b1))
  }

  predicate Lead4(b0: int, b1: int) {
    || (b0 == 0xF0 && 0x90 <= b1 <= 0xBF)
    || (0xF1 <= b0 <= 0xF3 && IsTail(b1))
    || (b0 == 0xF4 && 0x80 <= b1 <= 0x8F)
  }

  /** The production UTF8-octets: a run of encoded code points. */
  ghost predicate WellFormed(s: seq<int>)
    decreases |s|
  {
    s == [] || exists n :: 1 <= n <= |s| && IsChar(s[..n]) && WellFormed(s[n..])
  }
}
