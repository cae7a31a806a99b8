/**
 Go's `byte`, the whitespace and dot bytes the line normaliser looks at, and the
 per-byte effect of `byte(unicode.ToLower(rune(b)))` on the 256 byte values.
 */
module Bytes {

  newtype byte = x: int | 0 <= x < 0x100

  const Space: byte := 0x20
  const Tab: byte := 0x09
  const CR: byte := 0x0D
  const LF: byte := 0x0A
  const Dot: byte := 0x2E

  /** The four bytes that trimSpaces strips from both ends of a line. */
  predicate IsSpace(b: byte) {
    b == Space || b == Tab || b == CR || b == LF
  }

  predicate IsAsciiUpper(b: byte) {
    0x41 <= b <= 0x5A
  }

  /**
   A byte read as a rune is the Latin-1 code point of the same value. Besides
   `A`..`Z`, Unicode gives a lower-case mapping (at distance 0x20) to
   U+00C0..U+00D6 and U+00D8..U+00DE; U+00D7 (the multiplication sign) has none.
   */
  predicate IsUpper(b: byte) {
    IsAsciiUpper(b) || (0xC0 <= b <= 0xDE && b != 0xD7)
  }

  /** `byte(unicode.ToLower(rune(b)))`: no upper-case byte survives, and every other byte is kept. */
  function ToLower(b: byte): (r: byte)
    ensures !IsUpper(r)
    ensures r == b <==> !IsUpper(b)
    ensures r != b ==> r as int == b as int + 0x20
    ensures b < 0x80 <==> r < 0x80
    ensures IsSpace(r) <==> IsSpace(b)
    ensures r == Dot <==> b == Dot
  {
    if IsUpper(b) then b + 0x20 else b
  }

  /** The lower-casing loop's effect on a whole slice. */
  function Lower(s: seq<byte>): (r: seq<byte>)
  {
    seq(|s|, i requires 0 <= i < |s| => ToLower(s[i]))
  }

  lemma ToLowerIdempotent(b: byte)
    ensures ToLower(ToLower(b)) == ToLower(b)
  {
  }

  /** Lower-casing keeps the length, is idempotent and keeps dots and spaces where they are. */
  lemma LowerProperties(s: seq<byte>)
    ensures |Lower(s)| == |s|
    ensures Lower(Lower(s)) == Lower(s)
    ensures forall i :: 0 <= i < |s| ==> (Lower(s)[i] == Dot <==> s[i] == Dot)
    ensures forall i :: 0 <= i < |s| ==> (IsSpace(Lower(s)[i]) <==> IsSpace(s[i]))
  {
  }

  /** Lower-casing commutes with taking a slice. */
  lemma LowerSlice(s: seq<byte>, lo: nat, hi: nat)
    requires lo <= hi <= |s|
    ensures Lower(s[lo..hi]) == Lower(s)[lo..hi]
  {
  }
}
