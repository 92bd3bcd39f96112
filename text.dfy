/** The input text as the parser sees it: a byte sequence read through a cursor,
    with a NUL byte standing after its last byte, and the character classes the
    scanners test for. */
module Text {
  import opened LeptTypes

  const Nul: Byte := 0
  const Tab: Byte := 0x09
  const LineFeed: Byte := 0x0A
  const CarriageReturn: Byte := 0x0D
  const Space: Byte := 0x20
  const Quote: Byte := '"' as int
  const Backslash: Byte := '\\' as int
  const Slash: Byte := '/' as int
  const Comma: Byte := ',' as int
  const Minus: Byte := '-' as int
  const Dot: Byte := '.' as int
  const Colon: Byte := ':' as int
  const Zero: Byte := '0' as int
  const LBracket: Byte := '[' as int
  const RBracket: Byte := ']' as int
  const LBrace: Byte := '{' as int
  const RBrace: Byte := '}' as int

  /** The byte under a cursor: past the end of the text it is the terminating NUL. */
  function At(s: seq<Byte>, i: nat): (b: Byte)
    ensures b != Nul ==> i < |s|
  {
    if i < |s| then s[i] else Nul
  }

  /** The text has no NUL byte of its own, so the first NUL the parser meets is its end. */
  ghost predicate NoNul(s: seq<Byte>)
  {
    forall k :: 0 <= k < |s| ==> s[k] != Nul
  }

  /** The four whitespace bytes of `lept_parse_whitespace`. */
  predicate IsWs(b: Byte)
  {
    b == Space || b == Tab || b == LineFeed || b == CarriageReturn
  }

  predicate IsDigit(b: Byte)
  {
    '0' as int <= b <= '9' as int
  }

  predicate IsDigit1To9(b: Byte)
  {
    '1' as int <= b <= '9' as int
  }

  predicate IsHexDigit(b: Byte)
  {
    IsDigit(b) || 'a' as int <= b <= 'f' as int || 'A' as int <= b <= 'F' as int
  }

  /** The value of one hexadecimal digit, in either case. */
  function HexDigitValue(b: Byte): (d: nat)
    requires IsHexDigit(b)
    ensures d < 16
  {
    if IsDigit(b) then b - '0' as int
    else if 'a' as int <= b <= 'f' as int then 10 + b - 'a' as int
    else 10 + b - 'A' as int
  }

  /** The lower-case hexadecimal digit for a value below 16; reading it back
      gives the value. */
  function HexDigitOf(d: nat): (b: Byte)
    requires d < 16
    ensures IsHexDigit(b) && HexDigitValue(b) == d
  {
    if d < 10 then '0' as int + d else 'a' as int + (d - 10)
  }

  /** The bytes of a text written with characters below 256 (used to state
      examples); each character is taken modulo 256. */
  function Bytes(t: string): (r: seq<Byte>)
    ensures |r| == |t|
  {
    seq(|t|, k requires 0 <= k < |t| => t[k] as int % 0x100)
  }
}
