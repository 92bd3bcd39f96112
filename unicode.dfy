/** Code points: the four hexadecimal digits of a `\uXXXX` escape, UTF-16
    surrogate pairs (section 2.2 of RFC 2781) and their UTF-8 form (section 3 of
    RFC 3629). */
module Unicode {
  import opened LeptTypes
  import opened Text

  /** The value of the four bytes at `i` read as hexadecimal digits, or None if
      one of them is not a hexadecimal digit (`lept_parse_hex4`). */
  function Hex4(s: seq<Byte>, i: nat): (r: Option<nat>)
    ensures r.Some? <==> IsHexDigit(At(s, i)) && IsHexDigit(At(s, i + 1))
                         && IsHexDigit(At(s, i + 2)) && IsHexDigit(At(s, i + 3))
    ensures r.Some? ==> i + 4 <= |s| && r.value < 0x10000
  {
    if IsHexDigit(At(s, i)) && IsHexDigit(At(s, i + 1))
       && IsHexDigit(At(s, i + 2)) && IsHexDigit(At(s, i + 3))
    then
      Some(0x1000 * HexDigitValue(At(s, i)) + 0x100 * HexDigitValue(At(s, i + 1))
           + 0x10 * HexDigitValue(At(s, i + 2)) + HexDigitValue(At(s, i + 3)))
    else
      None
  }

  /** The four hexadecimal digits of a value below 0x10000, most significant first. */
  function HexText(n: nat): (r: seq<Byte>)
    requires n < 0x10000
    ensures |r| == 4
  {
    [HexDigitOf(n / 0x1000), HexDigitOf(n / 0x100 % 0x10), HexDigitOf(n / 0x10 % 0x10), HexDigitOf(n % 0x10)]
  }

  /** Reading four digits back gives the value they were written from. */
  lemma HexTextRoundTrip(s: seq<Byte>, i: nat, n: nat)
    requires n < 0x10000 && i + 4 <= |s| && s[i..i + 4] == HexText(n)
    ensures Hex4(s, i) == Some(n)
  {
    var d := HexText(n);
    assert At(s, i) == d[0] && At(s, i + 1) == d[1] && At(s, i + 2) == d[2] && At(s, i + 3) == d[3];
    var q1 := n / 0x10;
    var q2 := q1 / 0x10;
    assert n / 0x100 == q2 && n / 0x1000 == q2 / 0x10;
  }

  /** The value accumulated by the digit loop after its first `n` digits. */
  function HexPrefix(s: seq<Byte>, i: nat, n: nat): nat
    requires forall k :: i <= k < i + n ==> IsHexDigit(At(s, k))
  {
    if n == 0 then 0 else HexPrefix(s, i, n - 1) * 16 + HexDigitValue(At(s, i + n - 1))
  }

  /** Accumulating four digits left to right gives the value of `Hex4`. */
  lemma HexPrefixIsHex4(s: seq<Byte>, i: nat)
    requires forall k :: i <= k < i + 4 ==> IsHexDigit(At(s, k))
    ensures Hex4(s, i) == Some(HexPrefix(s, i, 4))
  {
    assert HexPrefix(s, i, 1) == HexDigitValue(At(s, i));
    assert HexPrefix(s, i, 2) == HexDigitValue(At(s, i)) * 16 + HexDigitValue(At(s, i + 1));
    assert HexPrefix(s, i, 3) == HexPrefix(s, i, 2) * 16 + HexDigitValue(At(s, i + 2));
  }

  predicate IsHighSurrogate(u: int)
  {
    0xD800 <= u <= 0xDBFF
  }

  predicate IsLowSurrogate(u: int)
  {
    0xDC00 <= u <= 0xDFFF
  }

  /** The code point a surrogate pair stands for. */
  function CombineSurrogates(h: int, l: int): (u: nat)
    requires IsHighSurrogate(h) && IsLowSurrogate(l)
    ensures 0x10000 <= u <= 0x10FFFF
  {
    0x10000 + (h - 0xD800) * 0x400 + (l - 0xDC00)
  }

  /** The high half of the surrogate pair of a supplementary code point. */
  function HighSurrogateOf(u: int): (h: int)
    requires 0x10000 <= u <= 0x10FFFF
    ensures IsHighSurrogate(h)
  {
    0xD800 + (u - 0x10000) / 0x400
  }

  /** The low half of the surrogate pair of a supplementary code point. */
  function LowSurrogateOf(u: int): (l: int)
    requires 0x10000 <= u <= 0x10FFFF
    ensures IsLowSurrogate(l)
  {
    0xDC00 + (u - 0x10000) % 0x400
  }

  /** Combining is a bijection between surrogate pairs and the supplementary
      code points: splitting the combination gives the pair back, and combining
      the halves of a code point gives the code point back. */
  lemma SurrogatePairRoundTrip(h: int, l: int, u: int)
    ensures IsHighSurrogate(h) && IsLowSurrogate(l) ==>
      HighSurrogateOf(CombineSurrogates(h, l)) == h && LowSurrogateOf(CombineSurrogates(h, l)) == l
    ensures 0x10000 <= u <= 0x10FFFF ==>
      CombineSurrogates(HighSurrogateOf(u), LowSurrogateOf(u)) == u
  {
    if IsHighSurrogate(h) && IsLowSurrogate(l) {
      var d := (h - 0xD800) * 0x400 + (l - 0xDC00);
      assert d / 0x400 == h - 0xD800 && d % 0x400 == l - 0xDC00;
    }
  }

  /** The number of bytes UTF-8 uses for a code point. */
  function Utf8Length(u: nat): nat
  {
    if u <= 0x7F then 1 else if u <= 0x7FF then 2 else if u <= 0xFFFF then 3 else 4
  }

  /** A lead byte for a sequence of `n` bytes: 0xxxxxxx, 110xxxxx, 1110xxxx or 11110xxx. */
  predicate IsLeadByte(b: Byte, n: nat)
  {
    if n == 1 then b < 0x80
    else if n == 2 then b / 0x20 == 0x06
    else if n == 3 then b / 0x10 == 0x0E
    else n == 4 && b / 0x08 == 0x1E
  }

  /** A continuation byte: 10xxxxxx. */
  predicate IsContinuationByte(b: Byte)
  {
    b / 0x40 == 0x02
  }

  /** The UTF-8 bytes of a code point, as `lept_encode_utf8` pushes them; each
      `0xC0 | ((u >> 6) & 0x1F)` of the source is written with division and
      remainder, which give the same bits. */
  function Utf8(u: nat): (r: seq<Byte>)
    requires u <= 0x10FFFF
    ensures |r| == Utf8Length(u)
  {
    if u <= 0x7F then
      [u]
    else if u <= 0x7FF then
      [0xC0 + (u / 0x40) % 0x20, 0x80 + u % 0x40]
    else if u <= 0xFFFF then
      [0xE0 + (u / 0x1000) % 0x10, 0x80 + (u / 0x40) % 0x40, 0x80 + u % 0x40]
    else
      [0xF0 + (u / 0x40000) % 0x08, 0x80 + (u / 0x1000) % 0x40,
       0x80 + (u / 0x40) % 0x40, 0x80 + u % 0x40]
  }

  /** Reads a code point back from the payload bits of one UTF-8 sequence. */
  function Utf8Decode(r: seq<Byte>): int
  {
    var b: seq<int> := r;
    if |b| == 1 then b[0]
    else if |b| == 2 then (b[0] % 0x20) * 0x40 + b[1] % 0x40
    else if |b| == 3 then (b[0] % 0x10) * 0x1000 + (b[1] % 0x40) * 0x40 + b[2] % 0x40
    else if |b| == 4 then
      (b[0] % 0x08) * 0x40000 + (b[1] % 0x40) * 0x1000 + (b[2] % 0x40) * 0x40 + b[3] % 0x40
    else -1
  }

  /** The encoding loses nothing: every code point up to 0x10FFFF is decoded
      back from its UTF-8 bytes. */
  lemma Utf8RoundTrip(u: nat)
    requires u <= 0x10FFFF
    ensures Utf8Decode(Utf8(u)) == u
  {
    if u <= 0x7F {
    } else if u <= 0x7FF {
      Utf8TwoBytes(u);
    } else if u <= 0xFFFF {
      Utf8ThreeBytes(u);
    } else {
      Utf8FourBytes(u);
    }
  }

  lemma Utf8TwoBytes(u: nat)
    requires 0x80 <= u <= 0x7FF
    ensures Utf8Decode(Utf8(u)) == u
  {
    var b: seq<int> := Utf8(u);
    assert b[0] % 0x20 == u / 0x40;
    assert b[1] % 0x40 == u % 0x40;
  }

  lemma Utf8ThreeBytes(u: nat)
    requires 0x800 <= u <= 0xFFFF
    ensures Utf8Decode(Utf8(u)) == u
  {
    var q1, lo := u / 0x40, u % 0x40;
    var q2, mid := q1 / 0x40, q1 % 0x40;
    assert u == q2 * 0x1000 + mid * 0x40 + lo;
    assert u / 0x1000 == q2 && q2 < 0x10;
    var b: seq<int> := Utf8(u);
    assert b[0] % 0x10 == q2 && b[1] % 0x40 == mid && b[2] % 0x40 == lo;
  }

  lemma Utf8FourBytes(u: nat)
    requires 0x10000 <= u <= 0x10FFFF
    ensures Utf8Decode(Utf8(u)) == u
  {
    var q1, lo := u / 0x40, u % 0x40;
    var q2, mid := q1 / 0x40, q1 % 0x40;
    var q3, hi := q2 / 0x40, q2 % 0x40;
    assert u == q3 * 0x40000 + hi * 0x1000 + mid * 0x40 + lo;
    assert u / 0x1000 == q2 && u / 0x40000 == q3 && q3 < 0x08;
    var b: seq<int> := Utf8(u);
    assert b[0] % 0x08 == q3 && b[1] % 0x40 == hi && b[2] % 0x40 == mid && b[3] % 0x40 == lo;
  }

  /** The bytes are a well-formed UTF-8 sequence: a lead byte announcing the
      length, then continuation bytes only. */
  lemma Utf8WellFormed(u: nat)
    requires u <= 0x10FFFF
    ensures var r := Utf8(u);
      IsLeadByte(r[0], |r|) && forall k :: 1 <= k < |r| ==> IsContinuationByte(r[k])
  {
  }

  /** Different code points have different encodings. */
  lemma Utf8Injective(u: nat, w: nat)
    requires u <= 0x10FFFF && w <= 0x10FFFF
    ensures Utf8(u) == Utf8(w) ==> u == w
  {
    Utf8RoundTrip(u);
    Utf8RoundTrip(w);
  }
}
