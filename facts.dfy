/** What the parse results mean: the properties the parser promises, proved
    about the functions of module Grammar (and so, through the contracts of
    module Parser, about the methods that run it). */
module GrammarFacts {
  import opened LeptTypes
  import opened Text
  import opened Unicode
  import opened Grammar

  /** Every byte from `i` to the end of the text is whitespace. */
  ghost predicate Blank(s: seq<Byte>, i: nat)
  {
    forall k :: i <= k < |s| ==> IsWs(s[k])
  }

  // ---------------------------------------------------------------- whitespace

  /** `lept_parse_whitespace` steps over whitespace only, and stops at the
      first byte that is not space, tab, line feed or carriage return. */
  lemma {:induction false} SkipWsSkipsWhitespaceOnly(s: seq<Byte>, i: nat)
    requires i <= |s|
    ensures forall k :: i <= k < SkipWs(s, i) ==> IsWs(s[k])
    ensures !IsWs(At(s, SkipWs(s, i)))
    decreases |s| - i
  {
    if IsWs(At(s, i)) {
      SkipWsSkipsWhitespaceOnly(s, i + 1);
    }
  }

  /** On a blank rest of the text the whitespace scan runs to the end. */
  lemma {:induction false} SkipWsOfBlank(s: seq<Byte>, i: nat)
    requires i <= |s| && Blank(s, i)
    ensures SkipWs(s, i) == |s|
    decreases |s| - i
  {
    if i < |s| {
      SkipWsOfBlank(s, i + 1);
    }
  }

  /** Empty or all-whitespace text gives EXPECT_VALUE and leaves the value alone. */
  lemma BlankTextExpectsValue(s: seq<Byte>, v: Value, strtod: Strtod)
    requires Blank(s, 0)
    ensures Parse(s, v, strtod) == Parsed(Returns(ExpectValue), v, |s|)
  {
    SkipWsOfBlank(s, 0);
  }

  /** The whole text is one value: with no NUL inside the text, parsing
      succeeds exactly when the root value does and only whitespace follows
      it; anything else after it gives ROOT_NOT_SINGULAR, with the root value
      still stored. A root value that fails ends the parse as it failed. */
  lemma RootSingular(s: seq<Byte>, v: Value, strtod: Strtod)
    requires NoNul(s)
    ensures var e := ParseValue(s, SkipWs(s, 0), v, strtod);
      (Parse(s, v, strtod).Succeeded() <==> e.Succeeded() && Blank(s, e.pos)) &&
      (e.Succeeded() && !Blank(s, e.pos) ==>
         Parse(s, v, strtod) == Parsed(Returns(RootNotSingular), e.value, SkipWs(s, e.pos))) &&
      (e.Succeeded() ==> Parse(s, v, strtod).value == e.value) &&
      (!e.Succeeded() ==> Parse(s, v, strtod) == e)
  {
    var e := ParseValue(s, SkipWs(s, 0), v, strtod);
    if e.Succeeded() {
      var j := SkipWs(s, e.pos);
      if Blank(s, e.pos) {
        SkipWsOfBlank(s, e.pos);
      } else {
        SkipWsSkipsWhitespaceOnly(s, e.pos);
        var k :| e.pos <= k < |s| && !IsWs(s[k]);
        assert j <= k;
        assert At(s, j) != Nul;
      }
    }
  }

  /** A text with no leading whitespace whose root value fails ends as the
      root value's parse does. */
  lemma FailingRoot(s: seq<Byte>, v: Value, strtod: Strtod)
    requires 0 < |s| && !IsWs(s[0]) && !ParseValue(s, 0, v, strtod).Succeeded()
    ensures Parse(s, v, strtod) == ParseValue(s, 0, v, strtod)
  {
    assert SkipWs(s, 0) == 0;
  }

  /** A quoted string whose decoding fails fails the parse the same way,
      leaving the value alone. */
  lemma FailingString(s: seq<Byte>, v: Value, strtod: Strtod)
    requires 0 < |s| && s[0] == Quote && DecodeLoop(s, 1, []).DecodeError?
    ensures var d := DecodeLoop(s, 1, []); Parse(s, v, strtod) == Parsed(d.outcome, v, d.pos)
  {
    assert ParseValue(s, 0, v, strtod) == ParseString(s, 0, v);
    FailingRoot(s, v, strtod);
  }

  /** An array whose first element fails fails the parse the same way,
      leaving the value alone. */
  lemma FailingFirstElement(s: seq<Byte>, v: Value, strtod: Strtod)
    requires 1 < |s| && s[0] == LBracket && !IsWs(s[1]) && s[1] !in {Nul, RBracket, Comma}
    requires !ParseValue(s, 1, Null, strtod).Succeeded()
    ensures var e := ParseValue(s, 1, Null, strtod); Parse(s, v, strtod) == Parsed(e.outcome, v, e.pos)
  {
    ArrayLoopAtItem(s, 1, v, [], strtod);
    assert ParseValue(s, 0, v, strtod) == ParseArray(s, 0, v, strtod);
    FailingRoot(s, v, strtod);
  }

  /** An object whose first member fails fails the parse the same way,
      leaving the value alone. */
  lemma FailingFirstMember(s: seq<Byte>, v: Value, strtod: Strtod)
    requires 1 < |s| && s[0] == LBrace && !IsWs(s[1]) && s[1] !in {Nul, RBrace, Comma}
    requires !ParseMember(s, 1, strtod).Succeeded()
    ensures var m := ParseMember(s, 1, strtod); Parse(s, v, strtod) == Parsed(m.outcome, v, m.pos)
  {
    ObjectLoopAtItem(s, 1, v, [], strtod);
    assert ParseValue(s, 0, v, strtod) == ParseObject(s, 0, v, strtod);
    FailingRoot(s, v, strtod);
  }

  // ---------------------------------------------------------------- literals

  /** Each of the three literals, alone, parses to its value. */
  lemma LiteralsParse(v: Value, strtod: Strtod)
    ensures Parse(NullLiteral, v, strtod) == Parsed(Returns(Ok), Null, 4)
    ensures Parse(TrueLiteral, v, strtod) == Parsed(Returns(Ok), True, 4)
    ensures Parse(FalseLiteral, v, strtod) == Parsed(Returns(Ok), False, 5)
  {
    assert MatchesAt(NullLiteral, 0, NullLiteral) && SkipWs(NullLiteral, 0) == 0;
    assert MatchesAt(TrueLiteral, 0, TrueLiteral) && SkipWs(TrueLiteral, 0) == 0;
    assert MatchesAt(FalseLiteral, 0, FalseLiteral) && SkipWs(FalseLiteral, 0) == 0;
  }

  /** A literal cut short fails with INVALID_VALUE and leaves the value alone;
      one followed by more than whitespace is ROOT_NOT_SINGULAR. */
  lemma LiteralErrors(v: Value, strtod: Strtod)
    ensures Parse(NullLiteral[..3], v, strtod) == Parsed(Returns(InvalidValue), v, 0)
    ensures Parse(NullLiteral + [Space, 'x' as int], v, strtod) == Parsed(Returns(RootNotSingular), Null, 5)
  {
    var cut := NullLiteral[..3];
    assert SkipWs(cut, 0) == 0 && !MatchesAt(cut, 0, NullLiteral);
    var more := NullLiteral + [Space, 'x' as int];
    assert more[..4] == NullLiteral;
    assert MatchesAt(more, 0, NullLiteral) && SkipWs(more, 0) == 0 && SkipWs(more, 4) == 5;
  }

  // ---------------------------------------------------------------- numbers

  /** The decimal-point scan of `lept_parse_number` stops at the first `.` or
      at the end of the text, passing no `.` and no NUL on the way; it does not
      stop where the number ends. */
  lemma {:induction false} FirstDotOrEndIsFirst(s: seq<Byte>, i: nat)
    requires i <= |s|
    ensures forall k :: i <= k < FirstDotOrEnd(s, i) ==> s[k] != Dot && s[k] != Nul
    decreases |s| - i
  {
    if At(s, i) != Nul && At(s, i) != Dot {
      FirstDotOrEndIsFirst(s, i + 1);
    }
  }

  /** How a number ends. It parses exactly when the grammar check passes and
      the conversion reads at least one byte; then the value is the converted
      number and the cursor moves past what was read. NUMBER_TOO_BIG comes
      exactly from an overflowing conversion and leaves the value alone. A
      failure never moves the cursor, and leaves the value alone except when
      the conversion reads nothing: its result is stored before the check. */
  lemma NumberOutcomes(s: seq<Byte>, i: nat, v: Value, strtod: Strtod)
    requires i <= |s|
    ensures var r, c := ParseNumber(s, i, v, strtod), strtod(s[i..]);
      (r.Succeeded() <==> NumberPreCheck(s, i) && c.Converted? && c.consumed > 0) &&
      (r.Succeeded() ==> r.value == Number(c.num) && r.pos == i + c.consumed) &&
      (r.outcome == Returns(NumberTooBig) <==> NumberPreCheck(s, i) && c.Overflow?) &&
      (!r.Succeeded() ==> r.pos == i) &&
      (!r.Succeeded() && r.value != v ==>
         r.outcome == Returns(InvalidValue) && c.Converted? && c.consumed == 0 && r.value == Number(c.num))
  {
  }

  /** A text that starts with something other than whitespace, a literal's
      first letter, a quote, a bracket or a brace is parsed as a number, so
      failing the grammar check is INVALID_VALUE at the start, whatever the
      conversion would have done. */
  lemma CheckRejects(s: seq<Byte>, v: Value, strtod: Strtod)
    requires 0 < |s| && !IsWs(s[0]) && !NumberPreCheck(s, 0)
    requires s[0] !in {'n' as int, 't' as int, 'f' as int, Quote, LBracket, LBrace, Nul}
    ensures Parse(s, v, strtod) == Parsed(Returns(InvalidValue), v, 0)
  {
    assert SkipWs(s, 0) == 0;
  }

  /** A text starting with a byte that cannot start a JSON value nor a number
      fails at once with INVALID_VALUE. */
  lemma NoValueStart(s: seq<Byte>, v: Value, strtod: Strtod)
    requires 0 < |s| && !IsWs(s[0]) && !IsDigit(s[0]) && s[0] != Minus
    requires s[0] !in {'n' as int, 't' as int, 'f' as int, Quote, LBracket, LBrace, Nul}
    ensures Parse(s, v, strtod) == Parsed(Returns(InvalidValue), v, 0)
  {
    assert !NumberPreCheck(s, 0);
    CheckRejects(s, v, strtod);
  }

  /** The grammar check turns down a sign other than `-`. */
  lemma RejectedSigns(v: Value, strtod: Strtod)
    ensures Parse(Bytes("+0"), v, strtod) == Parsed(Returns(InvalidValue), v, 0)
    ensures Parse(Bytes("+1"), v, strtod) == Parsed(Returns(InvalidValue), v, 0)
  {
    NoValueStart(Bytes("+0"), v, strtod);
    NoValueStart(Bytes("+1"), v, strtod);
  }

  /** The grammar check wants a digit before the point and one after it. */
  lemma RejectedPoints(v: Value, strtod: Strtod)
    ensures Parse(Bytes(".123"), v, strtod) == Parsed(Returns(InvalidValue), v, 0)
    ensures Parse(Bytes("1."), v, strtod) == Parsed(Returns(InvalidValue), v, 0)
  {
    NoValueStart(Bytes(".123"), v, strtod);
    var one := Bytes("1.");
    assert FirstDotOrEnd(one, 1) == 1;
    CheckRejects(one, v, strtod);
  }

  /** The word INF is not a number to the grammar check, in either case. */
  lemma RejectedInfinity(v: Value, strtod: Strtod)
    ensures Parse(Bytes("INF"), v, strtod) == Parsed(Returns(InvalidValue), v, 0)
    ensures Parse(Bytes("inf"), v, strtod) == Parsed(Returns(InvalidValue), v, 0)
  {
    NoValueStart(Bytes("INF"), v, strtod);
    NoValueStart(Bytes("inf"), v, strtod);
  }

  /** Nor is NAN; `nan` fails as a misspelt `null`. */
  lemma RejectedNotANumber(v: Value, strtod: Strtod)
    ensures Parse(Bytes("NAN"), v, strtod) == Parsed(Returns(InvalidValue), v, 0)
    ensures Parse(Bytes("nan"), v, strtod) == Parsed(Returns(InvalidValue), v, 0)
  {
    NoValueStart(Bytes("NAN"), v, strtod);
    var nan := Bytes("nan");
    assert SkipWs(nan, 0) == 0 && !MatchesAt(nan, 0, NullLiteral);
  }

  /** The point the check looks at need not belong to the number: in
      `[1,"a."]` the first `.` of the rest of the text is inside the string
      and is followed by a quote, so the element `1` is turned down and the
      array fails with INVALID_VALUE, whatever the conversion would read. */
  lemma DotScanReachesPastNumber(v: Value, strtod: Strtod)
    ensures Parse(Bytes("[1,\"a.\"]"), v, strtod) == Parsed(Returns(InvalidValue), v, 1)
  {
    var s := Bytes("[1,\"a.\"]");
    assert s[1] == '1' as int && s[5] == Dot && s[6] == Quote;
    assert FirstDotOrEnd(s, 5) == 5;
    assert FirstDotOrEnd(s, 4) == 5;
    assert FirstDotOrEnd(s, 3) == 5;
    assert FirstDotOrEnd(s, 2) == 5;
    assert FirstDotOrEnd(s, 1) == 5;
    assert !NumberPreCheck(s, 1);
    assert ParseValue(s, 1, Null, strtod) == Parsed(Returns(InvalidValue), Null, 1);
    FailingFirstElement(s, v, strtod);
  }

  // ---------------------------------------------------------------- strings

  /** One byte as it may be written inside a quoted string (section 7 of
      RFC 8259): the quote and the backslash escaped, a control byte (NUL
      included) as `\u00XY`, any other byte as itself. No byte of the result
      is a control byte, so none can end the string early. */
  function EscapeByte(b: Byte): (r: seq<Byte>)
    ensures 0 < |r| && forall k :: 0 <= k < |r| ==> r[k] >= 0x20
    ensures r[0] != Quote && (r[0] == Backslash <==> 1 < |r|)
  {
    if b == Quote || b == Backslash then [Backslash, b]
    else if b < 0x20 then UnitText(b)
    else [b]
  }

  /** A byte string written out with every byte escaped as needed. */
  function EscapeText(t: seq<Byte>): (r: seq<Byte>)
    ensures |t| <= |r|
  {
    if t == [] then [] else EscapeByte(t[0]) + EscapeText(t[1..])
  }

  /** The bytes `w` stand in the text from `i` on. */
  ghost predicate WrittenAt(s: seq<Byte>, i: nat, w: seq<Byte>)
  {
    i + |w| <= |s| && forall k :: 0 <= k < |w| ==> s[i + k] == w[k]
  }

  /** The decoding loop reads one written byte back as the byte. */
  lemma EscapeByteDecodes(s: seq<Byte>, i: nat, b: Byte, acc: seq<Byte>)
    requires WrittenAt(s, i, EscapeByte(b))
    ensures DecodeLoop(s, i, acc) == DecodeLoop(s, i + |EscapeByte(b)|, acc + [b])
  {
    var e := EscapeByte(b);
    assert s[i] == e[0];
    if b == Quote || b == Backslash {
      assert At(s, i + 1) == e[1] == b;
    } else if b < 0x20 {
      CodePointEscape(s, i, b);
      assert Utf8(b) == [b];
    }
  }

  /** The first written byte of a non-empty text is decoded by one turn of
      the loop, which leaves the cursor on the writing of the rest. */
  lemma DecodeFirstByte(s: seq<Byte>, i: nat, t: seq<Byte>, acc: seq<Byte>)
    requires t != [] && WrittenAt(s, i, EscapeText(t) + [Quote])
    ensures var n := |EscapeByte(t[0])|;
      |EscapeText(t)| == n + |EscapeText(t[1..])| &&
      WrittenAt(s, i + n, EscapeText(t[1..]) + [Quote]) &&
      DecodeLoop(s, i, acc) == DecodeLoop(s, i + n, acc + [t[0]])
  {
    var w := EscapeText(t) + [Quote];
    var e, w' := EscapeByte(t[0]), EscapeText(t[1..]) + [Quote];
    assert w == e + w';
    assert WrittenAt(s, i, e) by {
      forall k | 0 <= k < |e| ensures s[i + k] == e[k] { assert w[k] == e[k]; }
    }
    assert WrittenAt(s, i + |e|, w') by {
      forall k | 0 <= k < |w'| ensures s[i + |e| + k] == w'[k] { assert w[|e| + k] == w'[k]; }
    }
    EscapeByteDecodes(s, i, t[0], acc);
  }

  /** Decoding written-out text up to a closing quote gives the text back, and
      leaves the cursor after the quote. */
  lemma {:induction false} DecodeEscapedText(s: seq<Byte>, i: nat, t: seq<Byte>, acc: seq<Byte>)
    requires WrittenAt(s, i, EscapeText(t) + [Quote])
    ensures DecodeLoop(s, i, acc) == Decoded(acc + t, i + |EscapeText(t)| + 1)
    decreases t
  {
    if t == [] {
      assert s[i + 0] == (EscapeText(t) + [Quote])[0] == Quote;
    } else {
      DecodeFirstByte(s, i, t, acc);
      DecodeEscapedText(s, i + |EscapeByte(t[0])|, t[1..], acc + [t[0]]);
      assert acc + [t[0]] + t[1..] == acc + t;
    }
  }

  /** Any byte string, NUL and control bytes included, comes back from its
      written-out form between quotes: `lept_parse_string` stores exactly
      those bytes and stops after the closing quote, whatever follows. */
  lemma QuotedTextRoundTrip(t: seq<Byte>, rest: seq<Byte>, v: Value)
    ensures var s := [Quote] + EscapeText(t) + [Quote] + rest;
      ParseString(s, 0, v) == Parsed(Returns(Ok), String(t), |EscapeText(t)| + 2)
  {
    var s := [Quote] + EscapeText(t) + [Quote] + rest;
    assert WrittenAt(s, 1, EscapeText(t) + [Quote]) by {
      var w := EscapeText(t) + [Quote];
      forall k | 0 <= k < |w| ensures s[1 + k] == w[k] { assert s == [Quote] + w + rest; }
    }
    DecodeEscapedText(s, 1, t, []);
    assert [] + t == t;
    assert RawString(s, 0) == Decoded(t, |EscapeText(t)| + 2);
  }

  /** The same as a whole JSON text: it parses to the string. */
  lemma QuotedTextParses(t: seq<Byte>, v: Value, strtod: Strtod)
    ensures Parse([Quote] + EscapeText(t) + [Quote], v, strtod) == Parsed(Returns(Ok), String(t), |EscapeText(t)| + 2)
  {
    var s := [Quote] + EscapeText(t) + [Quote];
    QuotedTextRoundTrip(t, [], v);
    assert s + [] == s;
    assert SkipWs(s, 0) == 0;
    assert SkipWs(s, |s|) == |s|;
  }

  /** What the decoding loop leaves behind. A decoded string extends the bytes
      decoded before the loop started. Every failure returns one of the five
      string statuses. An unknown escape or a control byte leaves nothing on
      the scratch stack. The other failures leave at least the bytes decoded
      before on the stack. */
  lemma {:induction false} DecodeLoopShape(s: seq<Byte>, i: nat, acc: seq<Byte>)
    requires i <= |s|
    ensures var r := DecodeLoop(s, i, acc);
      (r.Decoded? ==> acc <= r.bytes) &&
      (r.DecodeError? ==> r.outcome in {Returns(InvalidStringEscape), Returns(InvalidStringChar),
                                        Returns(StringMissQuote), Returns(InvalidUnicodeHex),
                                        Returns(InvalidUnicodeSurrogate)}) &&
      (r.DecodeError? && r.outcome in {Returns(InvalidStringEscape), Returns(InvalidStringChar)} ==>
         r.pushed == []) &&
      (r.DecodeError? && r.outcome !in {Returns(InvalidStringEscape), Returns(InvalidStringChar)} ==>
         acc <= r.pushed)
    decreases |s| - i
  {
    var ch := At(s, i);
    if ch == Backslash {
      match Escape(s, i)
      case Escaped(bytes, next) =>
        DecodeLoopShape(s, next, acc + bytes);
      case BadEscape(status, p) =>
    } else if ch != Quote && ch != Nul && 0x20 <= ch {
      DecodeLoopShape(s, i + 1, acc + [ch]);
    }
  }

  /** The `\u` escape at `i` with digits worth `h`, not a high surrogate,
      decodes to the UTF-8 bytes of `h`. */
  lemma UnitEscape(s: seq<Byte>, i: nat, h: nat)
    requires i < |s| && s[i] == Backslash && At(s, i + 1) == 'u' as int
    requires Hex4(s, i + 2) == Some(h) && !IsHighSurrogate(h)
    ensures Escape(s, i) == Escaped(Utf8(h), i + 6)
  {
  }

  /** The `\u` escape at `i` with a high surrogate `h`, followed by `\u` and a
      low surrogate `l`, decodes to the UTF-8 bytes of the code point of the pair. */
  lemma PairEscape(s: seq<Byte>, i: nat, h: nat, l: nat)
    requires i < |s| && s[i] == Backslash && At(s, i + 1) == 'u' as int
    requires Hex4(s, i + 2) == Some(h) && IsHighSurrogate(h)
    requires At(s, i + 6) == Backslash && At(s, i + 7) == 'u' as int
    requires Hex4(s, i + 8) == Some(l) && IsLowSurrogate(l)
    ensures Escape(s, i) == Escaped(Utf8(CombineSurrogates(h, l)), i + 12)
  {
  }

  /** The six bytes `\uXXXX` writing `n` in lower-case hexadecimal. */
  function UnitText(n: nat): (r: seq<Byte>)
    requires n < 0x10000
    ensures |r| == 6 && r[0] == Backslash && r[1] == 'u' as int
  {
    [Backslash, 'u' as int] + HexText(n)
  }

  lemma WrittenSplit(s: seq<Byte>, i: nat, a: seq<Byte>, b: seq<Byte>)
    requires WrittenAt(s, i, a + b)
    ensures WrittenAt(s, i, a) && WrittenAt(s, i + |a|, b)
  {
    forall k | 0 <= k < |a| ensures s[i + k] == a[k] { assert (a + b)[k] == a[k]; }
    forall k | 0 <= k < |b| ensures s[i + |a| + k] == b[k] { assert (a + b)[|a| + k] == b[k]; }
  }

  lemma UnitWritten(s: seq<Byte>, i: nat, n: nat)
    requires n < 0x10000 && WrittenAt(s, i, UnitText(n))
    ensures i < |s| && s[i] == Backslash && At(s, i + 1) == 'u' as int && Hex4(s, i + 2) == Some(n)
  {
    var w := UnitText(n);
    assert s[i + 0] == w[0] && s[i + 1] == w[1];
    assert s[i + 2..i + 6] == HexText(n) by {
      forall k | 0 <= k < 4 ensures s[i + 2 + k] == HexText(n)[k] { assert w[2 + k] == HexText(n)[k]; }
    }
    HexTextRoundTrip(s, i + 2, n);
  }

  /** `\uXXXX` naming a code point that is not a high surrogate decodes to its
      UTF-8 bytes. A low surrogate standing alone is accepted this way too. */
  lemma CodePointEscape(s: seq<Byte>, i: nat, u: nat)
    requires u < 0x10000 && !IsHighSurrogate(u)
    requires WrittenAt(s, i, UnitText(u))
    ensures i < |s| && s[i] == Backslash && Escape(s, i) == Escaped(Utf8(u), i + 6)
  {
    UnitWritten(s, i, u);
    UnitEscape(s, i, u);
  }

  /** A supplementary code point written as its surrogate pair, `\uD8XX\uDCXX`,
      decodes to its four UTF-8 bytes. */
  lemma SurrogatePairEscape(s: seq<Byte>, i: nat, u: nat)
    requires 0x10000 <= u <= 0x10FFFF
    requires WrittenAt(s, i, UnitText(HighSurrogateOf(u)) + UnitText(LowSurrogateOf(u)))
    ensures i < |s| && s[i] == Backslash && Escape(s, i) == Escaped(Utf8(u), i + 12) && |Utf8(u)| == 4
  {
    var h, l := HighSurrogateOf(u), LowSurrogateOf(u);
    WrittenSplit(s, i, UnitText(h), UnitText(l));
    UnitWritten(s, i, h);
    UnitWritten(s, i + 6, l);
    PairEscape(s, i, h, l);
    SurrogatePairRoundTrip(h, l, u);
  }

  /** A high surrogate decodes only when `\u` and a low surrogate follow it.
      With no `\u` after it the escape fails with INVALID_UNICODE_SURROGATE
      where the `\u` should be; bad digits after the `\u` fail with
      INVALID_UNICODE_HEX at those digits; and digits that are not a low
      surrogate fail with INVALID_UNICODE_SURROGATE just after them. */
  lemma HighSurrogateNeedsLow(s: seq<Byte>, i: nat)
    requires i < |s| && s[i] == Backslash && At(s, i + 1) == 'u' as int
    requires Hex4(s, i + 2).Some? && IsHighSurrogate(Hex4(s, i + 2).value)
    ensures var r, l := Escape(s, i), Hex4(s, i + 8);
      var second := At(s, i + 6) == Backslash && At(s, i + 7) == 'u' as int;
      (!second ==> r == BadEscape(InvalidUnicodeSurrogate, i + 6)) &&
      (second && l.None? ==> r == BadEscape(InvalidUnicodeHex, i + 8)) &&
      (second && l.Some? && !IsLowSurrogate(l.value) ==> r == BadEscape(InvalidUnicodeSurrogate, i + 12)) &&
      (r.Escaped? <==> second && l.Some? && IsLowSurrogate(l.value)) &&
      (r.Escaped? ==> |r.bytes| == 4 && r.next == i + 12)
  {
  }

  /** `\u` not followed by four hex digits fails with INVALID_UNICODE_HEX at
      the first of the digits. */
  lemma BadHexDigits(s: seq<Byte>, i: nat)
    requires i < |s| && s[i] == Backslash && At(s, i + 1) == 'u' as int && Hex4(s, i + 2).None?
    ensures Escape(s, i) == BadEscape(InvalidUnicodeHex, i + 2)
  {
  }

  /** Every escape that decodes gives one well-formed UTF-8 sequence. */
  lemma EscapeWellFormed(s: seq<Byte>, i: nat)
    requires i < |s| && s[i] == Backslash
    ensures var r := Escape(s, i);
      r.Escaped? ==>
        1 <= |r.bytes| <= 4 && IsLeadByte(r.bytes[0], |r.bytes|) &&
        forall k :: 1 <= k < |r.bytes| ==> IsContinuationByte(r.bytes[k])
  {
    var e := At(s, i + 1);
    if !IsSimpleEscape(e) && e == 'u' as int {
      match Hex4(s, i + 2)
      case None =>
      case Some(h) =>
        if IsHighSurrogate(h) {
          match Hex4(s, i + 8)
          case None =>
          case Some(l) =>
            if IsLowSurrogate(l) {
              Utf8WellFormed(CombineSurrogates(h, l));
            }
        } else {
          Utf8WellFormed(h);
        }
    }
  }

  // One-byte escapes, and the string failures of the repository's test program.

  /** Each of the eight one-byte escapes decodes to one byte, two bytes on.
      No two of them stand for the same byte, and all but the quote, the
      backslash and the slash stand for control bytes, which may not appear raw. */
  lemma SimpleEscapesDecode(s: seq<Byte>, i: nat, e2: Byte)
    requires i < |s| && s[i] == Backslash && IsSimpleEscape(At(s, i + 1))
    ensures Escape(s, i) == Escaped([EscapedByte(At(s, i + 1))], i + 2)
    ensures IsSimpleEscape(e2) && EscapedByte(e2) == EscapedByte(At(s, i + 1)) ==> e2 == At(s, i + 1)
    ensures EscapedByte(At(s, i + 1)) < 0x20 <==> At(s, i + 1) !in {Quote, Backslash, Slash}
  {
  }

  /** A string whose first escape is bad fails the parse with that escape's
      status and position, leaving the value alone. */
  lemma FailingFirstEscape(s: seq<Byte>, v: Value, strtod: Strtod)
    requires 1 < |s| && s[0] == Quote && s[1] == Backslash && Escape(s, 1).BadEscape?
    ensures Parse(s, v, strtod) == Parsed(Returns(Escape(s, 1).status), v, Escape(s, 1).pos)
  {
    FailingString(s, v, strtod);
  }

  /** A backslash followed by a byte that names no escape fails the string
      with INVALID_STRING_ESCAPE at that byte. */
  lemma UnknownEscape(s: seq<Byte>, v: Value, strtod: Strtod)
    requires 2 < |s| && s[0] == Quote && s[1] == Backslash && !IsSimpleEscape(s[2]) && s[2] != 'u' as int
    ensures Parse(s, v, strtod) == Parsed(Returns(InvalidStringEscape), v, 2)
  {
    assert Escape(s, 1) == BadEscape(InvalidStringEscape, 2);
    FailingFirstEscape(s, v, strtod);
  }

  lemma StringEscapeErrors(v: Value, strtod: Strtod)
    ensures Parse(Bytes("\"\\v\""), v, strtod) == Parsed(Returns(InvalidStringEscape), v, 2)
    ensures Parse(Bytes("\"\\x12\""), v, strtod) == Parsed(Returns(InvalidStringEscape), v, 2)
  {
    UnknownEscape(Bytes("\"\\v\""), v, strtod);
    UnknownEscape(Bytes("\"\\x12\""), v, strtod);
  }

  lemma StringCharErrors(v: Value, strtod: Strtod)
    ensures Parse([Quote, 0x01, Quote], v, strtod) == Parsed(Returns(InvalidStringChar), v, 1)
  {
    var a: seq<Byte> := [Quote, 0x01, Quote];
    assert DecodeLoop(a, 1, []) == DecodeError(Returns(InvalidStringChar), 1, []);
    FailingString(a, v, strtod);
  }

  lemma StringMissingQuote(v: Value, strtod: Strtod)
    ensures Parse(Bytes("\"abc"), v, strtod) == Parsed(Returns(StringMissQuote), v, 4)
  {
    var b := Bytes("\"abc");
    assert b[1] == 'a' as int && b[2] == 'b' as int && b[3] == 'c' as int;
    assert DecodeLoop(b, 4, b[1..4]) == DecodeError(Returns(StringMissQuote), 4, b[1..4]);
    assert DecodeLoop(b, 3, b[1..3]) == DecodeLoop(b, 4, b[1..4]) by { assert b[1..3] + [b[3]] == b[1..4]; }
    assert DecodeLoop(b, 2, b[1..2]) == DecodeLoop(b, 3, b[1..3]) by { assert b[1..2] + [b[2]] == b[1..3]; }
    assert DecodeLoop(b, 1, []) == DecodeLoop(b, 2, b[1..2]) by { assert [] + [b[1]] == b[1..2]; }
    FailingString(b, v, strtod);
  }

  /** A string starting with `\u` and a byte at `b`, among the four digit
      places, that is not a hex digit fails with INVALID_UNICODE_HEX at the
      first digit place. */
  lemma BadHexDigitAt(s: seq<Byte>, b: nat, v: Value, strtod: Strtod)
    requires 2 < |s| && s[0] == Quote && s[1] == Backslash && s[2] == 'u' as int
    requires 3 <= b < 7 && !IsHexDigit(At(s, b))
    ensures Parse(s, v, strtod) == Parsed(Returns(InvalidUnicodeHex), v, 3)
  {
    BadHexDigits(s, 1);
    FailingFirstEscape(s, v, strtod);
  }

  /** Fewer than four digits before the closing quote. */
  lemma ShortHexErrors(v: Value, strtod: Strtod)
    ensures Parse(Bytes("\"\\u\""), v, strtod) == Parsed(Returns(InvalidUnicodeHex), v, 3)
    ensures Parse(Bytes("\"\\u0\""), v, strtod) == Parsed(Returns(InvalidUnicodeHex), v, 3)
    ensures Parse(Bytes("\"\\u01\""), v, strtod) == Parsed(Returns(InvalidUnicodeHex), v, 3)
    ensures Parse(Bytes("\"\\u012\""), v, strtod) == Parsed(Returns(InvalidUnicodeHex), v, 3)
  {
    BadHexDigitAt(Bytes("\"\\u\""), 3, v, strtod);
    BadHexDigitAt(Bytes("\"\\u0\""), 4, v, strtod);
    BadHexDigitAt(Bytes("\"\\u01\""), 5, v, strtod);
    BadHexDigitAt(Bytes("\"\\u012\""), 6, v, strtod);
  }

  /** A `/` or a `G`, which lie just outside the digit ranges, in the first
      or second digit place. */
  lemma NonHexLeadingErrors(v: Value, strtod: Strtod)
    ensures Parse(Bytes("\"\\u/000\""), v, strtod) == Parsed(Returns(InvalidUnicodeHex), v, 3)
    ensures Parse(Bytes("\"\\uG000\""), v, strtod) == Parsed(Returns(InvalidUnicodeHex), v, 3)
    ensures Parse(Bytes("\"\\u0/00\""), v, strtod) == Parsed(Returns(InvalidUnicodeHex), v, 3)
    ensures Parse(Bytes("\"\\u0G00\""), v, strtod) == Parsed(Returns(InvalidUnicodeHex), v, 3)
  {
    BadHexDigitAt(Bytes("\"\\u/000\""), 3, v, strtod);
    BadHexDigitAt(Bytes("\"\\uG000\""), 3, v, strtod);
    BadHexDigitAt(Bytes("\"\\u0/00\""), 4, v, strtod);
    BadHexDigitAt(Bytes("\"\\u0G00\""), 4, v, strtod);
  }

  /** The same bytes in the third or fourth digit place. */
  lemma NonHexTrailingErrors(v: Value, strtod: Strtod)
    ensures Parse(Bytes("\"\\u00/0\""), v, strtod) == Parsed(Returns(InvalidUnicodeHex), v, 3)
    ensures Parse(Bytes("\"\\u00G0\""), v, strtod) == Parsed(Returns(InvalidUnicodeHex), v, 3)
    ensures Parse(Bytes("\"\\u000/\""), v, strtod) == Parsed(Returns(InvalidUnicodeHex), v, 3)
    ensures Parse(Bytes("\"\\u000G\""), v, strtod) == Parsed(Returns(InvalidUnicodeHex), v, 3)
  {
    BadHexDigitAt(Bytes("\"\\u00/0\""), 5, v, strtod);
    BadHexDigitAt(Bytes("\"\\u00G0\""), 5, v, strtod);
    BadHexDigitAt(Bytes("\"\\u000/\""), 6, v, strtod);
    BadHexDigitAt(Bytes("\"\\u000G\""), 6, v, strtod);
  }

  lemma UnpairedHighSurrogate(v: Value, strtod: Strtod)
    ensures Parse(Bytes("\"\\uD800\""), v, strtod) == Parsed(Returns(InvalidUnicodeSurrogate), v, 7)
  {
    var a := Bytes("\"\\uD800\"");
    EscapeD800(a);
    assert a[1] == Backslash;
    FailingFirstEscape(a, v, strtod);
  }

  lemma EscapeD800(a: seq<Byte>)
    requires a == Bytes("\"\\uD800\"")
    ensures Escape(a, 1) == BadEscape(InvalidUnicodeSurrogate, 7)
  {
    assert a[1] == Backslash && a[2] == 'u' as int && a[7] == Quote;
    assert Hex4(a, 3) == Some(0xD800) by {
      assert HexDigitValue(a[3]) == 0xD && HexDigitValue(a[4]) == 8;
      assert HexDigitValue(a[5]) == 0 && HexDigitValue(a[6]) == 0;
    }
  }

  lemma HighSurrogateBeforeNonSurrogate(v: Value, strtod: Strtod)
    ensures Parse(Bytes("\"\\uD800\\uE000\""), v, strtod) == Parsed(Returns(InvalidUnicodeSurrogate), v, 13)
  {
    var b := Bytes("\"\\uD800\\uE000\"");
    EscapeD800E000(b);
    assert b[1] == Backslash;
    FailingFirstEscape(b, v, strtod);
  }

  lemma EscapeD800E000(b: seq<Byte>)
    requires b == Bytes("\"\\uD800\\uE000\"")
    ensures Escape(b, 1) == BadEscape(InvalidUnicodeSurrogate, 13)
  {
    assert b[1] == Backslash && b[2] == b[8] == 'u' as int && b[7] == Backslash;
    assert Hex4(b, 3) == Some(0xD800) by {
      assert HexDigitValue(b[3]) == 0xD && HexDigitValue(b[4]) == 8;
      assert HexDigitValue(b[5]) == 0 && HexDigitValue(b[6]) == 0;
    }
    assert Hex4(b, 9) == Some(0xE000) by {
      assert HexDigitValue(b[9]) == 0xE && HexDigitValue(b[10]) == 0;
      assert HexDigitValue(b[11]) == 0 && HexDigitValue(b[12]) == 0;
    }
  }

  // ---------------------------------------------------------------- arrays and objects

  /** `r`, the array loop run with the value `v` and the elements `elems`
      staged, relates to `b`, the same loop run with nothing staged: it ends
      the same way at the same place, a success holds the staged elements
      followed by those of `b`, and a failure leaves `v` as it was. */
  ghost predicate ArrayExtends(r: Parsed, b: Parsed, v: Value, elems: seq<Value>)
  {
    r.outcome == b.outcome && r.pos == b.pos &&
    (r.Succeeded() ==> b.value.Array? && r.value == Array(elems + b.value.elems)) &&
    (!r.Succeeded() ==> r.value == v)
  }

  /** The array loop builds on what was staged before it: how it ends and
      where depend neither on the staged elements nor on the value parsed
      into, a success yields the staged elements followed, in order, by the
      elements parsed from `i` on, and a failure leaves the value alone. */
  lemma {:induction false} ArrayLoopStaged(s: seq<Byte>, i: nat, v: Value, w: Value, elems: seq<Value>, strtod: Strtod)
    requires i <= |s|
    ensures ArrayExtends(ArrayLoop(s, i, v, elems, strtod), ArrayLoop(s, i, w, [], strtod), v, elems)
    decreases |s| - i, 1
  {
    var j := SkipWs(s, i);
    ArrayLoopSkipsWs(s, i, v, elems, strtod);
    ArrayLoopSkipsWs(s, i, w, [], strtod);
    var ch := At(s, j);
    if ch == Nul || ch == RBracket {
      ArrayLoopAtEnd(s, j, v, elems, strtod);
      ArrayLoopAtEnd(s, j, w, [], strtod);
      assert [] + elems == elems;
    } else if ch == Comma {
      ArrayLoopAtComma(s, j, v, elems, strtod);
      ArrayLoopAtComma(s, j, w, [], strtod);
      ArrayLoopStaged(s, j + 1, v, w, elems, strtod);
    } else {
      ArrayLoopAtItem(s, j, v, elems, strtod);
      ArrayLoopAtItem(s, j, w, [], strtod);
      ArrayItemStaged(s, j, v, w, elems, strtod);
    }
  }

  lemma {:induction false} ArrayItemStaged(s: seq<Byte>, j: nat, v: Value, w: Value, elems: seq<Value>, strtod: Strtod)
    requires j <= |s|
    ensures ArrayExtends(ArrayItem(s, j, v, elems, strtod), ArrayItem(s, j, w, [], strtod), v, elems)
    decreases |s| - j, 0
  {
    var e := ParseValue(s, j, Null, strtod);
    if e.Succeeded() {
      var c := ArrayLoop(s, e.pos, w, [], strtod);
      assert ArrayItem(s, j, w, [], strtod) == ArrayLoop(s, e.pos, w, [] + [e.value], strtod);
      assert [] + [e.value] == [e.value];
      ArrayLoopStaged(s, e.pos, v, w, elems + [e.value], strtod);
      ArrayLoopStaged(s, e.pos, w, w, [e.value], strtod);
      ArrayExtendsCompose(ArrayLoop(s, e.pos, v, elems + [e.value], strtod),
        ArrayLoop(s, e.pos, w, [e.value], strtod), c, v, w, elems, e.value);
    }
  }

  /** Staging `x` after `elems` and then the rest of `c`, or `x` alone and
      then the rest, extend in the same way. */
  lemma ArrayExtendsCompose(r: Parsed, b: Parsed, c: Parsed, v: Value, w: Value, elems: seq<Value>, x: Value)
    requires ArrayExtends(r, c, v, elems + [x]) && ArrayExtends(b, c, w, [x])
    ensures ArrayExtends(r, b, v, elems)
  {
    if c.Succeeded() {
      assert elems + [x] + c.value.elems == elems + ([x] + c.value.elems);
    }
  }


  /** The same relation for the object loop and its members. */
  ghost predicate ObjectExtends(r: Parsed, b: Parsed, v: Value, members: seq<Member>)
  {
    r.outcome == b.outcome && r.pos == b.pos &&
    (r.Succeeded() ==> b.value.Object? && r.value == Object(members + b.value.members)) &&
    (!r.Succeeded() ==> r.value == v)
  }

  /** The same for the object loop: members are kept in the order they
      appear, a repeated key included. */
  lemma {:induction false} ObjectLoopStaged(s: seq<Byte>, i: nat, v: Value, w: Value, members: seq<Member>, strtod: Strtod)
    requires i <= |s|
    ensures ObjectExtends(ObjectLoop(s, i, v, members, strtod), ObjectLoop(s, i, w, [], strtod), v, members)
    decreases |s| - i, 1
  {
    var j := SkipWs(s, i);
    ObjectLoopSkipsWs(s, i, v, members, strtod);
    ObjectLoopSkipsWs(s, i, w, [], strtod);
    var ch := At(s, j);
    if ch == Nul || ch == RBrace {
      ObjectLoopAtEnd(s, j, v, members, strtod);
      ObjectLoopAtEnd(s, j, w, [], strtod);
      assert [] + members == members;
    } else if ch == Comma {
      ObjectLoopAtComma(s, j, v, members, strtod);
      ObjectLoopAtComma(s, j, w, [], strtod);
      ObjectLoopStaged(s, j + 1, v, w, members, strtod);
    } else {
      ObjectLoopAtItem(s, j, v, members, strtod);
      ObjectLoopAtItem(s, j, w, [], strtod);
      ObjectItemStaged(s, j, v, w, members, strtod);
    }
  }

  lemma {:induction false} ObjectItemStaged(s: seq<Byte>, j: nat, v: Value, w: Value, members: seq<Member>, strtod: Strtod)
    requires j <= |s|
    ensures ObjectExtends(ObjectItem(s, j, v, members, strtod), ObjectItem(s, j, w, [], strtod), v, members)
    decreases |s| - j, 0
  {
    var e := ParseMember(s, j, strtod);
    if e.Succeeded() {
      var c := ObjectLoop(s, e.pos, w, [], strtod);
      assert ObjectItem(s, j, w, [], strtod) == ObjectLoop(s, e.pos, w, [] + [e.member], strtod);
      assert [] + [e.member] == [e.member];
      ObjectLoopStaged(s, e.pos, v, w, members + [e.member], strtod);
      ObjectLoopStaged(s, e.pos, w, w, [e.member], strtod);
      ObjectExtendsCompose(ObjectLoop(s, e.pos, v, members + [e.member], strtod),
        ObjectLoop(s, e.pos, w, [e.member], strtod), c, v, w, members, e.member);
    }
  }

  /** Staging `x` after `members` and then the rest of `c`, or `x` alone and
      then the rest, extend in the same way. */
  lemma ObjectExtendsCompose(r: Parsed, b: Parsed, c: Parsed, v: Value, w: Value, members: seq<Member>, x: Member)
    requires ObjectExtends(r, c, v, members + [x]) && ObjectExtends(b, c, w, [x])
    ensures ObjectExtends(r, b, v, members)
  {
    if c.Succeeded() {
      assert members + [x] + c.value.members == members + ([x] + c.value.members);
    }
  }


  /** `r`, a parse into the value `v`, and `q`, the same parse into another
      value, end the same way at the same place and store the same value on
      success; a failure leaves `v` alone, except a number the conversion read
      nothing of, whose result is stored before INVALID_VALUE. */
  ghost predicate SameEnd(r: Parsed, q: Parsed, v: Value)
  {
    r.outcome == q.outcome && r.pos == q.pos &&
    (r.Succeeded() ==> r.value == q.value) &&
    (!r.Succeeded() && r.value != v ==>
       r.outcome == Returns(InvalidValue) && r.value.Number? && r.value == q.value)
  }

  /** What `lept_parse_value` does with the value it parses into: how it ends
      and where do not depend on the old value, nor does the value a success
      stores; a failure leaves the old value, but for the number case above. */
  lemma ParseValueReplacesOnSuccess(s: seq<Byte>, i: nat, v: Value, w: Value, strtod: Strtod)
    requires i <= |s|
    ensures SameEnd(ParseValue(s, i, v, strtod), ParseValue(s, i, w, strtod), v)
  {
    var ch := At(s, i);
    if ch == 'n' as int || ch == 't' as int || ch == 'f' as int {
      LiteralSameEnd(s, i, v, w, strtod);
    } else if ch == Quote || ch == Nul {
      StringSameEnd(s, i, v, w, strtod);
    } else if ch == LBracket || ch == LBrace {
      ContainerSameEnd(s, i, v, w, strtod);
    } else {
      NumberSameEnd(s, i, v, w, strtod);
    }
  }

  lemma LiteralSameEnd(s: seq<Byte>, i: nat, v: Value, w: Value, strtod: Strtod)
    requires i <= |s| && At(s, i) in {'n' as int, 't' as int, 'f' as int}
    ensures SameEnd(ParseValue(s, i, v, strtod), ParseValue(s, i, w, strtod), v)
  {
  }

  lemma StringSameEnd(s: seq<Byte>, i: nat, v: Value, w: Value, strtod: Strtod)
    requires i <= |s| && At(s, i) in {Quote, Nul}
    ensures SameEnd(ParseValue(s, i, v, strtod), ParseValue(s, i, w, strtod), v)
  {
    if At(s, i) == Quote {
      assert ParseValue(s, i, v, strtod) == ParseString(s, i, v);
      assert ParseValue(s, i, w, strtod) == ParseString(s, i, w);
    }
  }

  lemma NumberSameEnd(s: seq<Byte>, i: nat, v: Value, w: Value, strtod: Strtod)
    requires i <= |s| && At(s, i) !in {'n' as int, 't' as int, 'f' as int, Quote, Nul, LBracket, LBrace}
    ensures SameEnd(ParseValue(s, i, v, strtod), ParseValue(s, i, w, strtod), v)
  {
    NumberIgnoresValue(s, i, v, w, strtod);
  }

  lemma NumberIgnoresValue(s: seq<Byte>, i: nat, v: Value, w: Value, strtod: Strtod)
    requires i <= |s|
    ensures SameEnd(ParseNumber(s, i, v, strtod), ParseNumber(s, i, w, strtod), v)
  {
  }

  lemma ContainerSameEnd(s: seq<Byte>, i: nat, v: Value, w: Value, strtod: Strtod)
    requires i < |s| && (s[i] == LBracket || s[i] == LBrace)
    ensures SameEnd(ParseValue(s, i, v, strtod), ParseValue(s, i, w, strtod), v)
  {
    var r, q := ParseValue(s, i, v, strtod), ParseValue(s, i, w, strtod);
    if s[i] == LBracket {
      assert r == ParseArray(s, i, v, strtod) && q == ParseArray(s, i, w, strtod);
      ArrayLoopStaged(s, i + 1, v, w, [], strtod);
      if q.Succeeded() {
        assert [] + q.value.elems == q.value.elems;
      }
    } else {
      assert r == ParseObject(s, i, v, strtod) && q == ParseObject(s, i, w, strtod);
      ObjectLoopStaged(s, i + 1, v, w, [], strtod);
      if q.Succeeded() {
        assert [] + q.value.members == q.value.members;
      }
    }
  }

  /** So the result of `lept_parse` does not depend on what the value held
      before, except through the values it leaves on failure. */
  lemma ParseIgnoresOldValue(s: seq<Byte>, v: Value, w: Value, strtod: Strtod)
    ensures var r, q := Parse(s, v, strtod), Parse(s, w, strtod);
      r.outcome == q.outcome && r.pos == q.pos && (r.Succeeded() ==> r.value == q.value)
  {
    ParseValueReplacesOnSuccess(s, SkipWs(s, 0), v, w, strtod);
  }

  /** A text that is one array, ending with its closing bracket, parses to it. */
  lemma WholeArray(s: seq<Byte>, v: Value, r: Value, strtod: Strtod)
    requires 0 < |s| && s[0] == LBracket
    requires ArrayLoop(s, 1, v, [], strtod) == Parsed(Returns(Ok), r, |s|)
    ensures Parse(s, v, strtod) == Parsed(Returns(Ok), r, |s|)
  {
    assert SkipWs(s, 0) == 0 && SkipWs(s, |s|) == |s|;
    assert ParseValue(s, 0, v, strtod) == ParseArray(s, 0, v, strtod);
  }

  /** A key with no colon after it is OBJECT_MISSING_VALUE, with the cursor
      one past the byte that stood in the colon's place. */
  lemma MissingColon(v: Value, strtod: Strtod)
    ensures Parse(Bytes("{\"a\"}"), v, strtod) == Parsed(Returns(ObjectMissingValue), v, 5)
  {
    var s := Bytes("{\"a\"}");
    MissingColonMember(s, strtod);
    FailingFirstMember(s, v, strtod);
  }

  lemma MissingColonMember(s: seq<Byte>, strtod: Strtod)
    requires s == Bytes("{\"a\"}")
    ensures ParseMember(s, 1, strtod) == MemberParsed(Returns(ObjectMissingValue), Member([s[2]], Null), 5)
  {
    assert s[1] == Quote && s[2] == 'a' as int && s[3] == Quote && s[4] == RBrace;
    assert DecodeLoop(s, 3, [s[2]]) == Decoded([s[2]], 4);
    assert [] + [s[2]] == [s[2]];
    assert RawString(s, 1) == Decoded([s[2]], 4);
    assert SkipWs(s, 4) == 4;
  }

  /** No whitespace is skipped after the colon, so a space there is read as a
      number that fails the grammar check. */
  lemma SpaceAfterColon(v: Value, strtod: Strtod)
    ensures Parse(Bytes("{\"a\": null}"), v, strtod) == Parsed(Returns(InvalidValue), v, 5)
  {
    var s := Bytes("{\"a\": null}");
    SpaceAfterColonMember(s, strtod);
    FailingFirstMember(s, v, strtod);
  }

  lemma SpaceAfterColonMember(s: seq<Byte>, strtod: Strtod)
    requires s == Bytes("{\"a\": null}")
    ensures ParseMember(s, 1, strtod) == MemberParsed(Returns(InvalidValue), Member([s[2]], Null), 5)
  {
    assert s[1] == Quote && s[2] == 'a' as int && s[3] == Quote && s[4] == Colon && s[5] == Space;
    assert DecodeLoop(s, 3, [s[2]]) == Decoded([s[2]], 4);
    assert [] + [s[2]] == [s[2]];
    assert RawString(s, 1) == Decoded([s[2]], 4);
    assert SkipWs(s, 4) == 4;
    assert ParseValue(s, 5, Null, strtod) == Parsed(Returns(InvalidValue), Null, 5);
  }

  /** After a key, `lept_parse_member` skips whitespace and wants a colon. A
      missing colon is OBJECT_MISSING_VALUE one byte past what stood in its
      place. After the colon the value is parsed at once, with no whitespace
      skipped, into a fresh null, and the member ends as that parse does. */
  lemma MemberAfterColon(s: seq<Byte>, p: nat, key: seq<Byte>, strtod: Strtod)
    requires p <= |s|
    ensures var j, r := SkipWs(s, p), MemberAfterKey(s, p, key, strtod);
      (At(s, j) != Colon ==> r == MemberParsed(Returns(ObjectMissingValue), Member(key, Null), j + 1)) &&
      (At(s, j) == Colon ==>
        var e := ParseValue(s, j + 1, Null, strtod);
        r.outcome == e.outcome && r.pos == e.pos &&
        r.member == Member(key, if e.Succeeded() then e.value else Null))
  {
  }

  /** A member that does not start with a quote fails the assertion at the
      start of the raw string parse. */
  lemma KeyWithoutQuote(v: Value, strtod: Strtod)
    ensures Parse(Bytes("{1:2}"), v, strtod).outcome == Aborts
  {
    var s := Bytes("{1:2}");
    assert s[1] == '1' as int;
    assert ParseMember(s, 1, strtod).outcome == Aborts;
    FailingFirstMember(s, v, strtod);
  }

  /** Commas between elements are optional: `[[][]]` is an array of two
      empty arrays. */
  lemma CommasAreOptional(v: Value, strtod: Strtod)
    ensures Parse(Bytes("[[][]]"), v, strtod) == Parsed(Returns(Ok), Array([Array([]), Array([])]), 6)
  {
    var s := Bytes("[[][]]");
    EmptyArraysAt(s, strtod);
    TwoElementsWithoutComma(s, v, strtod);
    WholeArray(s, v, Array([Array([]), Array([])]), strtod);
  }

  lemma EmptyArraysAt(s: seq<Byte>, strtod: Strtod)
    requires s == Bytes("[[][]]")
    ensures ParseValue(s, 1, Null, strtod) == Parsed(Returns(Ok), Array([]), 3)
    ensures ParseValue(s, 3, Null, strtod) == Parsed(Returns(Ok), Array([]), 5)
  {
    ArrayLoopAtEnd(s, 2, Null, [], strtod);
    ArrayLoopAtEnd(s, 4, Null, [], strtod);
  }

  lemma TwoElementsWithoutComma(s: seq<Byte>, v: Value, strtod: Strtod)
    requires s == Bytes("[[][]]")
    requires ParseValue(s, 1, Null, strtod) == Parsed(Returns(Ok), Array([]), 3)
    requires ParseValue(s, 3, Null, strtod) == Parsed(Returns(Ok), Array([]), 5)
    ensures ArrayLoop(s, 1, v, [], strtod) == Parsed(Returns(Ok), Array([Array([]), Array([])]), 6)
  {
    var e := Array([]);
    ArrayLoopAtItem(s, 1, v, [], strtod);
    assert [] + [e] == [e] && [e] + [e] == [e, e];
    ArrayLoopAtItem(s, 3, v, [e], strtod);
    ArrayLoopAtEnd(s, 5, v, [e, e], strtod);
  }

  /** Stray commas are skipped. */
  lemma StrayCommaSkipped(v: Value, strtod: Strtod)
    ensures Parse(Bytes("[,]"), v, strtod) == Parsed(Returns(Ok), Array([]), 3)
  {
    var c := Bytes("[,]");
    ArrayLoopAtComma(c, 1, v, [], strtod);
    ArrayLoopAtEnd(c, 2, v, [], strtod);
    WholeArray(c, v, Array([]), strtod);
  }
}
