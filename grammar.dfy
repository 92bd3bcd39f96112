/** What each step of the parser computes, as functions of the input text and
    the cursor. Each function follows one function of the source branch for
    branch; the methods of module Parser are proved to compute the same results
    with the scratch stack, and module GrammarFacts proves what the results mean. */
module Grammar {
  import opened LeptTypes
  import opened Text
  import opened Unicode

  /** How a call ended: it returned a status code, or an `assert` of the source
      failed (the program stops there). */
  datatype Outcome = Returns(status: Status) | Aborts

  /** The result of parsing into a value `v`: how the call ended, what `v` holds
      afterwards and where the cursor stands. */
  datatype Parsed = Parsed(outcome: Outcome, value: Value, pos: nat)
  {
    predicate Succeeded()
    {
      outcome == Returns(Ok)
    }
  }

  /** The result of parsing one object member. */
  datatype MemberParsed = MemberParsed(outcome: Outcome, member: Member, pos: nat)
  {
    predicate Succeeded()
    {
      outcome == Returns(Ok)
    }
  }

  /** The result of decoding a quoted string: the decoded bytes and the cursor
      past the closing quote, or how it failed, where, and which decoded bytes
      were left on the scratch stack. */
  datatype Decoded =
    | Decoded(bytes: seq<Byte>, pos: nat)
    | DecodeError(outcome: Outcome, pos: nat, pushed: seq<Byte>)

  /** What the number conversion (`strtod`) reports for the text from the cursor
      on: the result is too large for a double, or a number and how many bytes
      it read. */
  datatype Conversion = Overflow | Converted(num: real, consumed: nat)

  /** A number conversion never reads past the end of the text it is given. */
  type Strtod = f: seq<Byte> -> Conversion | forall t :: f(t).Converted? ==> f(t).consumed <= |t|
    witness t => Overflow

  // ---------------------------------------------------------------- scanners

  /** `lept_parse_whitespace`: the cursor after the run of whitespace at `i`. */
  function SkipWs(s: seq<Byte>, i: nat): (j: nat)
    requires i <= |s|
    ensures i <= j <= |s| && !IsWs(At(s, j))
    decreases |s| - i
  {
    if IsWs(At(s, i)) then SkipWs(s, i + 1) else i
  }

  const NullLiteral: seq<Byte> := ['n' as int, 'u' as int, 'l' as int, 'l' as int]
  const TrueLiteral: seq<Byte> := ['t' as int, 'r' as int, 'u' as int, 'e' as int]
  const FalseLiteral: seq<Byte> := ['f' as int, 'a' as int, 'l' as int, 's' as int, 'e' as int]

  /** `strncmp(json, lit, strlen(lit)) == 0` for a literal without NUL bytes:
      the text at `i` starts with `lit` (the NUL after the text matches no byte
      of `lit`). */
  predicate MatchesAt(s: seq<Byte>, i: nat, lit: seq<Byte>)
    ensures i <= |s| && (forall k :: 0 <= k < |lit| ==> lit[k] != Nul) ==>
      (MatchesAt(s, i, lit) <==> forall k :: 0 <= k < |lit| ==> At(s, i + k) == lit[k])
  {
    // A byte of `lit` read through `At` is never the NUL past the end.
    assert 0 < |lit| && lit[|lit| - 1] != Nul && At(s, i + |lit| - 1) == lit[|lit| - 1] ==> i + |lit| <= |s|;
    i + |lit| <= |s| && s[i..i + |lit|] == lit
  }

  /** `lept_parse_literal`: the whole literal must be there; its first letter
      chooses the value. */
  function ParseLiteral(s: seq<Byte>, i: nat, v: Value, lit: seq<Byte>): (r: Parsed)
    requires i <= |s|
    requires forall k :: 0 <= k < |lit| ==> lit[k] != Nul
    ensures r.Succeeded() ==> MatchesAt(s, i, lit) && r.pos == i + |lit| <= |s|
    ensures !r.Succeeded() ==> r.value == v && r.pos <= |s|
    ensures !MatchesAt(s, i, lit) ==> r == Parsed(Returns(InvalidValue), v, i)
    ensures lit in {NullLiteral, TrueLiteral, FalseLiteral} ==> (r.Succeeded() <==> MatchesAt(s, i, lit))
    ensures lit == NullLiteral && r.Succeeded() ==> r.value == Null
    ensures lit == TrueLiteral && r.Succeeded() ==> r.value == True
    ensures lit == FalseLiteral && r.Succeeded() ==> r.value == False
  {
    if !MatchesAt(s, i, lit) then
      Parsed(Returns(InvalidValue), v, i)
    else
      var first := if |lit| > 0 then lit[0] else Nul;
      if first == 'n' as int then Parsed(Returns(Ok), Null, i + |lit|)
      else if first == 't' as int then Parsed(Returns(Ok), True, i + |lit|)
      else if first == 'f' as int then Parsed(Returns(Ok), False, i + |lit|)
      else Parsed(Returns(InvalidValue), v, i + |lit|)
  }

  /** The scan of `lept_parse_number` for a decimal point: the first `.` or the
      end of the text, from `i` on. */
  function FirstDotOrEnd(s: seq<Byte>, i: nat): (d: nat)
    requires i <= |s|
    ensures i <= d <= |s| && (At(s, d) == Dot || At(s, d) == Nul)
    decreases |s| - i
  {
    if At(s, i) == Nul || At(s, i) == Dot then i else FirstDotOrEnd(s, i + 1)
  }

  /** The grammar check `lept_parse_number` makes before converting: after an
      optional `-` comes 1-9, or a 0 not followed by a digit; and the first `.`
      in the rest of the text, if there is one, is followed by a digit. */
  predicate NumberPreCheck(s: seq<Byte>, i: nat)
    requires i <= |s|
    ensures NumberPreCheck(s, i) ==> IsDigit(At(s, i)) || (At(s, i) == Minus && IsDigit(At(s, i + 1)))
    ensures var st := if At(s, i) == Minus then i + 1 else i;
      NumberPreCheck(s, i) ==> IsDigit1To9(At(s, st)) || (At(s, st) == Zero && !IsDigit(At(s, st + 1)))
    ensures NumberPreCheck(s, i) && At(s, FirstDotOrEnd(s, i)) == Dot ==> IsDigit(At(s, FirstDotOrEnd(s, i) + 1))
    ensures var st, d := (if At(s, i) == Minus then i + 1 else i), FirstDotOrEnd(s, i);
      ((IsDigit1To9(At(s, st)) || (At(s, st) == Zero && !IsDigit(At(s, st + 1)))) &&
       (At(s, d) == Nul || IsDigit(At(s, d + 1)))) ==> NumberPreCheck(s, i)
  {
    var start := if At(s, i) == Minus then i + 1 else i;
    var check1 := IsDigit1To9(At(s, start)) || (At(s, start) == Zero && !IsDigit(At(s, start + 1)));
    var d := FirstDotOrEnd(s, i);
    var check2 := At(s, d) == Nul || IsDigit(At(s, d + 1));
    check1 && check2
  }

  /** `lept_parse_number`. */
  function ParseNumber(s: seq<Byte>, i: nat, v: Value, strtod: Strtod): (r: Parsed)
    requires i <= |s|
    ensures r.Succeeded() ==> i < r.pos <= |s|
    ensures r.pos <= |s|
  {
    if !NumberPreCheck(s, i) then Parsed(Returns(InvalidValue), v, i)
    else
      match strtod(s[i..])
      case Overflow => Parsed(Returns(NumberTooBig), v, i)
      case Converted(d, n) =>
        if n == 0 then Parsed(Returns(InvalidValue), Number(d), i)
        else Parsed(Returns(Ok), Number(d), i + n)
  }

  // ---------------------------------------------------------------- strings

  /** The eight escapes that stand for one byte. */
  predicate IsSimpleEscape(e: Byte)
  {
    e in {Quote, Backslash, Slash, 'b' as int, 'f' as int, 'n' as int, 'r' as int, 't' as int}
  }

  /** The byte a simple escape stands for. */
  function EscapedByte(e: Byte): Byte
    requires IsSimpleEscape(e)
  {
    if e == 'b' as int then 0x08
    else if e == 'f' as int then 0x0C
    else if e == 'n' as int then LineFeed
    else if e == 'r' as int then CarriageReturn
    else if e == 't' as int then Tab
    else e
  }

  /** What a `\` escape stands for: the bytes it decodes to and the cursor
      after it, or the status it fails with and the cursor at the failure. */
  datatype Escaped = Escaped(bytes: seq<Byte>, next: nat) | BadEscape(status: Status, pos: nat)

  /** The `\` case of the decoding loop of `lept_parse_raw_string`, for the
      backslash at `i`: a one-byte escape, or `\uXXXX` (with a second `\uXXXX`
      after a high surrogate) giving the UTF-8 bytes of the code point. */
  function Escape(s: seq<Byte>, i: nat): (r: Escaped)
    requires i < |s| && s[i] == Backslash
    ensures r.Escaped? ==> i < r.next <= |s|
    ensures r.BadEscape? ==> r.pos <= |s| && r.status != Ok
    ensures At(s, i + 1) == 'u' as int && Hex4(s, i + 2).None? ==> r == BadEscape(InvalidUnicodeHex, i + 2)
    ensures !IsSimpleEscape(At(s, i + 1)) && At(s, i + 1) != 'u' as int ==> r == BadEscape(InvalidStringEscape, i + 1)
  {
    var e := At(s, i + 1);
    if IsSimpleEscape(e) then
      Escaped([EscapedByte(e)], i + 2)
    else if e == 'u' as int then
      match Hex4(s, i + 2)
      case None => BadEscape(InvalidUnicodeHex, i + 2)
      case Some(h) =>
        if IsHighSurrogate(h) then
          if At(s, i + 6) != Backslash || At(s, i + 7) != 'u' as int then
            BadEscape(InvalidUnicodeSurrogate, i + 6)
          else
            match Hex4(s, i + 8)
            case None => BadEscape(InvalidUnicodeHex, i + 8)
            case Some(l) =>
              if !IsLowSurrogate(l) then BadEscape(InvalidUnicodeSurrogate, i + 12)
              else Escaped(Utf8(CombineSurrogates(h, l)), i + 12)
        else
          Escaped(Utf8(h), i + 6)
    else
      BadEscape(InvalidStringEscape, i + 1)
  }

  /** The decoding loop of `lept_parse_raw_string`, with the cursor at `i` and
      `acc` the bytes decoded so far (all of them on the scratch stack). An
      unknown escape or a control byte pops them; the other errors leave them. */
  function DecodeLoop(s: seq<Byte>, i: nat, acc: seq<Byte>): (r: Decoded)
    requires i <= |s|
    ensures r.pos <= |s|
    ensures r.Decoded? ==> i < r.pos
    ensures r.DecodeError? ==> r.outcome != Returns(Ok)
    decreases |s| - i
  {
    var ch := At(s, i);
    if ch == Quote then
      Decoded(acc, i + 1)
    else if ch == Backslash then
      match Escape(s, i)
      case Escaped(bytes, next) => DecodeLoop(s, next, acc + bytes)
      case BadEscape(status, p) =>
        DecodeError(Returns(status), p, if status == InvalidStringEscape then [] else acc)
    else if ch == Nul then
      DecodeError(Returns(StringMissQuote), i, acc)
    else if ch < 0x20 then
      DecodeError(Returns(InvalidStringChar), i, [])
    else
      DecodeLoop(s, i + 1, acc + [ch])
  }

  /** `lept_parse_raw_string`: a quoted string at `i`, decoded; a cursor not on
      a quote fails the `EXPECT` assertion. */
  function RawString(s: seq<Byte>, i: nat): (r: Decoded)
    requires i <= |s|
    ensures r.pos <= |s|
    ensures r.Decoded? ==> i < r.pos
    ensures r.DecodeError? ==> r.outcome != Returns(Ok)
  {
    if At(s, i) != Quote then DecodeError(Aborts, i, []) else DecodeLoop(s, i + 1, [])
  }

  /** `lept_parse_string`. */
  function ParseString(s: seq<Byte>, i: nat, v: Value): (r: Parsed)
    requires i <= |s|
    ensures r.pos <= |s|
    ensures r.Succeeded() ==> i < r.pos
  {
    match RawString(s, i)
    case Decoded(bytes, p) => Parsed(Returns(Ok), String(bytes), p)
    case DecodeError(out, p, _) => Parsed(out, v, p)
  }

  // ---------------------------------------------------------------- values

  /** `lept_parse_value`: dispatch on the byte under the cursor. */
  function ParseValue(s: seq<Byte>, i: nat, v: Value, strtod: Strtod): (r: Parsed)
    requires i <= |s|
    ensures r.pos <= |s| + 1
    ensures r.Succeeded() ==> i < r.pos <= |s|
    decreases |s| - i, 1
  {
    var ch := At(s, i);
    if ch == 'n' as int then ParseLiteral(s, i, v, NullLiteral)
    else if ch == 't' as int then ParseLiteral(s, i, v, TrueLiteral)
    else if ch == 'f' as int then ParseLiteral(s, i, v, FalseLiteral)
    else if ch == Quote then ParseString(s, i, v)
    else if ch == LBracket then ParseArray(s, i, v, strtod)
    else if ch == LBrace then ParseObject(s, i, v, strtod)
    else if ch == Nul then Parsed(Returns(ExpectValue), v, i)
    else ParseNumber(s, i, v, strtod)
  }

  /** `lept_parse_array`, from the `[` at `i`. */
  function ParseArray(s: seq<Byte>, i: nat, v: Value, strtod: Strtod): (r: Parsed)
    requires i < |s| && s[i] == LBracket
    ensures r.pos <= |s| + 1
    ensures r.Succeeded() ==> i < r.pos <= |s|
    decreases |s| - i, 0
  {
    ArrayLoop(s, i + 1, v, [], strtod)
  }

  /** The loop of `lept_parse_array` with the cursor at `i` and `elems` the
      elements staged so far. */
  function ArrayLoop(s: seq<Byte>, i: nat, v: Value, elems: seq<Value>, strtod: Strtod): (r: Parsed)
    requires i <= |s|
    ensures r.pos <= |s| + 1
    ensures r.Succeeded() ==> i < r.pos <= |s|
    decreases |s| - i, 3
  {
    var j := SkipWs(s, i);
    var ch := At(s, j);
    if ch == Nul then Parsed(Returns(IncompleteArray), v, j)
    else if ch == RBracket then Parsed(Returns(Ok), Array(elems), j + 1)
    else if ch == Comma then ArrayLoop(s, j + 1, v, elems, strtod)
    else ArrayItem(s, j, v, elems, strtod)
  }

  /** The `default` case of the array loop at `j`: an element is parsed into a
      fresh null value and staged, and the loop goes on after it. */
  function ArrayItem(s: seq<Byte>, j: nat, v: Value, elems: seq<Value>, strtod: Strtod): (r: Parsed)
    requires j <= |s|
    ensures r.pos <= |s| + 1
    ensures r.Succeeded() ==> j < r.pos <= |s|
    decreases |s| - j, 2
  {
    var e := ParseValue(s, j, Null, strtod);
    if !e.Succeeded() then Parsed(e.outcome, v, e.pos)
    else ArrayLoop(s, e.pos, v, elems + [e.value], strtod)
  }

  /** `lept_parse_member`: a key, optional whitespace, `:` and (with no
      whitespace skipped) a value. */
  function ParseMember(s: seq<Byte>, i: nat, strtod: Strtod): (r: MemberParsed)
    requires i <= |s|
    ensures r.pos <= |s| + 1
    ensures r.Succeeded() ==> i < r.pos <= |s|
    decreases |s| - i, 1
  {
    match RawString(s, i)
    case DecodeError(out, p, _) => MemberParsed(out, Member([], Null), p)
    case Decoded(key, p) => MemberAfterKey(s, p, key, strtod)
  }

  /** The part of `lept_parse_member` after the key `key`, with the cursor at
      `p` just past its closing quote. A missing colon is reported with the
      cursor one past the byte found instead. */
  function MemberAfterKey(s: seq<Byte>, p: nat, key: seq<Byte>, strtod: Strtod): (r: MemberParsed)
    requires p <= |s|
    ensures r.pos <= |s| + 1
    ensures r.Succeeded() ==> p < r.pos <= |s|
    ensures r.member.key == key
    ensures At(s, SkipWs(s, p)) != Colon ==>
      r == MemberParsed(Returns(ObjectMissingValue), Member(key, Null), SkipWs(s, p) + 1)
    decreases |s| - p, 0
  {
    var j := SkipWs(s, p);
    if At(s, j) != Colon then
      MemberParsed(Returns(ObjectMissingValue), Member(key, Null), j + 1)
    else
      var e := ParseValue(s, j + 1, Null, strtod);
      if !e.Succeeded() then MemberParsed(e.outcome, Member(key, Null), e.pos)
      else MemberParsed(Returns(Ok), Member(key, e.value), e.pos)
  }

  /** `lept_parse_object`, from the `{` at `i`. */
  function ParseObject(s: seq<Byte>, i: nat, v: Value, strtod: Strtod): (r: Parsed)
    requires i < |s| && s[i] == LBrace
    ensures r.pos <= |s| + 1
    ensures r.Succeeded() ==> i < r.pos <= |s|
    decreases |s| - i, 0
  {
    ObjectLoop(s, i + 1, v, [], strtod)
  }

  /** The loop of `lept_parse_object` with the cursor at `i` and `members` the
      members staged so far. */
  function ObjectLoop(s: seq<Byte>, i: nat, v: Value, members: seq<Member>, strtod: Strtod): (r: Parsed)
    requires i <= |s|
    ensures r.pos <= |s| + 1
    ensures r.Succeeded() ==> i < r.pos <= |s|
    decreases |s| - i, 3
  {
    var j := SkipWs(s, i);
    var ch := At(s, j);
    if ch == Nul then Parsed(Returns(IncompleteObject), v, j)
    else if ch == Comma then ObjectLoop(s, j + 1, v, members, strtod)
    else if ch == RBrace then Parsed(Returns(Ok), Object(members), j + 1)
    else ObjectItem(s, j, v, members, strtod)
  }

  /** The `default` case of the object loop at `j`: a member is parsed and
      staged, and the loop goes on after it. */
  function ObjectItem(s: seq<Byte>, j: nat, v: Value, members: seq<Member>, strtod: Strtod): (r: Parsed)
    requires j <= |s|
    ensures r.pos <= |s| + 1
    ensures r.Succeeded() ==> j < r.pos <= |s|
    decreases |s| - j, 2
  {
    var m := ParseMember(s, j, strtod);
    if !m.Succeeded() then Parsed(m.outcome, v, m.pos)
    else ObjectLoop(s, m.pos, v, members + [m.member], strtod)
  }

  /** Whitespace before the next element is skipped by the array loop itself,
      so starting the loop after it changes nothing. */
  lemma ArrayLoopSkipsWs(s: seq<Byte>, i: nat, v: Value, elems: seq<Value>, strtod: Strtod)
    requires i <= |s|
    ensures ArrayLoop(s, i, v, elems, strtod) == ArrayLoop(s, SkipWs(s, i), v, elems, strtod)
  {
    var j := SkipWs(s, i);
    assert SkipWs(s, j) == j;
  }

  /** Whitespace before the next member is skipped by the object loop itself. */
  lemma ObjectLoopSkipsWs(s: seq<Byte>, i: nat, v: Value, members: seq<Member>, strtod: Strtod)
    requires i <= |s|
    ensures ObjectLoop(s, i, v, members, strtod) == ObjectLoop(s, SkipWs(s, i), v, members, strtod)
  {
    var j := SkipWs(s, i);
    assert SkipWs(s, j) == j;
  }

  /** The array loop at a cursor past whitespace, on the end of the text or
      the closing bracket, ends there. */
  lemma ArrayLoopAtEnd(s: seq<Byte>, i: nat, v: Value, elems: seq<Value>, strtod: Strtod)
    requires i <= |s| && !IsWs(At(s, i))
    ensures At(s, i) == Nul ==> ArrayLoop(s, i, v, elems, strtod) == Parsed(Returns(IncompleteArray), v, i)
    ensures At(s, i) == RBracket ==> ArrayLoop(s, i, v, elems, strtod) == Parsed(Returns(Ok), Array(elems), i + 1)
  {
    assert SkipWs(s, i) == i;
  }

  /** The array loop at a comma goes on after it. */
  lemma ArrayLoopAtComma(s: seq<Byte>, i: nat, v: Value, elems: seq<Value>, strtod: Strtod)
    requires i < |s| && s[i] == Comma
    ensures ArrayLoop(s, i, v, elems, strtod) == ArrayLoop(s, i + 1, v, elems, strtod)
  {
    assert SkipWs(s, i) == i;
  }

  /** The array loop at any other byte past whitespace parses an element. */
  lemma ArrayLoopAtItem(s: seq<Byte>, i: nat, v: Value, elems: seq<Value>, strtod: Strtod)
    requires i <= |s| && !IsWs(At(s, i)) && At(s, i) != Nul && At(s, i) != RBracket && At(s, i) != Comma
    ensures ArrayLoop(s, i, v, elems, strtod) == ArrayItem(s, i, v, elems, strtod)
  {
    assert SkipWs(s, i) == i;
  }

  /** The object loop at a cursor past whitespace, on the end of the text or
      the closing brace, ends there. */
  lemma ObjectLoopAtEnd(s: seq<Byte>, i: nat, v: Value, members: seq<Member>, strtod: Strtod)
    requires i <= |s| && !IsWs(At(s, i))
    ensures At(s, i) == Nul ==> ObjectLoop(s, i, v, members, strtod) == Parsed(Returns(IncompleteObject), v, i)
    ensures At(s, i) == RBrace ==> ObjectLoop(s, i, v, members, strtod) == Parsed(Returns(Ok), Object(members), i + 1)
  {
    assert SkipWs(s, i) == i;
  }

  /** The object loop at a comma goes on after it. */
  lemma ObjectLoopAtComma(s: seq<Byte>, i: nat, v: Value, members: seq<Member>, strtod: Strtod)
    requires i < |s| && s[i] == Comma
    ensures ObjectLoop(s, i, v, members, strtod) == ObjectLoop(s, i + 1, v, members, strtod)
  {
    assert SkipWs(s, i) == i;
  }

  /** The object loop at any other byte past whitespace parses a member. */
  lemma ObjectLoopAtItem(s: seq<Byte>, i: nat, v: Value, members: seq<Member>, strtod: Strtod)
    requires i <= |s| && !IsWs(At(s, i)) && At(s, i) != Nul && At(s, i) != RBrace && At(s, i) != Comma
    ensures ObjectLoop(s, i, v, members, strtod) == ObjectItem(s, i, v, members, strtod)
  {
    assert SkipWs(s, i) == i;
  }

  /** `lept_parse`: whitespace, one value, whitespace, and then the end. */
  function Parse(s: seq<Byte>, v: Value, strtod: Strtod): (r: Parsed)
    ensures r.Succeeded() ==> r.pos == |s| || At(s, r.pos) == Nul
  {
    var e := ParseValue(s, SkipWs(s, 0), v, strtod);
    if !e.Succeeded() then e
    else
      var j := SkipWs(s, e.pos);
      if At(s, j) != Nul then Parsed(Returns(RootNotSingular), e.value, j)
      else Parsed(Returns(Ok), e.value, j)
  }
}
