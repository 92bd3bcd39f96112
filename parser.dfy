/** The parser as the source runs it: one method per function, each moving the
    cursor of a `Context`, pushing and popping its scratch stack and writing
    the value it was handed in place. Each method is proved to end exactly as
    the function of the same name in module Grammar says (how it ends, what the
    value holds, where the cursor stands), and states what it leaves on the
    scratch stack: nothing on success, never less than it found. */
module Parser {
  import opened LeptTypes
  import opened Text
  import opened Unicode
  import opened Scratch
  import Access
  import G = Grammar

  /** `lept_parse_whitespace`. */
  method ParseWhitespace(c: Context)
    requires c.Valid() && c.pos <= |c.input|
    modifies c`pos
    ensures c.Valid() && c.pos == G.SkipWs(c.input, old(c.pos))
  {
    ghost var p0 := c.pos;
    var p := c.pos;
    while IsWs(At(c.input, p))
      invariant p0 <= p <= |c.input|
      invariant G.SkipWs(c.input, p) == G.SkipWs(c.input, p0)
      decreases |c.input| - p
    {
      p := p + 1;
    }
    c.pos := p;
  }

  /** `lept_parse_literal`: on a match the cursor moves past the literal and
      the value takes the type its first letter names; otherwise nothing changes. */
  method ParseLiteral(c: Context, v: Access.ValueCell, lit: seq<Byte>) returns (out: G.Outcome)
    requires c.Valid() && c.pos <= |c.input|
    requires forall k :: 0 <= k < |lit| ==> lit[k] != Nul
    modifies c`pos, v
    ensures c.Valid()
    ensures var r := G.ParseLiteral(c.input, old(c.pos), old(v.val), lit);
      out == r.outcome && v.val == r.value && c.pos == r.pos
  {
    var len := |lit|;
    if !G.MatchesAt(c.input, c.pos, lit) {
      return G.Returns(InvalidValue);
    }
    c.pos := c.pos + len;
    var first := if len > 0 then lit[0] else Nul;
    if first == 'n' as int {
      v.val := Null;
    } else if first == 't' as int {
      v.val := True;
    } else if first == 'f' as int {
      v.val := False;
    } else {
      return G.Returns(InvalidValue);
    }
    out := G.Returns(Ok);
  }

  /** `lept_parse_hex4`: four hexadecimal digits, accumulated left to right;
      the cursor moves past them only when all four are digits. */
  method ParseHex4(c: Context) returns (ok: bool, u: nat)
    requires c.Valid() && c.pos <= |c.input|
    modifies c`pos
    ensures c.Valid()
    ensures var r := Hex4(c.input, old(c.pos));
      ok == r.Some? && (ok ==> u == r.value && c.pos == old(c.pos) + 4) && (!ok ==> c.pos == old(c.pos))
  {
    u := 0;
    var k := 0;
    while k < 4
      invariant 0 <= k <= 4
      invariant forall q :: c.pos <= q < c.pos + k ==> IsHexDigit(At(c.input, q))
      invariant u == HexPrefix(c.input, c.pos, k)
    {
      var ch := At(c.input, c.pos + k);
      var j: nat;
      if IsDigit(ch) {
        j := ch - '0' as int;
      } else if 'a' as int <= ch <= 'f' as int {
        j := 10 + ch - 'a' as int;
      } else if 'A' as int <= ch <= 'F' as int {
        j := 10 + ch - 'A' as int;
      } else {
        return false, u;
      }
      u := u * 16 + j;
      k := k + 1;
    }
    HexPrefixIsHex4(c.input, c.pos);
    c.pos := c.pos + 4;
    ok := true;
  }

  /** `lept_encode_utf8`: pushes the UTF-8 bytes of `u` and returns how many. */
  method EncodeUtf8(c: Context, u: nat) returns (n: nat)
    requires c.Valid() && u <= 0x10FFFF
    modifies c, c.stack
    ensures c.Valid() && (c.stack == old(c.stack) || fresh(c.stack)) && c.pos == old(c.pos)
    ensures c.Contents() == old(c.Contents()) + Chars(Utf8(u)) && n == |Utf8(u)|
  {
    var bytes: seq<Byte>;
    if u <= 0x7F {
      bytes := [u];
    } else if u <= 0x7FF {
      bytes := [0xC0 + (u / 0x40) % 0x20, 0x80 + u % 0x40];
    } else if u <= 0xFFFF {
      bytes := [0xE0 + (u / 0x1000) % 0x10, 0x80 + (u / 0x40) % 0x40, 0x80 + u % 0x40];
    } else {
      bytes := [0xF0 + (u / 0x40000) % 0x08, 0x80 + (u / 0x1000) % 0x40,
                0x80 + (u / 0x40) % 0x40, 0x80 + u % 0x40];
    }
    assert bytes == Utf8(u);
    ghost var entry := c.Contents();
    var k := 0;
    while k < |bytes|
      invariant 0 <= k <= |bytes|
      invariant c.Valid() && (c.stack == old(c.stack) || fresh(c.stack)) && c.pos == old(c.pos)
      invariant c.Contents() == entry + Chars(bytes[..k])
    {
      var _ := c.PushChar(bytes[k]);
      StagingAppends(bytes[..k], [bytes[k]], [], Null, [], Member([], Null));
      assert bytes[..k + 1] == bytes[..k] + [bytes[k]];
      k := k + 1;
    }
    assert bytes[..k] == bytes;
    n := |bytes|;
  }

  /** `lept_parse_number`: the grammar check, the conversion, and the value
      written as the source writes it. */
  method ParseNumber(c: Context, v: Access.ValueCell, strtod: G.Strtod) returns (out: G.Outcome)
    requires c.Valid() && c.pos <= |c.input|
    modifies c`pos, v
    ensures c.Valid()
    ensures var r := G.ParseNumber(c.input, old(c.pos), old(v.val), strtod);
      out == r.outcome && v.val == r.value && c.pos == r.pos
  {
    var s, i := c.input, c.pos;
    var start := if At(s, i) == Minus then i + 1 else i;
    var check1 := IsDigit1To9(At(s, start)) || (At(s, start) == Zero && !IsDigit(At(s, start + 1)));
    var check2 := true;
    var d := i;
    while At(s, d) != Nul && At(s, d) != Dot
      invariant i <= d <= |s|
      invariant G.FirstDotOrEnd(s, d) == G.FirstDotOrEnd(s, i)
      decreases |s| - d
    {
      d := d + 1;
    }
    if At(s, d) != Nul && !IsDigit(At(s, d + 1)) {
      check2 := false;
    }
    if !check1 || !check2 {
      return G.Returns(InvalidValue);
    }
    match strtod(s[i..])
    case Overflow =>
      return G.Returns(NumberTooBig);
    case Converted(x, n) =>
      v.SetNumber(x);
      if n == 0 {
        return G.Returns(InvalidValue);
      }
      c.pos := i + n;
      out := G.Returns(Ok);
  }

  /** The `\` case of `lept_parse_raw_string`, with `len` bytes of the string
      already pushed: pushes what the escape stands for and moves past it, or
      fails; an unknown escape pops the `len` bytes first. */
  method ParseEscape(c: Context, len: nat) returns (status: Status, n: nat)
    requires c.Valid() && c.pos < |c.input| && c.input[c.pos] == Backslash && len <= c.top
    modifies c, c.stack
    ensures c.Valid() && (c.stack == old(c.stack) || fresh(c.stack))
    ensures var r := G.Escape(c.input, old(c.pos));
      (r.Escaped? ==> status == Ok && c.pos == r.next && n == |r.bytes|
                      && c.Contents() == old(c.Contents()) + Chars(r.bytes)) &&
      (r.BadEscape? ==> status == r.status && c.pos == r.pos &&
                        c.Contents() == if status == InvalidStringEscape
                                        then old(c.Contents())[..old(c.top) - len]
                                        else old(c.Contents()))
  {
    c.pos := c.pos + 1;
    var e := At(c.input, c.pos);
    if G.IsSimpleEscape(e) {
      var _ := c.PushChar(G.EscapedByte(e));
      c.pos := c.pos + 1;
      return Ok, 1;
    } else if e == 'u' as int {
      c.pos := c.pos + 1;
      status, n := ParseUnicodeEscape(c, old(c.pos));
    } else {
      var _ := c.Pop(len);
      return InvalidStringEscape, 0;
    }
  }

  /** The `\u` case of the decoding loop, with the cursor just past the `u`
      of the escape at `i`: four hex digits, a second `\u` and four more after
      a high surrogate, and the UTF-8 bytes of the code point pushed. A failure
      pushes nothing. */
  method ParseUnicodeEscape(c: Context, ghost i: nat) returns (status: Status, n: nat)
    requires c.Valid() && i + 2 == c.pos <= |c.input|
    requires c.input[i] == Backslash && At(c.input, i + 1) == 'u' as int
    modifies c, c.stack
    ensures c.Valid() && (c.stack == old(c.stack) || fresh(c.stack))
    ensures var r := G.Escape(c.input, i);
      (r.Escaped? ==> status == Ok && c.pos == r.next && n == |r.bytes|
                      && c.Contents() == old(c.Contents()) + Chars(r.bytes)) &&
      (r.BadEscape? ==> status == r.status && c.pos == r.pos && c.Contents() == old(c.Contents()))
  {
    var ok, h := ParseHex4(c);
    if !ok {
      return InvalidUnicodeHex, 0;
    }
    var u := h;
    if IsHighSurrogate(h) {
      if At(c.input, c.pos) != Backslash || At(c.input, c.pos + 1) != 'u' as int {
        return InvalidUnicodeSurrogate, 0;
      }
      c.pos := c.pos + 2;
      var ok2, l := ParseHex4(c);
      if !ok2 {
        return InvalidUnicodeHex, 0;
      }
      if !IsLowSurrogate(l) {
        return InvalidUnicodeSurrogate, 0;
      }
      u := CombineSurrogates(h, l);
    }
    n := EncodeUtf8(c, u);
    status := Ok;
  }

  /** One turn of the decoding loop of `lept_parse_raw_string`, at a byte
      other than the closing quote, with the `len` bytes `acc` decoded so far
      stacked above `entry`. Either decoding stops (`done`, with the status and
      what stays on the stack, as the grammar's decoding loop ends) or it goes
      on as that loop would, from the new cursor with the longer `acc'`. */
  method DecodeTurn(c: Context, len: nat, ghost entry: seq<Slot>, ghost acc: seq<Byte>)
    returns (status: Status, done: bool, len': nat, ghost acc': seq<Byte>)
    requires c.Valid() && c.pos <= |c.input| && At(c.input, c.pos) != Quote
    requires len == |acc| && c.Contents() == entry + Chars(acc)
    modifies c, c.stack
    ensures c.Valid() && (c.stack == old(c.stack) || fresh(c.stack))
    ensures var r := G.DecodeLoop(c.input, old(c.pos), acc);
      done ==> r.DecodeError? && r.outcome == G.Returns(status) && r.pos == c.pos &&
               c.Contents() == entry + Chars(r.pushed)
    ensures !done ==>
      old(c.pos) < c.pos <= |c.input| && len' == |acc'| && c.Contents() == entry + Chars(acc') &&
      G.DecodeLoop(c.input, old(c.pos), acc) == G.DecodeLoop(c.input, c.pos, acc')
  {
    ghost var s := c.input;
    var ch := At(c.input, c.pos);
    if ch == Backslash {
      ghost var e := G.Escape(s, c.pos);
      var n;
      status, n := ParseEscape(c, len);
      if status != Ok {
        assert entry + Chars(acc) == c.Contents() + Chars(acc) || status != InvalidStringEscape;
        return status, true, len, acc;
      }
      StagingAppends(acc, e.bytes, [], Null, [], Member([], Null));
      return Ok, false, len + n, acc + e.bytes;
    } else if ch == Nul {
      return StringMissQuote, true, len, acc;
    } else if ch < 0x20 {
      var _ := c.Pop(len);
      return InvalidStringChar, true, len, acc;
    } else {
      var _ := c.PushChar(ch);
      StagingAppends(acc, [ch], [], Null, [], Member([], Null));
      c.pos := c.pos + 1;
      return Ok, false, len + 1, acc + [ch];
    }
  }

  /** `lept_parse_raw_string`: decodes the quoted string under the cursor onto
      the scratch stack and, at the closing quote, pops it as the result. An
      unknown escape or a control byte pops what this string pushed; the other
      errors leave it stacked. */
  method ParseRawString(c: Context) returns (out: G.Outcome, bytes: seq<Byte>)
    requires c.Valid() && c.pos <= |c.input|
    modifies c, c.stack
    ensures c.Valid() && (c.stack == old(c.stack) || fresh(c.stack))
    ensures var r := G.RawString(c.input, old(c.pos));
      c.pos == r.pos &&
      (r.Decoded? ==> out == G.Returns(Ok) && bytes == r.bytes && c.Contents() == old(c.Contents())) &&
      (r.DecodeError? ==> out == r.outcome && c.Contents() == old(c.Contents()) + Chars(r.pushed))
  {
    ghost var s, p0, entry := c.input, c.pos, c.Contents();
    if At(c.input, c.pos) != Quote {
      // the EXPECT assertion fails
      return G.Aborts, [];
    }
    c.pos := c.pos + 1;
    var len: nat := 0;
    ghost var acc: seq<Byte> := [];
    while At(c.input, c.pos) != Quote
      invariant c.Valid() && (c.stack == old(c.stack) || fresh(c.stack))
      invariant p0 < c.pos <= |s|
      invariant len == |acc| && c.Contents() == entry + Chars(acc)
      invariant G.DecodeLoop(s, c.pos, acc) == G.RawString(s, p0)
      decreases |s| - c.pos
    {
      var status, done;
      status, done, len, acc := DecodeTurn(c, len, entry, acc);
      if done {
        return G.Returns(status), [];
      }
    }
    var region := c.Pop(len);
    StagedRoundTrip(acc, [], []);
    bytes := CharsOf(region.value);
    c.pos := c.pos + 1;
    out := G.Returns(Ok);
  }

  /** `lept_parse_string`. */
  method ParseString(c: Context, v: Access.ValueCell) returns (out: G.Outcome)
    requires c.Valid() && c.pos <= |c.input|
    modifies c, c.stack, v
    ensures c.Valid() && (c.stack == old(c.stack) || fresh(c.stack))
    ensures var r := G.ParseString(c.input, old(c.pos), old(v.val));
      out == r.outcome && v.val == r.value && c.pos == r.pos
    ensures out == G.Returns(Ok) ==> c.Contents() == old(c.Contents())
    ensures old(c.Contents()) <= c.Contents()
  {
    var bytes;
    out, bytes := ParseRawString(c);
    if out != G.Returns(Ok) {
      return;
    }
    v.SetString(bytes, |bytes|);
  }

  /** `lept_set_array`: the last `cnt` staged elements become the array `v`
      holds, in the order they were staged. */
  method SetArray(v: Access.ValueCell, c: Context, cnt: nat)
    requires c.Valid() && cnt <= c.top
    modifies v, c`top
    ensures c.Valid() && c.top == old(c.top) - cnt
    ensures v.val == Array(ElemsOf(old(c.Contents())[c.top..]))
    ensures c.Contents() == old(c.Contents())[..c.top]
  {
    v.Free();
    var region := c.Pop(cnt);
    v.val := Array(ElemsOf(region.value));
  }

  /** `lept_set_object`: the last `cnt` staged members become the object `v`
      holds, in the order they were staged. */
  method SetObject(c: Context, v: Access.ValueCell, cnt: nat)
    requires c.Valid() && cnt <= c.top
    modifies v, c`top
    ensures c.Valid() && c.top == old(c.top) - cnt
    ensures v.val == Object(EntriesOf(old(c.Contents())[c.top..]))
    ensures c.Contents() == old(c.Contents())[..c.top]
  {
    v.Free();
    var region := c.Pop(cnt);
    v.val := Object(EntriesOf(region.value));
  }

  /** `lept_parse_value`. */
  method ParseValue(c: Context, v: Access.ValueCell, strtod: G.Strtod) returns (out: G.Outcome)
    requires c.Valid() && c.pos <= |c.input|
    modifies c, c.stack, v
    ensures c.Valid() && (c.stack == old(c.stack) || fresh(c.stack))
    ensures var r := G.ParseValue(c.input, old(c.pos), old(v.val), strtod);
      out == r.outcome && v.val == r.value && c.pos == r.pos
    ensures out == G.Returns(Ok) ==> c.Contents() == old(c.Contents())
    ensures old(c.Contents()) <= c.Contents()
    decreases |c.input| - c.pos, 1
  {
    var ch := At(c.input, c.pos);
    if ch == 'n' as int {
      out := ParseLiteral(c, v, G.NullLiteral);
    } else if ch == 't' as int {
      out := ParseLiteral(c, v, G.TrueLiteral);
    } else if ch == 'f' as int {
      out := ParseLiteral(c, v, G.FalseLiteral);
    } else if ch == Quote {
      out := ParseString(c, v);
    } else if ch == LBracket {
      out := ParseArray(c, v, strtod);
    } else if ch == LBrace {
      out := ParseObject(c, v, strtod);
    } else if ch == Nul {
      out := G.Returns(ExpectValue);
    } else {
      out := ParseNumber(c, v, strtod);
    }
  }

  /** An array element, parsed into a freshly initialised value
      (`lept_init` and then `lept_parse_value` on a local value). */
  method ParseElement(c: Context, strtod: G.Strtod) returns (out: G.Outcome, elem: Value)
    requires c.Valid() && c.pos <= |c.input|
    modifies c, c.stack
    ensures c.Valid() && (c.stack == old(c.stack) || fresh(c.stack))
    ensures var r := G.ParseValue(c.input, old(c.pos), Null, strtod);
      out == r.outcome && elem == r.value && c.pos == r.pos
    ensures out == G.Returns(Ok) ==> c.Contents() == old(c.Contents())
    ensures old(c.Contents()) <= c.Contents()
    decreases |c.input| - c.pos, 2
  {
    var tmp := new Access.ValueCell();
    tmp.Init();
    out := ParseValue(c, tmp, strtod);
    elem := tmp.val;
  }

  /** The `default` case of the loop of `lept_parse_array`, with `elems`
      staged above `entry` so far: parses an element into a freshly
      initialised value and, on success, stages it and skips the whitespace
      after it. Stated as the turn of the grammar's array loop it performs. */
  method StageElement(c: Context, strtod: G.Strtod, ghost v0: Value, ghost entry: seq<Slot>, ghost elems: seq<Value>)
    returns (out: G.Outcome, ghost elem: Value)
    requires c.Valid() && c.pos <= |c.input| && c.Contents() == entry + Elems(elems)
    modifies c, c.stack
    ensures c.Valid() && (c.stack == old(c.stack) || fresh(c.stack))
    ensures out == G.Returns(Ok) ==>
      old(c.pos) < c.pos <= |c.input| && !IsWs(At(c.input, c.pos)) &&
      G.ArrayItem(c.input, old(c.pos), v0, elems, strtod) == G.ArrayLoop(c.input, c.pos, v0, elems + [elem], strtod) &&
      c.Contents() == entry + Elems(elems + [elem])
    ensures out != G.Returns(Ok) ==>
      G.ArrayItem(c.input, old(c.pos), v0, elems, strtod) == G.Parsed(out, v0, c.pos) && entry <= c.Contents()
    decreases |c.input| - c.pos, 3
  {
    ghost var i := c.pos;
    var e;
    out, e := ParseElement(c, strtod);
    elem := e;
    if out != G.Returns(Ok) {
      assert G.ArrayItem(c.input, i, v0, elems, strtod) == G.Parsed(out, v0, c.pos);
      return;
    }
    assert G.ArrayItem(c.input, i, v0, elems, strtod) == G.ArrayLoop(c.input, c.pos, v0, elems + [elem], strtod);
    StageElem(c, e, entry, elems);
    G.ArrayLoopSkipsWs(c.input, c.pos, v0, elems + [elem], strtod);
    ParseWhitespace(c);
  }

  /** A comma in an array: the cursor steps over it and the whitespace after it,
      and the loop goes on as it would have from the comma. */
  method ArrayComma(c: Context, strtod: G.Strtod, ghost v0: Value, ghost elems: seq<Value>)
    requires c.Valid() && c.pos < |c.input| && c.input[c.pos] == Comma
    modifies c`pos
    ensures c.Valid() && old(c.pos) < c.pos <= |c.input| && !IsWs(At(c.input, c.pos))
    ensures G.ArrayLoop(c.input, old(c.pos), v0, elems, strtod) == G.ArrayLoop(c.input, c.pos, v0, elems, strtod)
  {
    G.ArrayLoopAtComma(c.input, c.pos, v0, elems, strtod);
    c.pos := c.pos + 1;
    G.ArrayLoopSkipsWs(c.input, c.pos, v0, elems, strtod);
    ParseWhitespace(c);
  }

  /** One turn of the loop of `lept_parse_array`, at a byte past whitespace
      that is not `]`: the end of the text fails, a comma is stepped over
      together with the whitespace after it, and anything else is an element.
      Either the loop ends (`done`, with how the array ends) or it goes on as
      the array loop of the grammar would from the new cursor, with `added`
      more elements staged above `entry`. */
  method ArrayTurn(c: Context, strtod: G.Strtod, ghost v0: Value, ghost entry: seq<Slot>, ghost elems: seq<Value>)
    returns (out: G.Outcome, done: bool, added: nat, ghost elems': seq<Value>)
    requires c.Valid() && c.pos <= |c.input| && !IsWs(At(c.input, c.pos)) && At(c.input, c.pos) != RBracket
    requires c.Contents() == entry + Elems(elems)
    modifies c, c.stack
    ensures c.Valid() && (c.stack == old(c.stack) || fresh(c.stack))
    ensures done ==>
      out != G.Returns(Ok) && entry <= c.Contents() &&
      G.ArrayLoop(c.input, old(c.pos), v0, elems, strtod) == G.Parsed(out, v0, c.pos)
    ensures !done ==>
      old(c.pos) < c.pos <= |c.input| && !IsWs(At(c.input, c.pos)) &&
      G.ArrayLoop(c.input, old(c.pos), v0, elems, strtod) == G.ArrayLoop(c.input, c.pos, v0, elems', strtod) &&
      |elems'| == |elems| + added && c.Contents() == entry + Elems(elems')
    decreases |c.input| - c.pos, 4
  {
    ghost var s, i := c.input, c.pos;
    var ch := At(c.input, c.pos);
    if ch == Nul {
      G.ArrayLoopAtEnd(s, i, v0, elems, strtod);
      return G.Returns(IncompleteArray), true, 0, elems;
    } else if ch == Comma {
      ArrayComma(c, strtod, v0, elems);
      return G.Returns(Ok), false, 0, elems;
    }
    G.ArrayLoopAtItem(s, i, v0, elems, strtod);
    ghost var elem;
    out, elem := StageElement(c, strtod, v0, entry, elems);
    if out != G.Returns(Ok) {
      return out, true, 0, elems;
    }
    return out, false, 1, elems + [elem];
  }

  /** `lept_parse_array`: elements are parsed and staged on the scratch stack
      until the closing bracket, where they are popped into `v`. */
  method ParseArray(c: Context, v: Access.ValueCell, strtod: G.Strtod) returns (out: G.Outcome)
    requires c.Valid() && c.pos < |c.input| && c.input[c.pos] == LBracket
    modifies c, c.stack, v
    ensures c.Valid() && (c.stack == old(c.stack) || fresh(c.stack))
    ensures var r := G.ParseArray(c.input, old(c.pos), old(v.val), strtod);
      out == r.outcome && v.val == r.value && c.pos == r.pos
    ensures out == G.Returns(Ok) ==> c.Contents() == old(c.Contents())
    ensures old(c.Contents()) <= c.Contents()
    decreases |c.input| - c.pos, 0
  {
    ghost var s, p0, v0, entry := c.input, c.pos, v.val, c.Contents();
    ghost var target := G.ParseArray(s, p0, v0, strtod);
    c.pos := c.pos + 1;
    var cnt: nat := 0;
    ghost var elems: seq<Value> := [];
    G.ArrayLoopSkipsWs(s, c.pos, v0, elems, strtod);
    ParseWhitespace(c);
    while At(c.input, c.pos) != RBracket
      invariant c.Valid() && (c.stack == old(c.stack) || fresh(c.stack))
      invariant p0 < c.pos <= |s| && !IsWs(At(s, c.pos))
      invariant v.val == v0
      invariant cnt == |elems| && c.Contents() == entry + Elems(elems)
      invariant G.ArrayLoop(s, c.pos, v0, elems, strtod) == target
      decreases |s| - c.pos
    {
      var done, added;
      ghost var next;
      out, done, added, next := ArrayTurn(c, strtod, v0, entry, elems);
      if done {
        return;
      }
      cnt, elems := cnt + added, next;
    }
    G.ArrayLoopAtEnd(s, c.pos, v0, elems, strtod);
    SetArray(v, c, cnt);
    StagedRoundTrip([], elems, []);
    c.pos := c.pos + 1;
    out := G.Returns(Ok);
  }

  /** `lept_parse_member`: a key, then the rest of the member. */
  method ParseMember(c: Context, strtod: G.Strtod) returns (out: G.Outcome, m: Member)
    requires c.Valid() && c.pos <= |c.input|
    modifies c, c.stack
    ensures c.Valid() && (c.stack == old(c.stack) || fresh(c.stack))
    ensures var r := G.ParseMember(c.input, old(c.pos), strtod);
      out == r.outcome && m == r.member && c.pos == r.pos
    ensures out == G.Returns(Ok) ==> c.Contents() == old(c.Contents())
    ensures old(c.Contents()) <= c.Contents()
    decreases |c.input| - c.pos, 1
  {
    var key;
    out, key := ParseRawString(c);
    if out != G.Returns(Ok) {
      return out, Member([], Null);
    }
    out, m := ParseMemberValue(c, key, strtod);
  }

  /** The part of `lept_parse_member` after the key: the key is copied into
      the member, whitespace and a colon are read, and the value is parsed into
      newly allocated storage. */
  method ParseMemberValue(c: Context, key: seq<Byte>, strtod: G.Strtod) returns (out: G.Outcome, m: Member)
    requires c.Valid() && c.pos <= |c.input|
    modifies c, c.stack
    ensures c.Valid() && (c.stack == old(c.stack) || fresh(c.stack))
    ensures var r := G.MemberAfterKey(c.input, old(c.pos), key, strtod);
      out == r.outcome && m == r.member && c.pos == r.pos
    ensures out == G.Returns(Ok) ==> c.Contents() == old(c.Contents())
    ensures old(c.Contents()) <= c.Contents()
    decreases |c.input| - c.pos, 0
  {
    ghost var s, p0 := c.input, c.pos;
    m := Access.SetMemberString(Member([], Null), key, |key|);
    assert m == Member(key, Null) by {
      assert key[..|key|] == key;
    }
    ParseWhitespace(c);
    var ch := At(c.input, c.pos);
    c.pos := c.pos + 1;
    if ch != Colon {
      assert G.MemberAfterKey(s, p0, key, strtod) == G.MemberParsed(G.Returns(ObjectMissingValue), m, c.pos);
      return G.Returns(ObjectMissingValue), m;
    }
    var value := new Access.ValueCell();
    out := ParseValue(c, value, strtod);
    if out != G.Returns(Ok) {
      assert G.MemberAfterKey(s, p0, key, strtod) == G.MemberParsed(out, m, c.pos);
      return;
    }
    m := m.(value := value.val);
    assert G.MemberAfterKey(s, p0, key, strtod) == G.MemberParsed(out, m, c.pos);
  }

  /** The `default` case of the loop of `lept_parse_object`, with `members`
      staged above `entry` so far: parses a member and, on success, stages it
      and skips the whitespace after it. */
  method StageMember(c: Context, strtod: G.Strtod, ghost v0: Value, ghost entry: seq<Slot>, ghost members: seq<Member>)
    returns (out: G.Outcome, ghost member: Member)
    requires c.Valid() && c.pos <= |c.input| && c.Contents() == entry + Entries(members)
    modifies c, c.stack
    ensures c.Valid() && (c.stack == old(c.stack) || fresh(c.stack))
    ensures out == G.Returns(Ok) ==>
      old(c.pos) < c.pos <= |c.input| && !IsWs(At(c.input, c.pos)) &&
      G.ObjectItem(c.input, old(c.pos), v0, members, strtod) == G.ObjectLoop(c.input, c.pos, v0, members + [member], strtod) &&
      c.Contents() == entry + Entries(members + [member])
    ensures out != G.Returns(Ok) ==>
      G.ObjectItem(c.input, old(c.pos), v0, members, strtod) == G.Parsed(out, v0, c.pos) && entry <= c.Contents()
    decreases |c.input| - c.pos, 2
  {
    ghost var i := c.pos;
    var m;
    out, m := ParseMember(c, strtod);
    member := m;
    if out != G.Returns(Ok) {
      assert G.ObjectItem(c.input, i, v0, members, strtod) == G.Parsed(out, v0, c.pos);
      return;
    }
    assert G.ObjectItem(c.input, i, v0, members, strtod) == G.ObjectLoop(c.input, c.pos, v0, members + [member], strtod);
    StageEntry(c, m, entry, members);
    G.ObjectLoopSkipsWs(c.input, c.pos, v0, members + [member], strtod);
    ParseWhitespace(c);
  }

  /** A comma in an object: the cursor steps over it and the whitespace after it,
      and the loop goes on as it would have from the comma. */
  method ObjectComma(c: Context, strtod: G.Strtod, ghost v0: Value, ghost members: seq<Member>)
    requires c.Valid() && c.pos < |c.input| && c.input[c.pos] == Comma
    modifies c`pos
    ensures c.Valid() && old(c.pos) < c.pos <= |c.input| && !IsWs(At(c.input, c.pos))
    ensures G.ObjectLoop(c.input, old(c.pos), v0, members, strtod) == G.ObjectLoop(c.input, c.pos, v0, members, strtod)
  {
    G.ObjectLoopAtComma(c.input, c.pos, v0, members, strtod);
    c.pos := c.pos + 1;
    G.ObjectLoopSkipsWs(c.input, c.pos, v0, members, strtod);
    ParseWhitespace(c);
  }

  /** One turn of the loop of `lept_parse_object`, at a byte past whitespace
      that is not `}`: as `ArrayTurn`, with members in place of elements. */
  method ObjectTurn(c: Context, strtod: G.Strtod, ghost v0: Value, ghost entry: seq<Slot>, ghost members: seq<Member>)
    returns (out: G.Outcome, done: bool, added: nat, ghost members': seq<Member>)
    requires c.Valid() && c.pos <= |c.input| && !IsWs(At(c.input, c.pos)) && At(c.input, c.pos) != RBrace
    requires c.Contents() == entry + Entries(members)
    modifies c, c.stack
    ensures c.Valid() && (c.stack == old(c.stack) || fresh(c.stack))
    ensures done ==>
      out != G.Returns(Ok) && entry <= c.Contents() &&
      G.ObjectLoop(c.input, old(c.pos), v0, members, strtod) == G.Parsed(out, v0, c.pos)
    ensures !done ==>
      old(c.pos) < c.pos <= |c.input| && !IsWs(At(c.input, c.pos)) &&
      G.ObjectLoop(c.input, old(c.pos), v0, members, strtod) == G.ObjectLoop(c.input, c.pos, v0, members', strtod) &&
      |members'| == |members| + added && c.Contents() == entry + Entries(members')
    decreases |c.input| - c.pos, 3
  {
    ghost var s, i := c.input, c.pos;
    var ch := At(c.input, c.pos);
    if ch == Nul {
      G.ObjectLoopAtEnd(s, i, v0, members, strtod);
      return G.Returns(IncompleteObject), true, 0, members;
    } else if ch == Comma {
      ObjectComma(c, strtod, v0, members);
      return G.Returns(Ok), false, 0, members;
    }
    G.ObjectLoopAtItem(s, i, v0, members, strtod);
    ghost var member;
    out, member := StageMember(c, strtod, v0, entry, members);
    if out != G.Returns(Ok) {
      return out, true, 0, members;
    }
    return out, false, 1, members + [member];
  }

  /** `lept_parse_object`: members are parsed and staged on the scratch stack
      until the closing brace, where they are popped into `v`. */
  method ParseObject(c: Context, v: Access.ValueCell, strtod: G.Strtod) returns (out: G.Outcome)
    requires c.Valid() && c.pos < |c.input| && c.input[c.pos] == LBrace
    modifies c, c.stack, v
    ensures c.Valid() && (c.stack == old(c.stack) || fresh(c.stack))
    ensures var r := G.ParseObject(c.input, old(c.pos), old(v.val), strtod);
      out == r.outcome && v.val == r.value && c.pos == r.pos
    ensures out == G.Returns(Ok) ==> c.Contents() == old(c.Contents())
    ensures old(c.Contents()) <= c.Contents()
    decreases |c.input| - c.pos, 0
  {
    ghost var s, p0, v0, entry := c.input, c.pos, v.val, c.Contents();
    ghost var target := G.ParseObject(s, p0, v0, strtod);
    c.pos := c.pos + 1;
    var cnt: nat := 0;
    ghost var members: seq<Member> := [];
    G.ObjectLoopSkipsWs(s, c.pos, v0, members, strtod);
    ParseWhitespace(c);
    while At(c.input, c.pos) != RBrace
      invariant c.Valid() && (c.stack == old(c.stack) || fresh(c.stack))
      invariant p0 < c.pos <= |s| && !IsWs(At(s, c.pos))
      invariant v.val == v0
      invariant cnt == |members| && c.Contents() == entry + Entries(members)
      invariant G.ObjectLoop(s, c.pos, v0, members, strtod) == target
      decreases |s| - c.pos
    {
      var done, added;
      ghost var next;
      out, done, added, next := ObjectTurn(c, strtod, v0, entry, members);
      if done {
        return;
      }
      cnt, members := cnt + added, next;
    }
    G.ObjectLoopAtEnd(s, c.pos, v0, members, strtod);
    SetObject(c, v, cnt);
    StagedRoundTrip([], [], members);
    c.pos := c.pos + 1;
    out := G.Returns(Ok);
  }

  /** `lept_parse`: parses the text into `v` with a new context. */
  method Parse(v: Access.ValueCell, json: seq<Byte>, strtod: G.Strtod) returns (out: G.Outcome)
    modifies v
    ensures var r := G.Parse(json, old(v.val), strtod);
      out == r.outcome && v.val == r.value
  {
    var c := new Context(json);
    ParseWhitespace(c);
    out := ParseValue(c, v, strtod);
    if out != G.Returns(Ok) {
      return;
    }
    ParseWhitespace(c);
    if At(c.input, c.pos) != Nul {
      return G.Returns(RootNotSingular);
    }
    out := G.Returns(Ok);
  }
}
