# leptjson in Dafny

A model of leptjson, a small recursive-descent JSON parser written in C. The
model covers `lept_parse` and everything it relies on:

- the growable scratch stack of the parse context;
- whitespace, the three literals and the number grammar check;
- the string decoder with its `\uXXXX` escapes, UTF-16 surrogate pairs
  (section 2.2 of RFC 2781) and UTF-8 re-encoding (section 3 of RFC 3629);
- arrays, objects, value dispatch and the top level;
- the `lept_value` accessors and setters.

The model follows the C code, not an idealised RFC 8259 parser.

The model has three layers:

- **Pure layer** (`types.dfy`, `text.dfy`, `unicode.dfy`, `grammar.dfy`). Each
  parsing function of the C file becomes one Dafny function over the input
  bytes and a cursor. A parse gives back an outcome, the value left in the
  target, and the cursor where the C code stops. The input is a byte sequence
  read through `At`, which yields NUL past the end, as the C string's
  terminator does.
- **Imperative layer** (`scratch.dfy`, `values.dfy`, `parser.dfy`).
  - `Scratch.Context` is the parse context: the cursor, an `array` stack, `top`
    and `capacity`, with growth by half while the stack is too small.
  - `Access.ValueCell` is one `lept_value` updated in place.
  - `Parser` has one method per C function. Each method's loops and stack
    traffic follow the C code. Each is proved to end with the status, value and
    cursor of its pure counterpart. It also states what it leaves on the scratch
    stack: nothing new on success. On failure the string decoder states
    exactly the bytes it leaves pushed; the other parsing methods state only
    that the stack never holds fewer entries than they found.
- **Properties** (`facts.dfy`, module `GrammarFacts`): what the parser promises,
  proved about the pure layer. This covers the error taxonomy on concrete texts
  from the project's test file, round trips, and the order in which elements and
  members are kept.

Behaviour of the code that the model keeps on purpose:

- No whitespace is skipped after the `:` of a member, so `{"a": null}` fails
  with INVALID_VALUE.
- Commas are skipped wherever they appear in an array or object but are never
  required, so `[[][]]` and `[,]` parse.
- The decimal-point check looks at the first `.` anywhere in the rest of the
  input, even one outside the number.
- A high surrogate that is not followed by `\u` fails with
  INVALID_UNICODE_SURROGATE, as the code (`mprj/leptjson.c:266-267`) and its
  test (`mprj/test.c:200`) have it.
- A lone low surrogate is accepted and encoded as it is.
- Only an unknown escape and a raw control byte pop the string's bytes off the
  stack. The other failures leave them there.
- NUMBER_TOO_BIG leaves the value untouched. A conversion that reads nothing
  still stores the number and then fails with INVALID_VALUE.
- On ROOT_NOT_SINGULAR the target holds the root value.
- A member key that does not start with `"` hits the `EXPECT` assertion. The
  model gives that outcome as `Aborts`, which is not a status code.
- Duplicate keys are kept, in source order.

## Model

| member | source | states |
|---|---|---|
| LeptTypes.TypeOf | mprj/leptjson.h:6-19 | exactly the null, false and true values have one of the three payload-free tags |
| LeptTypes.TagCode | mprj/leptjson.h:6 | the seven tags are numbered below 7 |
| LeptTypes.Code | mprj/leptjson.h:33-47 | a status code is below 13, and it is 0 exactly for LEPT_PARSE_OK |
| LeptTypes.StatusOf | mprj/leptjson.h:33-47 | an integer names a status exactly when it lies in 0..12 |
| LeptTypes.CodesAreDistinct | mprj/leptjson.h:33-47 | the 13 status codes are pairwise distinct, and code and status numbering invert each other |
| LeptTypes.TagsAreDistinct | mprj/leptjson.h:6-19 | tags do not collide, and a payload-free value is determined by its tag alone |
| Text.HexDigitValue | mprj/leptjson.c:133-135 | a hex digit of either case has a value below 16 |
| Unicode.Hex4 | mprj/leptjson.c:126-141 | the four-digit read succeeds exactly when the four bytes at the cursor are hex digits; the digits are then inside the text and the value is below 0x10000 |
| Unicode.HexPrefixIsHex4 | mprj/leptjson.c:130-138 | the value read equals what the digit loop accumulates, multiplying by 16 and adding each digit left to right |
| Unicode.HexTextRoundTrip | mprj/leptjson.c:126-141 | reading back the four lower-case digits written for n gives n |
| Unicode.CombineSurrogates | mprj/leptjson.c:14-16 | a high and a low surrogate combine into a code point in [0x10000, 0x10FFFF] |
| Unicode.SurrogatePairRoundTrip | mprj/leptjson.c:14-16 | combining is a bijection between surrogate pairs and supplementary code points (section 2.2 of RFC 2781) |
| Unicode.Utf8 | mprj/leptjson.c:143-165 | the encoding has 1, 2, 3 or 4 bytes for code points up to 0x7F, 0x7FF, 0xFFFF and above |
| Unicode.Utf8RoundTrip | mprj/leptjson.c:143-165 | decoding the bytes as section 3 of RFC 3629 prescribes gives back the code point |
| Unicode.Utf8TwoBytes | mprj/leptjson.c:149-152 | the two-byte branch decodes back to its code point |
| Unicode.Utf8ThreeBytes | mprj/leptjson.c:153-157 | the three-byte branch decodes back to its code point |
| Unicode.Utf8FourBytes | mprj/leptjson.c:158-163 | the four-byte branch decodes back to its code point |
| Unicode.Utf8WellFormed | mprj/leptjson.c:143-165 | the first byte is the lead byte for the encoding's length, and every later byte is a continuation byte |
| Unicode.Utf8Injective | mprj/leptjson.c:143-165 | distinct code points are encoded to distinct byte sequences |
| Access.GetType | mprj/leptjson.c:466-469 | the tag read is NUMBER, STRING, ARRAY or OBJECT exactly when the value carries that payload |
| Access.GetNumber | mprj/leptjson.c:477-480 | the number read is the one the value holds: the value is that number |
| Access.GetBoolean | mprj/leptjson.c:487-491 | the boolean read is 0 or 1 |
| Access.BooleanValue | mprj/leptjson.c:482-485 | the value set is TRUE exactly when b == 1 and FALSE otherwise |
| Access.StringValue | mprj/leptjson.c:503-512 | the value set is a string of exactly len bytes, the first len bytes of s |
| Access.GetString | mprj/leptjson.c:493-496 | the buffer read is the string's bytes followed by one NUL |
| Access.GetStringLength | mprj/leptjson.c:498-501 | the length read is the buffer's size before its terminating NUL |
| Access.GetArraySize | mprj/leptjson.c:514-517 | the size read is the number of elements |
| Access.GetArrayElement | mprj/leptjson.c:519-523 | the element read is the idx-th, in source order |
| Access.GetObjectSize | mprj/leptjson.c:525-528 | the size read is the number of members |
| Access.GetObjectKey | mprj/leptjson.c:530-534 | the key read is the idx-th member's key followed by one NUL |
| Access.GetObjectKeyLength | mprj/leptjson.c:535-539 | the key length read is the key buffer's size before its terminating NUL |
| Access.GetObjectValue | mprj/leptjson.c:541-545 | the value read is the idx-th member's value |
| Access.AccessorsDetermineValue | mprj/leptjson.c:514-545 | two arrays, or two objects, on which every size, element, key, key length and member value accessor agrees are the same value |
| Access.BooleanRoundTrip | mprj/leptjson.c:482-491 | setting b gives TRUE exactly when b == 1, otherwise FALSE; reading back gives 1 for TRUE and 0 for FALSE |
| Access.StringRoundTrip | mprj/leptjson.c:493-512 | after setting a string of len bytes, the tag is STRING, the length is len, and the buffer holds the same len bytes (NUL bytes included) followed by a terminating NUL |
| Access.SetMemberString | mprj/leptjson.c:379-384 | the member key becomes a copy of the first len bytes of src, and the member's value is untouched |
| Access.ValueCell.constructor | mprj/leptjson.c:92-95 | a fresh value handle is NULL |
| Access.ValueCell.Init | mprj/leptjson.c:92-95 | `lept_init` leaves the value NULL |
| Access.ValueCell.Free | mprj/leptjson.c:75-90 | `lept_free` leaves the value NULL |
| Access.ValueCell.SetNumber | mprj/leptjson.c:471-480 | the value becomes the number n, and reading it back gives n |
| Access.ValueCell.SetBoolean | mprj/leptjson.c:482-485 | the value becomes TRUE for b == 1 and FALSE otherwise |
| Access.ValueCell.SetString | mprj/leptjson.c:503-512 | the value becomes the first len bytes of s; its length reads len and its buffer those bytes plus a NUL |
| Scratch.StagedRoundTrip | mprj/leptjson.c:322-332 | what was staged on the stack reads back unchanged when popped: string bytes, array elements and object members alike |
| Scratch.GrownBounds | mprj/leptjson.c:44-45 | growth by half never shrinks the stack and ends with room for the request; a request that fits changes nothing, and the result is under one and a half times the request |
| Scratch.Context.constructor | mprj/leptjson.c:29-34 | a new context has an empty stack of capacity 256 and its cursor at the start of the text |
| Scratch.Context.Reserve | mprj/leptjson.c:44-47 | capacity grows by half while too small, and the stack contents are kept |
| Scratch.Context.Push | mprj/leptjson.c:42-51 | the stack becomes the old contents followed by the pushed entries; the returned offset is the old top; capacity is grown as needed; the cursor is unchanged |
| Scratch.Context.PushChar | mprj/leptjson.c:53-56 | pushing one byte appends exactly that byte |
| Scratch.Context.Pop | mprj/leptjson.c:58-66 | popping more than the stack holds gives NULL and changes nothing; otherwise top drops by size, and the returned region is exactly the last size entries |
| Scratch.StageElem | mprj/leptjson.c:361-362 | a parsed element is staged above the ones already staged, in order |
| Scratch.StageEntry | mprj/leptjson.c:431-432 | a parsed member is staged above the ones already staged, in order |
| Grammar.SkipWs | mprj/leptjson.c:97-102 | the cursor stops at the first byte at or after it that is not space, tab, LF or CR |
| Grammar.ParseLiteral | mprj/leptjson.c:105-124 | for `null`, `true` and `false`, the parse succeeds exactly when the whole literal is at the cursor, then stores NULL, TRUE or FALSE and moves past it; a literal not matched is INVALID_VALUE at the cursor with the value unchanged |
| Grammar.MatchesAt | mprj/leptjson.c:108 | for a literal without NUL, it matches exactly when each of its bytes is read at the cursor through the NUL-terminated text |
| Grammar.FirstDotOrEnd | mprj/leptjson.c:176-178 | the scan ends on a `.` or at the end of the text |
| Grammar.NumberPreCheck | mprj/leptjson.c:171-190 | a text passes exactly when, after an optional `-`, it starts with 1-9 or with a 0 not followed by a digit, and the first `.` from the cursor on, if any, is followed by a digit; a passing text starts with a digit after the optional `-` |
| Grammar.ParseNumber | mprj/leptjson.c:167-204 | a successful number moves the cursor forward, and the cursor never leaves the text |
| Grammar.Escape | mprj/leptjson.c:234-291 | a decoded escape moves the cursor forward within the text; `\u` without four hex digits is INVALID_UNICODE_HEX at the digits, and a byte naming no escape is INVALID_STRING_ESCAPE at that byte |
| Grammar.DecodeLoop | mprj/leptjson.c:220-308 | a decoded string ends past the cursor; a failure is never OK |
| Grammar.RawString | mprj/leptjson.c:216-309 | a decoded string ends past its opening quote; a failure is never OK |
| Grammar.ParseString | mprj/leptjson.c:311-320 | a parsed string ends past the cursor, inside the text |
| Grammar.ParseValue | mprj/leptjson.c:439-450 | a successful value consumes at least one byte and stays inside the text |
| Grammar.ParseArray | mprj/leptjson.c:335-367 | a successful array consumes at least one byte and stays inside the text |
| Grammar.ArrayLoop | mprj/leptjson.c:338-366 | a successful loop ends past the cursor, inside the text |
| Grammar.ArrayItem | mprj/leptjson.c:355-364 | a successful element and rest of loop end past the cursor |
| Grammar.ParseMember | mprj/leptjson.c:386-402 | a successful member ends past the cursor, inside the text |
| Grammar.MemberAfterKey | mprj/leptjson.c:392-401 | the member keeps the key; a byte other than `:` after the whitespace is OBJECT_MISSING_VALUE one byte past it; a successful tail ends past the cursor, inside the text |
| Grammar.ParseObject | mprj/leptjson.c:404-437 | a successful object consumes at least one byte and stays inside the text |
| Grammar.ObjectLoop | mprj/leptjson.c:407-436 | a successful loop ends past the cursor, inside the text |
| Grammar.ObjectItem | mprj/leptjson.c:426-434 | a successful member and rest of loop end past the cursor |
| Grammar.ArrayLoopSkipsWs | mprj/leptjson.c:339-340 | the array loop first skips whitespace, so starting after it changes nothing |
| Grammar.ObjectLoopSkipsWs | mprj/leptjson.c:408-409 | the object loop first skips whitespace, so starting after it changes nothing |
| Grammar.ArrayLoopAtEnd | mprj/leptjson.c:343-350 | at the end of the text the array is INCOMPLETE_ARRAY with the value unchanged; at `]` it is OK with the staged elements, one byte on |
| Grammar.ArrayLoopAtComma | mprj/leptjson.c:351-354 | a comma is stepped over and nothing else happens |
| Grammar.ArrayLoopAtItem | mprj/leptjson.c:355-364 | any other byte starts an element |
| Grammar.ObjectLoopAtEnd | mprj/leptjson.c:411-424 | at the end of the text the object is INCOMPLETE_OBJECT with the value unchanged; at `}` it is OK with the staged members, one byte on |
| Grammar.ObjectLoopAtComma | mprj/leptjson.c:415-418 | a comma is stepped over and nothing else happens |
| Grammar.ObjectLoopAtItem | mprj/leptjson.c:426-434 | any other byte starts a member |
| Grammar.Parse | mprj/leptjson.c:452-464 | a successful parse stops at the end of the text |
| Parser.ParseWhitespace | mprj/leptjson.c:97-102 | the loop leaves the cursor where the whitespace skip says |
| Parser.ParseLiteral | mprj/leptjson.c:105-124 | the status, value and cursor are those of the pure literal parse |
| Parser.ParseHex4 | mprj/leptjson.c:126-141 | success exactly when four hex digits follow, with their value; the cursor advances by 4 on success and stays put on failure |
| Parser.EncodeUtf8 | mprj/leptjson.c:143-165 | the UTF-8 bytes of the code point are pushed, in order, and their count is returned |
| Parser.ParseNumber | mprj/leptjson.c:167-204 | the status, value and cursor are those of the pure number parse |
| Parser.ParseEscape | mprj/leptjson.c:234-291 | a good escape pushes exactly its decoded bytes and moves past it; an unknown escape pops the string's bytes; the other escape failures leave the stack as it was |
| Parser.ParseUnicodeEscape | mprj/leptjson.c:253-285 | the `\u` case ends with the status and cursor of the grammar's escape; on success the code point's UTF-8 bytes are pushed and counted, on failure nothing is pushed |
| Parser.DecodeTurn | mprj/leptjson.c:221-307 | one turn of the decoding loop either finishes with the pure loop's failure and leftover bytes, or continues the pure loop from the new cursor with the new bytes pushed |
| Parser.ParseRawString | mprj/leptjson.c:216-309 | the cursor and outcome are the pure decoder's; on success the bytes are the decoded ones and the stack is back at its height; on failure the stack keeps exactly the bytes the code does not pop |
| Parser.ParseString | mprj/leptjson.c:311-320 | the status, value and cursor are those of the pure string parse; the stack is restored on OK and only grows otherwise |
| Parser.SetArray | mprj/leptjson.c:322-332 | the value becomes the array of the last cnt staged elements, in stack order, and they are popped |
| Parser.SetObject | mprj/leptjson.c:369-377 | the value becomes the object of the last cnt staged members, in stack order, and they are popped |
| Parser.ParseValue | mprj/leptjson.c:439-450 | the status, value and cursor are those of the pure value parse; the stack is restored on OK and only grows otherwise |
| Parser.ParseElement | mprj/leptjson.c:356-360 | an element parsed into a fresh NULL value ends as the pure value parse does |
| Parser.StageElement | mprj/leptjson.c:355-364 | on OK the element is staged, the whitespace after it skipped, and the array loop continues with one more element; otherwise the array ends as the pure element step does |
| Parser.ArrayComma | mprj/leptjson.c:351-354 | a comma is stepped over with the whitespace after it, and the array loop continues as it would have from the comma |
| Parser.ArrayTurn | mprj/leptjson.c:338-366 | one turn of the array loop either ends it as the pure loop does or continues the pure loop from the new cursor, with the staged elements on the stack |
| Parser.ParseArray | mprj/leptjson.c:335-367 | the status, value and cursor are those of the pure array parse; the stack is restored on OK and only grows otherwise |
| Parser.ParseMember | mprj/leptjson.c:386-402 | the status, member and cursor are those of the pure member parse |
| Parser.ParseMemberValue | mprj/leptjson.c:392-401 | after the key, the colon and the value are parsed as the pure member tail does |
| Parser.StageMember | mprj/leptjson.c:426-434 | on OK the member is staged, the whitespace after it skipped, and the object loop continues with one more member; otherwise the object ends as the pure member step does |
| Parser.ObjectComma | mprj/leptjson.c:415-418 | a comma is stepped over with the whitespace after it, and the object loop continues as it would have from the comma |
| Parser.ObjectTurn | mprj/leptjson.c:407-436 | one turn of the object loop either ends it as the pure loop does or continues the pure loop from the new cursor, with the staged members on the stack |
| Parser.ParseObject | mprj/leptjson.c:404-437 | the status, value and cursor are those of the pure object parse; the stack is restored on OK and only grows otherwise |
| Parser.Parse | mprj/leptjson.c:452-464 | `lept_parse` returns the status and leaves the value of the pure top-level parse |
| GrammarFacts.SkipWsSkipsWhitespaceOnly | mprj/leptjson.c:97-102 | everything skipped is whitespace, and the cursor stops on a non-whitespace byte |
| GrammarFacts.SkipWsOfBlank | mprj/leptjson.c:97-102 | an all-whitespace rest of text is skipped to its end |
| GrammarFacts.BlankTextExpectsValue | mprj/leptjson.c:447 | empty or all-whitespace input gives EXPECT_VALUE and leaves the value unchanged |
| GrammarFacts.RootSingular | mprj/leptjson.c:452-464 | the parse succeeds exactly when the root value does and only whitespace follows it; a root followed by anything else gives ROOT_NOT_SINGULAR with the root value stored; a failing root fails the parse unchanged |
| GrammarFacts.FailingRoot | mprj/leptjson.c:457-460 | a failing root value is the failure of the whole parse |
| GrammarFacts.LiteralsParse | mprj/leptjson.c:105-124 | `null`, `true` and `false` parse to their values, consuming 4, 4 and 5 bytes |
| GrammarFacts.LiteralErrors | mprj/test.c:94-114 | `nul` gives INVALID_VALUE at the start; `null x` gives ROOT_NOT_SINGULAR with null stored |
| GrammarFacts.FirstDotOrEndIsFirst | mprj/leptjson.c:176-178 | the scan passes over no `.` and no end of text |
| GrammarFacts.NumberOutcomes | mprj/leptjson.c:167-204 | a number succeeds exactly when the grammar check passes and the conversion reads at least one byte; NUMBER_TOO_BIG happens exactly on overflow after the check; every failure leaves the cursor, and only a conversion that reads nothing changes the value |
| GrammarFacts.CheckRejects | mprj/leptjson.c:188-190 | a text whose number check fails is INVALID_VALUE at its start, value unchanged |
| GrammarFacts.NoValueStart | mprj/leptjson.c:171-173 | a text starting with a byte that starts no value and no number is INVALID_VALUE |
| GrammarFacts.RejectedSigns | mprj/test.c:101-102 | `+0` and `+1` are INVALID_VALUE at position 0, with the value untouched |
| GrammarFacts.RejectedPoints | mprj/test.c:103-104 | `.123` and `1.` are INVALID_VALUE at position 0, with the value untouched |
| GrammarFacts.RejectedInfinity | mprj/test.c:105-106 | `INF` and `inf` are INVALID_VALUE at position 0, with the value untouched |
| GrammarFacts.RejectedNotANumber | mprj/test.c:107-108 | `NAN` and `nan` are INVALID_VALUE at position 0, with the value untouched |
| GrammarFacts.DotScanReachesPastNumber | mprj/leptjson.c:176-190 | in `[1,"a."]` the `.` inside the string fails the element `1`, so the array is INVALID_VALUE at 1 |
| GrammarFacts.EscapeByteDecodes | mprj/leptjson.c:234-291 | the escape written for a byte decodes to that byte (quote and backslash as two-byte escapes, control bytes as `\u00XX`) |
| GrammarFacts.DecodeEscapedText | mprj/leptjson.c:220-308 | any byte text, escaped and closed by a quote, decodes to exactly that text and ends just past the quote |
| GrammarFacts.QuotedTextRoundTrip | mprj/leptjson.c:311-320 | a quoted escaped text parses to the string holding that text, whatever follows it |
| GrammarFacts.QuotedTextParses | mprj/leptjson.c:452-464 | a quoted escaped text on its own is a whole JSON text whose value is that string |
| GrammarFacts.DecodeLoopShape | mprj/leptjson.c:220-308 | decoding only adds bytes; a failure is one of the five string statuses; an unknown escape or a control byte leaves nothing pushed, and the other failures leave at least the bytes decoded so far |
| GrammarFacts.UnitEscape | mprj/leptjson.c:253-284 | `\u` with four hex digits of a value that is not a high surrogate decodes to that value's UTF-8 bytes, six bytes on |
| GrammarFacts.PairEscape | mprj/leptjson.c:263-284 | a high surrogate escape followed by a low surrogate escape decodes to the UTF-8 bytes of the combined code point, twelve bytes on |
| GrammarFacts.CodePointEscape | mprj/leptjson.c:277-284 | writing any code point below 0x10000 that is not a high surrogate as `\uXXXX` decodes back to its UTF-8 bytes; a lone low surrogate included |
| GrammarFacts.SurrogatePairEscape | mprj/leptjson.c:263-284 | writing any supplementary code point as its surrogate pair decodes back to its four UTF-8 bytes |
| GrammarFacts.HighSurrogateNeedsLow | mprj/leptjson.c:263-276 | a high surrogate decodes exactly when `\u` and a low surrogate follow; no `\u` is INVALID_UNICODE_SURROGATE where it should be, bad second digits are INVALID_UNICODE_HEX at them, and a second unit that is not a low surrogate is INVALID_UNICODE_SURROGATE after it |
| GrammarFacts.BadHexDigits | mprj/leptjson.c:260-261 | `\u` not followed by four hex digits is INVALID_UNICODE_HEX at the first digit place |
| GrammarFacts.BadHexDigitAt | mprj/leptjson.c:126-141 | a string whose `\u` has a non-hex byte in any of its four digit places fails the whole parse with INVALID_UNICODE_HEX |
| GrammarFacts.ShortHexErrors | mprj/test.c:185-188 | `"\u"`, `"\u0"`, `"\u01"` and `"\u012"` give INVALID_UNICODE_HEX |
| GrammarFacts.NonHexLeadingErrors | mprj/test.c:189-192 | `/` or `G` in the first or second digit place gives INVALID_UNICODE_HEX |
| GrammarFacts.NonHexTrailingErrors | mprj/test.c:193-196 | `/` or `G` in the third or fourth digit place gives INVALID_UNICODE_HEX |
| GrammarFacts.EscapeWellFormed | mprj/leptjson.c:234-291 | every decoded escape is one to four bytes forming a well-formed UTF-8 sequence |
| GrammarFacts.SimpleEscapesDecode | mprj/leptjson.c:238-250 | each of the eight one-byte escapes decodes to one byte, two bytes on; no two stand for the same byte; all but `\"`, `\\` and `\/` stand for control bytes |
| GrammarFacts.UnknownEscape | mprj/leptjson.c:287-289 | a backslash followed by a byte that names no escape fails with INVALID_STRING_ESCAPE at that byte |
| GrammarFacts.StringEscapeErrors | mprj/test.c:170-173 | `"\v"` and `"\x12"` give INVALID_STRING_ESCAPE |
| GrammarFacts.StringCharErrors | mprj/test.c:179 | a raw 0x01 inside quotes gives INVALID_STRING_CHAR at that byte |
| GrammarFacts.StringMissingQuote | mprj/test.c:165 | `"abc` gives STRING_MISS_QUOTE at the end of the text |
| GrammarFacts.UnpairedHighSurrogate | mprj/test.c:200 | `"\uD800"` gives INVALID_UNICODE_SURROGATE right after the escape |
| GrammarFacts.HighSurrogateBeforeNonSurrogate | mprj/test.c:204 | `"\uD800\uE000"` gives INVALID_UNICODE_SURROGATE after the second escape |
| GrammarFacts.ArrayLoopStaged | mprj/leptjson.c:335-367 | an array loop run with elements already staged ends as the same loop run from none, with the staged elements in front of the new ones, in source order; a failure leaves the old value |
| GrammarFacts.ArrayItemStaged | mprj/leptjson.c:355-364 | the same for one element step |
| GrammarFacts.ObjectLoopStaged | mprj/leptjson.c:404-437 | an object loop run with members already staged ends as the same loop run from none, with the staged members in front of the new ones, in source order and duplicates kept; a failure leaves the old value |
| GrammarFacts.ObjectItemStaged | mprj/leptjson.c:426-434 | the same for one member step |
| GrammarFacts.ParseValueReplacesOnSuccess | mprj/leptjson.c:439-450 | how a value parse ends, where it stops and the value a success stores do not depend on the old value; a failure leaves the old value, except that a number whose conversion reads nothing stores the number with INVALID_VALUE |
| GrammarFacts.ParseIgnoresOldValue | mprj/leptjson.c:452-464 | the status and stopping point of `lept_parse`, and the value it stores on success, do not depend on what the value held before |
| GrammarFacts.MemberAfterColon | mprj/leptjson.c:393-398 | for every text: after the key and whitespace, a byte other than `:` is OBJECT_MISSING_VALUE one byte past it; after `:` the value is parsed at once, without skipping whitespace, and the member ends as that parse does, holding its value only on success |
| GrammarFacts.MissingColon | mprj/leptjson.c:393-395 | `{"a"}` gives OBJECT_MISSING_VALUE, one byte past where the colon should be |
| GrammarFacts.SpaceAfterColon | mprj/leptjson.c:394-398 | `{"a": null}` gives INVALID_VALUE at the space after the colon |
| GrammarFacts.KeyWithoutQuote | mprj/leptjson.c:218 | `{1:2}` reaches the `EXPECT` assertion on the key's opening quote |
| GrammarFacts.CommasAreOptional | mprj/leptjson.c:351-364 | `[[][]]` parses to an array of two empty arrays |
| GrammarFacts.StrayCommaSkipped | mprj/leptjson.c:351-354 | `[,]` parses to the empty array |

## Left out

- The conversion by `strtod` (`mprj/leptjson.c:192-203`), with `errno` and `HUGE_VAL`, is a parameter of the model. It is any function from the rest of the text to overflow or to a number plus the count of bytes read. The model does not say which texts `strtod` accepts (it also reads forms such as `0x0`) or how it rounds. Numbers are Dafny reals, not IEEE doubles.
- `malloc`, `realloc`, `free` and the leaks are not modelled: the key buffers, the context stack that is never freed, and `lept_free` not recursing into array elements or freeing the member array. Values are Dafny datatypes, so ownership and aliasing are not modelled.
- The scratch stack holds typed entries rather than raw bytes. A decoded string byte, a staged element or a staged member is one entry each. The height discipline of push and pop is kept, but the `memcpy` of struct bytes onto the stack and back is not modelled.
- The value `lept_parse_member` mallocs and leaves uninitialised is modelled as NULL.
- The `assert` on an uninitialised pointer at `mprj/leptjson.c:217` is not modelled.
- The accessors' tag assertions are preconditions. The `EXPECT` on a member key is the outcome `Aborts`. Other assertions on null pointers are not modelled, because Dafny references here are never null.
- The `fprintf` diagnostic of a failed pop is not modelled.
- `mprj/test.c` is the test driver and is not part of this model. Some of its cases are stated as lemmas.
- The input holds no NUL bytes before its end. `GrammarFacts.RootSingular` requires this, as a C string would.
- Integer widths (`int top`, `size_t`) are unbounded here, so overflow of the stack size is not modelled.
