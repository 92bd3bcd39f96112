/** The value tree, its type tags and the parse status codes of leptjson. */
module LeptTypes {

  /** One byte of the input text or of a decoded string. */
  type Byte = b: int | 0 <= b < 0x100

  datatype Option<T> = None | Some(value: T)

  /** The seven `lept_type` tags, in declaration order. */
  datatype Tag = NullTag | FalseTag | TrueTag | NumberTag | StringTag | ArrayTag | ObjectTag

  /** A JSON value. The payload is the one that belongs to the tag: a number,
      a byte string whose length is its own, an ordered sequence of elements,
      or an ordered sequence of members; null, false and true carry nothing. */
  datatype Value =
    | Null
    | False
    | True
    | Number(num: real)
    | String(str: seq<Byte>)
    | Array(elems: seq<Value>)
    | Object(members: seq<Member>)

  /** One `key : value` pair of an object: the key bytes and one owned value. */
  datatype Member = Member(key: seq<Byte>, value: Value)

  /** The status codes returned by `lept_parse`, in declaration order. */
  datatype Status =
    | Ok
    | ExpectValue
    | InvalidValue
    | RootNotSingular
    | NumberTooBig
    | StringMissQuote
    | InvalidStringEscape
    | InvalidStringChar
    | InvalidUnicodeHex
    | InvalidUnicodeSurrogate
    | IncompleteArray
    | IncompleteObject
    | ObjectMissingValue

  /** The tag of a value, as `lept_get_type` reports it. */
  function TypeOf(v: Value): (t: Tag)
    ensures v.Null? || v.False? || v.True? <==> t in {NullTag, FalseTag, TrueTag}
  {
    match v
    case Null => NullTag
    case False => FalseTag
    case True => TrueTag
    case Number(_) => NumberTag
    case String(_) => StringTag
    case Array(_) => ArrayTag
    case Object(_) => ObjectTag
  }

  /** The integer a tag has in the C enumeration. */
  function TagCode(t: Tag): (n: nat)
    ensures n < 7
  {
    match t
    case NullTag => 0
    case FalseTag => 1
    case TrueTag => 2
    case NumberTag => 3
    case StringTag => 4
    case ArrayTag => 5
    case ObjectTag => 6
  }

  /** The integer a status has in the C enumeration; `Ok` is 0. */
  function Code(s: Status): (n: nat)
    ensures n < 13
    ensures n == 0 <==> s == Ok
  {
    match s
    case Ok => 0
    case ExpectValue => 1
    case InvalidValue => 2
    case RootNotSingular => 3
    case NumberTooBig => 4
    case StringMissQuote => 5
    case InvalidStringEscape => 6
    case InvalidStringChar => 7
    case InvalidUnicodeHex => 8
    case InvalidUnicodeSurrogate => 9
    case IncompleteArray => 10
    case IncompleteObject => 11
    case ObjectMissingValue => 12
  }

  /** The status with a given integer code, if there is one. */
  function StatusOf(n: int): (s: Option<Status>)
    ensures s.Some? <==> 0 <= n < 13
  {
    if n == 0 then Some(Ok)
    else if n == 1 then Some(ExpectValue)
    else if n == 2 then Some(InvalidValue)
    else if n == 3 then Some(RootNotSingular)
    else if n == 4 then Some(NumberTooBig)
    else if n == 5 then Some(StringMissQuote)
    else if n == 6 then Some(InvalidStringEscape)
    else if n == 7 then Some(InvalidStringChar)
    else if n == 8 then Some(InvalidUnicodeHex)
    else if n == 9 then Some(InvalidUnicodeSurrogate)
    else if n == 10 then Some(IncompleteArray)
    else if n == 11 then Some(IncompleteObject)
    else if n == 12 then Some(ObjectMissingValue)
    else None
  }

  /** The 13 codes are 0 to 12, one per status: the two numberings invert each other. */
  lemma CodesAreDistinct(a: Status, b: Status, n: int)
    ensures Code(a) == Code(b) ==> a == b
    ensures StatusOf(Code(a)) == Some(a)
    ensures 0 <= n < 13 ==> Code(StatusOf(n).value) == n
  {
  }

  /** Tags are numbered 0 to 6 without collision, and a value of one of the three
      payload-free tags is determined by its tag alone. */
  lemma TagsAreDistinct(v: Value, w: Value)
    ensures TagCode(TypeOf(v)) == TagCode(TypeOf(w)) ==> TypeOf(v) == TypeOf(w)
    ensures TypeOf(v) == TypeOf(w) && TypeOf(v) in {NullTag, FalseTag, TrueTag} ==> v == w
  {
  }
}
