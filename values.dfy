/** The accessors of a value (`lept_get_*`), and one value handle updated in
    place by the setters and the lifecycle calls (`lept_set_*`, `lept_init`,
    `lept_free`). An accessor's tag assertion is its precondition. */
module Access {
  import opened LeptTypes

  /** `lept_get_type`. */
  function GetType(v: Value): (t: Tag)
    ensures t == NumberTag <==> v.Number?
    ensures t == StringTag <==> v.String?
    ensures t == ArrayTag <==> v.Array?
    ensures t == ObjectTag <==> v.Object?
  {
    TypeOf(v)
  }

  /** `lept_get_number`. */
  function GetNumber(v: Value): (n: real)
    requires v.Number?
    ensures v == Number(n)
  {
    v.num
  }

  /** `lept_get_boolean`: 0 for false, 1 for true. */
  function GetBoolean(v: Value): (b: int)
    requires v.False? || v.True?
    ensures b == 0 || b == 1
  {
    if v.False? then 0 else 1
  }

  /** The value `lept_set_boolean(v, b)` stores: true only for b == 1. */
  function BooleanValue(b: int): (r: Value)
    ensures r.True? <==> b == 1
    ensures r.False? <==> b != 1
  {
    if b == 1 then True else False
  }

  /** The value `lept_set_string(v, s, len)` stores: the first `len` bytes of `s`. */
  function StringValue(s: seq<Byte>, len: nat): (r: Value)
    requires len <= |s|
    ensures r.String? && |r.str| == len
    ensures forall k :: 0 <= k < len ==> r.str[k] == s[k]
  {
    String(s[..len])
  }

  /** `lept_get_string`: the owned buffer, its bytes followed by a terminating NUL. */
  function GetString(v: Value): (r: seq<Byte>)
    requires v.String?
    ensures |r| == |v.str| + 1 && r[..|v.str|] == v.str && r[|v.str|] == 0
  {
    v.str + [0]
  }

  /** `lept_get_string_length`: the stored length, which counts NUL bytes too. */
  function GetStringLength(v: Value): (n: nat)
    requires v.String?
    ensures n + 1 == |GetString(v)| && GetString(v)[n] == 0
  {
    |v.str|
  }

  /** `lept_get_array_size`. */
  function GetArraySize(v: Value): (n: nat)
    requires v.Array?
    ensures n == |v.elems|
  {
    |v.elems|
  }

  /** `lept_get_array_element`. */
  function GetArrayElement(v: Value, idx: nat): (e: Value)
    requires v.Array? && idx < GetArraySize(v)
    ensures e == v.elems[idx]
  {
    v.elems[idx]
  }

  /** `lept_get_object_size`. */
  function GetObjectSize(v: Value): (n: nat)
    requires v.Object?
    ensures n == |v.members|
  {
    |v.members|
  }

  /** `lept_get_object_key`. */
  function GetObjectKey(v: Value, idx: nat): (r: seq<Byte>)
    requires v.Object? && idx < GetObjectSize(v)
    ensures 0 < |r| && r[..|r| - 1] == v.members[idx].key && r[|r| - 1] == 0
  {
    v.members[idx].key + [0]
  }

  /** `lept_get_object_keylen`. */
  function GetObjectKeyLength(v: Value, idx: nat): (n: nat)
    requires v.Object? && idx < GetObjectSize(v)
    ensures n + 1 == |GetObjectKey(v, idx)| && GetObjectKey(v, idx)[n] == 0
  {
    |v.members[idx].key|
  }

  /** `lept_get_object_value`. */
  function GetObjectValue(v: Value, idx: nat): (r: Value)
    requires v.Object? && idx < GetObjectSize(v)
    ensures v.members[idx] == Member(v.members[idx].key, r)
  {
    v.members[idx].value
  }

  /** `lept_set_member_string`: the key of `m` becomes the first `len` bytes of `src`. */
  function SetMemberString(m: Member, src: seq<Byte>, len: nat): (r: Member)
    requires len <= |src|
    ensures |r.key| == len && r.key == src[..len] && r.value == m.value
  {
    m.(key := src[..len])
  }

  /** The accessors read back a whole array or object: two arrays whose size
      and elements agree are the same value, and two objects whose size, keys
      (with their lengths) and member values agree are the same value. */
  lemma {:induction false} AccessorsDetermineValue(v: Value, w: Value)
    requires (v.Array? && w.Array? && GetArraySize(v) == GetArraySize(w))
             || (v.Object? && w.Object? && GetObjectSize(v) == GetObjectSize(w))
    requires v.Array? ==> forall k :: 0 <= k < GetArraySize(v) ==> GetArrayElement(v, k) == GetArrayElement(w, k)
    requires v.Object? ==> forall k :: 0 <= k < GetObjectSize(v) ==>
               GetObjectKeyLength(v, k) == GetObjectKeyLength(w, k) &&
               GetObjectKey(v, k) == GetObjectKey(w, k) && GetObjectValue(v, k) == GetObjectValue(w, k)
    ensures v == w
  {
    if v.Array? {
      assert v.elems == w.elems by {
        forall k | 0 <= k < |v.elems| ensures v.elems[k] == w.elems[k] {
          assert GetArrayElement(v, k) == GetArrayElement(w, k);
        }
      }
    } else {
      assert v.members == w.members by {
        forall k | 0 <= k < |v.members| ensures v.members[k] == w.members[k] {
          var n := GetObjectKeyLength(v, k);
          assert GetObjectKey(v, k)[..n] == v.members[k].key;
          assert GetObjectKey(w, k)[..n] == w.members[k].key;
          assert GetObjectValue(v, k) == GetObjectValue(w, k);
        }
      }
    }
  }

  /** A string set with an explicit length reads back with that length, the
      same bytes and a terminating NUL, whatever bytes (NUL included) it holds. */
  lemma StringRoundTrip(s: seq<Byte>, len: nat)
    requires len <= |s|
    ensures GetType(StringValue(s, len)) == StringTag
    ensures GetStringLength(StringValue(s, len)) == len
    ensures GetString(StringValue(s, len))[..len] == s[..len]
    ensures GetString(StringValue(s, len))[len] == 0
  {
  }

  /** `lept_set_boolean` gives true exactly for 1, and `lept_get_boolean` reads
      false as 0 and true as 1. */
  lemma BooleanRoundTrip(b: int)
    ensures GetType(BooleanValue(b)) == TrueTag <==> b == 1
    ensures GetType(BooleanValue(b)) == FalseTag <==> b != 1
    ensures GetBoolean(BooleanValue(b)) == (if b == 1 then 1 else 0)
  {
  }

  /** The storage of one `lept_value`, updated in place. A newly allocated one
      holds null. */
  class ValueCell {
    var val: Value

    constructor ()
      ensures val == Null
    {
      val := Null;
    }

    /** `lept_init`. */
    method Init()
      modifies this
      ensures val == Null
    {
      val := Null;
    }

    /** `lept_free`: releases the payload and leaves null behind. */
    method Free()
      modifies this
      ensures val == Null
    {
      val := Null;
    }

    /** `lept_set_number`. */
    method SetNumber(n: real)
      modifies this
      ensures val == Number(n) && GetNumber(val) == n
    {
      val := Number(n);
    }

    /** `lept_set_boolean`. */
    method SetBoolean(b: int)
      modifies this
      ensures val == BooleanValue(b)
    {
      val := BooleanValue(b);
    }

    /** `lept_set_string`: frees the old payload and copies `len` bytes. */
    method SetString(s: seq<Byte>, len: nat)
      requires len <= |s|
      modifies this
      ensures val == StringValue(s, len)
      ensures GetStringLength(val) == len && GetString(val) == s[..len] + [0]
    {
      Free();
      val := StringValue(s, len);
    }
  }
}
