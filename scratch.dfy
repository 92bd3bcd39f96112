/** The parse context of one `lept_parse` call: the cursor into the input and
    the growable scratch stack shared by every level of the recursion. */
module Scratch {
  import opened LeptTypes

  /** The capacity `lept_context_init` gives a new stack. */
  const InitSize: nat := 256

  /** One entry of the scratch stack. Decoded string bytes are stacked one byte
      per entry; a staged array element or object member, which the source copies
      onto the stack as the raw bytes of its struct, is one typed entry here. */
  datatype Slot = Char(b: Byte) | Elem(v: Value) | Entry(m: Member)

  /** Bytes as stack entries. */
  function Chars(bs: seq<Byte>): seq<Slot>
  {
    seq(|bs|, k requires 0 <= k < |bs| => Char(bs[k]))
  }

  /** The bytes held by a region of the stack (a non-byte entry reads as 0). */
  function CharsOf(region: seq<Slot>): seq<Byte>
  {
    seq(|region|, k requires 0 <= k < |region| => if region[k].Char? then region[k].b else 0)
  }

  /** Staged array elements as stack entries. */
  function Elems(vs: seq<Value>): seq<Slot>
  {
    seq(|vs|, k requires 0 <= k < |vs| => Elem(vs[k]))
  }

  /** The values held by a region of staged elements (another entry reads as null). */
  function ElemsOf(region: seq<Slot>): seq<Value>
  {
    seq(|region|, k requires 0 <= k < |region| => if region[k].Elem? then region[k].v else Null)
  }

  /** Staged object members as stack entries. */
  function Entries(ms: seq<Member>): seq<Slot>
  {
    seq(|ms|, k requires 0 <= k < |ms| => Entry(ms[k]))
  }

  /** The members held by a region of staged members. */
  function EntriesOf(region: seq<Slot>): seq<Member>
  {
    seq(|region|, k requires 0 <= k < |region| => if region[k].Entry? then region[k].m else Member([], Null))
  }

  /** Reading back what was staged gives exactly what was staged, in order. */
  lemma StagedRoundTrip(bs: seq<Byte>, vs: seq<Value>, ms: seq<Member>)
    ensures CharsOf(Chars(bs)) == bs
    ensures ElemsOf(Elems(vs)) == vs
    ensures EntriesOf(Entries(ms)) == ms
  {
  }

  /** Staging more bytes, elements or members extends the staged entries. */
  lemma StagingAppends(bs: seq<Byte>, bs2: seq<Byte>, vs: seq<Value>, v: Value, ms: seq<Member>, m: Member)
    ensures Chars(bs + bs2) == Chars(bs) + Chars(bs2)
    ensures Elems(vs + [v]) == Elems(vs) + [Elem(v)]
    ensures Entries(ms + [m]) == Entries(ms) + [Entry(m)]
  {
  }

  /** The capacity after the growth loop of `lept_context_push`, when `need`
      entries must fit: grow by half while too small. */
  function Grown(cap: nat, need: nat): nat
    requires 2 <= cap
    decreases if need <= cap then 0 else need - cap
  {
    if need > cap then Grown(cap + cap / 2, need) else cap
  }

  /** Growth never shrinks the stack, always makes room, and overshoots by less
      than half: the result is below one and a half times what was needed. */
  lemma {:induction false} GrownBounds(cap: nat, need: nat)
    requires 2 <= cap
    ensures cap <= Grown(cap, need) && need <= Grown(cap, need)
    ensures need <= cap ==> Grown(cap, need) == cap
    ensures need > cap ==> 2 * Grown(cap, need) < 3 * need
    decreases if need <= cap then 0 else need - cap
  {
    if need > cap {
      GrownBounds(cap + cap / 2, need);
    }
  }

  class Context {
    /** The text being parsed. */
    const input: seq<Byte>
    /** The cursor `c->json`, as an index into `input`. */
    var pos: nat
    var stack: array<Slot>
    var top: nat
    var capacity: nat

    /** The storage holds `capacity` entries, `top` of them in use. */
    ghost predicate Valid()
      reads this`stack, this`top, this`capacity
    {
      stack.Length == capacity && top <= capacity && InitSize <= capacity
    }

    /** The entries in use, bottom first. */
    ghost function Contents(): seq<Slot>
      reads this`stack, this`top, this`capacity, stack
      requires Valid()
    {
      stack[..top]
    }

    /** `lept_context_init`, followed by pointing the cursor at the text. */
    constructor (json: seq<Byte>)
      ensures Valid() && fresh(stack)
      ensures input == json && pos == 0 && capacity == InitSize && Contents() == []
    {
      input := json;
      pos := 0;
      stack := new Slot[InitSize];
      top := 0;
      capacity := InitSize;
    }

    /** The growth part of `lept_context_push`: when `need` entries do not
        fit, the capacity grows by half until they do and the entries move to
        storage of the new capacity. */
    method Reserve(need: nat)
      requires Valid()
      modifies this`capacity, this`stack
      ensures Valid() && (stack == old(stack) || fresh(stack))
      ensures capacity == Grown(old(capacity), need) && need <= capacity
      ensures Contents() == old(Contents())
    {
      GrownBounds(capacity, need);
      var cap := capacity;
      while need > cap
        invariant InitSize <= capacity <= cap
        invariant Grown(cap, need) == Grown(capacity, need)
        decreases need - cap
      {
        cap := cap + cap / 2;
      }
      if cap != stack.Length {
        // realloc: the entries move to storage of the new capacity
        var grown := new Slot[cap];
        forall k | 0 <= k < stack.Length {
          grown[k] := stack[k];
        }
        stack := grown;
      }
      capacity := cap;
    }

    /** `lept_context_push`: grows the storage as needed, appends `src` and
        returns the offset of its first entry. */
    method Push(src: seq<Slot>) returns (offset: nat)
      requires Valid()
      modifies this, stack
      ensures Valid() && (stack == old(stack) || fresh(stack))
      ensures pos == old(pos)
      ensures capacity == Grown(old(capacity), old(top) + |src|)
      ensures Contents() == old(Contents()) + src
      ensures offset == old(top)
    {
      ghost var before := Contents();
      Reserve(top + |src|);
      forall k | top <= k < top + |src| {
        stack[k] := src[k - top];
      }
      assert stack[..top] == before;
      assert stack[..top + |src|] == before + src;
      offset := top;
      top := top + |src|;
    }

    /** `lept_context_push_single_char`. */
    method PushChar(ch: Byte) returns (offset: nat)
      requires Valid()
      modifies this, stack
      ensures Valid() && (stack == old(stack) || fresh(stack))
      ensures pos == old(pos)
      ensures capacity == Grown(old(capacity), old(top) + 1)
      ensures Contents() == old(Contents()) + [Char(ch)]
      ensures offset == old(top)
    {
      offset := Push([Char(ch)]);
    }

    /** `lept_context_pop`: removes the last `size` entries and gives them back,
        or gives None and changes nothing when fewer are stacked. */
    method Pop(size: nat) returns (region: Option<seq<Slot>>)
      requires Valid()
      modifies this`top
      ensures Valid()
      ensures size > old(top) ==> region == None && top == old(top)
      ensures size <= old(top) ==> top == old(top) - size && region == Some(old(Contents())[top..])
      ensures Contents() == old(Contents())[..top]
    {
      if size > top {
        return None;
      }
      top := top - size;
      region := Some(stack[top..top + size]);
    }
  }

  /** Stages a parsed array element above the ones already staged, as
      `lept_parse_array` copies each element onto the stack. */
  method StageElem(c: Context, e: Value, ghost entry: seq<Slot>, ghost elems: seq<Value>)
    requires c.Valid() && c.Contents() == entry + Elems(elems)
    modifies c, c.stack
    ensures c.Valid() && (c.stack == old(c.stack) || fresh(c.stack)) && c.pos == old(c.pos)
    ensures c.Contents() == entry + Elems(elems + [e])
  {
    var _ := c.Push([Elem(e)]);
    StagingAppends([], [], elems, e, [], Member([], Null));
  }

  /** Stages a parsed member above the ones already staged, as
      `lept_parse_object` copies each member onto the stack. */
  method StageEntry(c: Context, m: Member, ghost entry: seq<Slot>, ghost members: seq<Member>)
    requires c.Valid() && c.Contents() == entry + Entries(members)
    modifies c, c.stack
    ensures c.Valid() && (c.stack == old(c.stack) || fresh(c.stack)) && c.pos == old(c.pos)
    ensures c.Contents() == entry + Entries(members + [m])
  {
    var _ := c.Push([Entry(m)]);
    StagingAppends([], [], [], Null, members, m);
  }
}
