/**
 The printer of `src/cJSON.c`: a buffer that is fixed (`noalloc`) or grows, filled through
 `ensure`, `update_offset` and the recursive `print_value`. Every method is proved to write
 exactly the text of `JsonText`, and to fail exactly when that text does not fit.
 */
module JsonPrinter {
  import opened Wrappers
  import opened Bytes
  import opened Json
  import opened JsonText

  class PrintBuffer {
    var buffer: array<byte>
    var length: nat
    var offset: nat
    var depth: nat
    const noalloc: bool
    const format: bool

    ghost predicate Valid()
      reads this
    {
      && length <= buffer.Length && length <= INT_MAX && depth <= NESTING_LIMIT
      && (if length == 0 then offset == 0 else offset < length)
    }

    /** How many bytes the buffer can come to hold. */
    ghost function Limit(): int
      reads this
    {
      if noalloc then length else INT_MAX
    }

    /** The bytes written so far. */
    ghost function Written(): bytes
      requires Valid()
      reads this, buffer
    {
      buffer[..offset]
    }

    /** A NUL-terminated text follows the first `start` bytes; `offset` is somewhere inside it. */
    ghost predicate Holds(before: bytes, text: bytes)
      reads this, buffer
    {
      && Valid()
      && |before| <= offset <= |before| + |text| < length
      && buffer[..|before| + |text|] == before + text
      && buffer[|before| + |text|] == 0
    }

    constructor (buffer: array<byte>, length: nat, noalloc: bool, format: bool)
      requires length <= buffer.Length && length <= INT_MAX
      ensures this.buffer == buffer && this.length == length && offset == 0 && depth == 0
      ensures this.noalloc == noalloc && this.format == format && Valid()
    {
      this.buffer, this.length, offset, depth := buffer, length, 0, 0;
      this.noalloc, this.format := noalloc, format;
    }

    /** Room for `needed` more bytes and one more, reallocating if that is allowed. */
    method Ensure(needed: nat) returns (ok: bool)
      requires Valid()
      modifies this`buffer, this`length
      ensures Valid() && Limit() == old(Limit())
      ensures ok <==> offset + needed + 1 <= Limit()
      ensures ok ==> offset + needed + 1 <= length
      ensures buffer == old(buffer) || (!noalloc && fresh(buffer))
      ensures Written() == old(Written())
    {
      if length > 0 && offset >= length {
        return false;
      }
      if needed > INT_MAX {
        return false;
      }
      var total := needed + offset + 1;
      if total <= length {
        return true;
      }
      if noalloc {
        return false;
      }
      var newsize;
      if total > INT_MAX / 2 {
        if total <= INT_MAX {
          newsize := INT_MAX;
        } else {
          return false;
        }
      } else {
        newsize := total * 2;
      }
      var newbuffer := new byte[newsize];
      forall i | 0 <= i < offset {
        newbuffer[i] := buffer[i];
      }
      buffer, length := newbuffer, newsize;
      ok := true;
    }

    /** Stores of consecutive bytes from index `at` on: what `strcpy`, `memcpy` and runs of `*p++ =` do. */
    method Store(at: nat, text: bytes)
      requires Valid() && at + |text| <= length
      modifies buffer
      ensures buffer[..at + |text|] == old(buffer[..at]) + text
    {
      for i := 0 to |text|
        invariant forall j :: 0 <= j < at ==> buffer[j] == old(buffer[j])
        invariant forall j :: 0 <= j < i ==> buffer[at + j] == text[j]
      {
        buffer[at + i] := text[i];
      }
    }

    /** The last text of a value and its NUL. */
    method StoreEnd(at: nat, text: bytes)
      requires Valid() && at + |text| + 1 <= length
      modifies buffer
      ensures buffer[..at + |text|] == old(buffer[..at]) + text
      ensures buffer[at + |text|] == 0
    {
      Store(at, text);
      buffer[at + |text|] := 0;
    }

    /** `update_offset`: move past the string that starts at the offset. */
    method UpdateOffset(ghost before: bytes, ghost text: bytes)
      requires Holds(before, text) && 0 !in text
      modifies this`offset
      ensures Valid() && offset == |before| + |text| && Written() == before + text
    {
      ghost var end := |before| + |text|;
      forall i | offset <= i < end ensures buffer[i] != 0 {
        assert buffer[..end][i] == text[i - |before|];
      }
      var strlen := 0;
      while buffer[offset + strlen] != 0
        invariant offset + strlen <= end
        decreases end - strlen
      {
        strlen := strlen + 1;
      }
      offset := offset + strlen;
    }

    /** A text of this length fits after what is written, with room for its NUL and one byte more. */
    ghost predicate Room(start: nat, size: nat)
      reads this
    {
      start + size + 2 <= Limit()
    }

    method PrintWord(word: bytes) returns (ok: bool)
      requires Valid() && |word| > 0
      modifies this, buffer
      ensures Limit() == old(Limit()) && (buffer == old(buffer) || (!noalloc && fresh(buffer)))
      ensures ok <==> Room(old(offset), |word|)
      ensures ok ==> depth == old(depth) && offset == old(offset) && Holds(old(Written()), word)
    {
      ok := Ensure(|word| + 1);
      if ok {
        StoreEnd(offset, word);
      }
    }

    /** `print_number` on its `%d` path; it also moves the offset. */
    method PrintNumber(d: real) returns (ok: bool)
      requires Valid() && IsInt32(d)
      modifies this, buffer
      ensures Limit() == old(Limit()) && (buffer == old(buffer) || (!noalloc && fresh(buffer)))
      ensures ok <==> Room(old(offset), |IntText(ValueInt(d))|)
      ensures ok ==> depth == old(depth) && Holds(old(Written()), IntText(ValueInt(d)))
    {
      var text := IntText(ValueInt(d));
      IntTextShort(ValueInt(d));
      if |text| > 25 {
        return false;
      }
      ok := PrintWord(text);
      if ok {
        offset := offset + |text|;
      }
    }

    /** How many bytes escaping adds to a string. */
    static method CountEscapes(s: cstring) returns (escapes: nat)
      ensures |s| + escapes == |Escape(s)|
    {
      escapes := 0;
      for i := 0 to |s|
        invariant escapes == |Escape(s[..i])| - i
      {
        EscapeStep(s, i);
        if s[i] in {QUOTE, BACKSLASH, 0x08, 0x0C, NEWLINE, RETURN, TAB} {
          escapes := escapes + 1;
        } else if s[i] < 32 {
          escapes := escapes + 5;
        }
      }
      assert s[..|s|] == s;
    }

    /** The copying loop of `print_string_ptr`. */
    method StoreEscaped(at: nat, s: cstring)
      requires Valid() && at + |Escape(s)| <= length
      modifies buffer
      ensures buffer[..at + |Escape(s)|] == old(buffer[..at]) + Escape(s)
    {
      var p := at;
      for i := 0 to |s|
        invariant p == at + |Escape(s[..i])| <= length
        invariant buffer[..p] == old(buffer[..at]) + Escape(s[..i])
      {
        EscapeStep(s, i);
        Assoc(old(buffer[..at]), Escape(s[..i]), EscapeByte(s[i]));
        Store(p, EscapeByte(s[i]));
        p := p + |EscapeByte(s[i])|;
      }
      assert s[..|s|] == s;
    }

    /** The quoted string and its NUL, written at the offset. */
    method StoreQuoted(s: cstring, plain: bool)
      requires Valid() && offset + |Quoted(s)| + 1 <= length
      requires plain ==> |Escape(s)| == |s|
      modifies buffer
      ensures Holds(old(Written()), Quoted(s))
    {
      var at := offset + 1;
      var end := at + |Escape(s)|;
      Store(offset, [QUOTE]);
      if plain {
        EscapeIdentity(s);
        Store(at, s);
      } else {
        StoreEscaped(at, s);
      }
      ghost var before := old(Written());
      Assoc(before, [QUOTE], Escape(s));
      Assoc(before, [QUOTE] + Escape(s), [QUOTE]);
      StoreEnd(end, [QUOTE]);
    }

    /** `print_string_ptr` */
    method PrintString(s: cstring) returns (ok: bool)
      requires Valid()
      modifies this, buffer
      ensures Limit() == old(Limit()) && (buffer == old(buffer) || (!noalloc && fresh(buffer)))
      ensures ok <==> Room(old(offset), |Quoted(s)|)
      ensures ok ==> depth == old(depth) && Holds(old(Written()), Quoted(s))
    {
      var escapes := CountEscapes(s);
      var size := |s| + escapes;
      ok := Ensure(size + 3);
      if !ok {
        return;
      }
      StoreQuoted(s, escapes == 0);
    }

    method PrintValue(t: Json) returns (ok: bool)
      requires Valid() && AllInts(t)
      modifies this, buffer
      ensures Limit() == old(Limit()) && (buffer == old(buffer) || (!noalloc && fresh(buffer)))
      ensures ok <==> Room(old(offset), |Text(t, format, old(depth))|) && old(depth) + Nesting(t) <= NESTING_LIMIT
      ensures ok ==> depth == old(depth) && Holds(old(Written()), Text(t, format, old(depth)))
      decreases Nodes(t), 1
    {
      match t
      case Null => ok := PrintWord(NULL_TEXT);
      case False => ok := PrintWord(FALSE_TEXT);
      case True => ok := PrintWord(TRUE_TEXT);
      case Number(d) => ok := PrintNumber(d);
      case String(s) => ok := PrintString(s);
      case Array(items) => ok := PrintArray(t);
      case Object(members) => ok := PrintObject(t);
    }

    /** Ask for `needed` bytes, store a text there (and a NUL after it), and move past the text. */
    method Append(needed: nat, text: bytes, nul: bool) returns (ok: bool)
      requires Valid() && |text| + (if nul then 1 else 0) <= needed
      modifies this, buffer
      ensures Limit() == old(Limit()) && (buffer == old(buffer) || (!noalloc && fresh(buffer)))
      ensures ok <==> old(offset) + needed + 1 <= Limit()
      ensures ok ==> Valid() && depth == old(depth) && Written() == old(Written()) + text
    {
      ok := Ensure(needed);
      if ok {
        if nul {
          StoreEnd(offset, text);
        } else {
          Store(offset, text);
        }
        offset := offset + |text|;
      }
    }

    /** One turn of the loop of `print_array`: an element and the separator after it. */
    method PrintItem(item: Json, more: bool) returns (ok: bool)
      requires Valid() && AllInts(item)
      modifies this, buffer
      ensures Limit() == old(Limit()) && (buffer == old(buffer) || (!noalloc && fresh(buffer)))
      ensures ok <==> Room(old(offset), |ItemText(item, more, format, old(depth))|)
                      && old(depth) + Nesting(item) <= NESTING_LIMIT
      ensures ok ==> Valid() && depth == old(depth)
      ensures ok ==> Written() == old(Written()) + ItemText(item, more, format, depth)
      decreases Nodes(item), 2
    {
      Assoc(Written(), Text(item, format, depth), ItemEnd(more, format));
      ok := PrintValue(item);
      if ok {
        TextNoNul(item, format, depth);
        UpdateOffset(old(Written()), Text(item, format, depth));
        if more {
          var end := ItemEnd(true, format);
          ok := Append(|end| + 1, end, true);
        }
      }
    }

    /** The loop of `print_array`. */
    method PrintItems(items: seq<Json>) returns (ok: bool)
      requires Valid() && ItemsAllInts(items)
      modifies this, buffer
      ensures Limit() == old(Limit()) && (buffer == old(buffer) || (!noalloc && fresh(buffer)))
      ensures ok <==> items == [] || (Room(old(offset), |ItemsText(items, format, old(depth))|)
                                      && old(depth) + ItemsNesting(items) <= NESTING_LIMIT)
      ensures ok ==> Valid() && depth == old(depth)
      ensures ok ==> Written() == old(Written()) + ItemsText(items, format, depth)
      decreases ItemsNodes(items), 4
    {
      var rest := items;
      ghost var before, done: bytes := Written(), [];
      ghost var all := ItemsText(items, format, depth);
      while rest != []
        invariant ItemsAllInts(rest) && ItemsNodes(rest) <= ItemsNodes(items)
        invariant Valid() && depth == old(depth) && Limit() == old(Limit())
        invariant buffer == old(buffer) || (!noalloc && fresh(buffer))
        invariant Written() == before + done && done + ItemsText(rest, format, depth) == all
        invariant rest == items || offset + 2 <= Limit()
        invariant depth + ItemsNesting(rest) <= NESTING_LIMIT <==> depth + ItemsNesting(items) <= NESTING_LIMIT
        decreases |rest|
      {
        ok, done := PrintNextItem(rest, before, done, all);
        if !ok {
          return;
        }
        rest := rest[1..];
      }
      ok := true;
    }

    /** One turn of that loop. */
    method PrintNextItem(rest: seq<Json>, ghost before: bytes, ghost done: bytes, ghost all: bytes)
      returns (ok: bool, ghost more: bytes)
      requires Valid() && rest != [] && ItemsAllInts(rest)
      requires Written() == before + done && done + ItemsText(rest, format, depth) == all
      modifies this, buffer
      ensures Limit() == old(Limit()) && (buffer == old(buffer) || (!noalloc && fresh(buffer)))
      ensures !ok ==> !Room(|before|, |all|) || old(depth) + ItemsNesting(rest) > NESTING_LIMIT
      ensures ok ==> Valid() && depth == old(depth) && offset + 2 <= Limit()
      ensures ok ==> Written() == before + more && more + ItemsText(rest[1..], format, depth) == all
      ensures ok ==>
        (depth + ItemsNesting(rest) <= NESTING_LIMIT <==> depth + ItemsNesting(rest[1..]) <= NESTING_LIMIT)
      decreases ItemsNodes(rest), 3
    {
      NextItem(before, done, rest, all, format, depth);
      more := done + ItemText(rest[0], |rest| > 1, format, depth);
      ok := PrintItem(rest[0], |rest| > 1);
    }

    /** Start a container, unless it nests too deeply. */
    method Open(needed: nat, text: bytes) returns (ok: bool)
      requires Valid() && |text| <= needed
      modifies this, buffer
      ensures Limit() == old(Limit()) && (buffer == old(buffer) || (!noalloc && fresh(buffer)))
      ensures ok <==> old(depth) < NESTING_LIMIT && old(offset) + needed + 1 <= Limit()
      ensures ok ==> Valid() && depth == old(depth) + 1 && Written() == old(Written()) + text
    {
      if depth >= NESTING_LIMIT {
        return false;
      }
      ok := Append(needed, text, false);
      if ok {
        depth := depth + 1;
      }
    }

    method PrintArray(t: Json) returns (ok: bool)
      requires Valid() && AllInts(t) && t.Array?
      modifies this, buffer
      ensures Limit() == old(Limit()) && (buffer == old(buffer) || (!noalloc && fresh(buffer)))
      ensures ok <==> Room(old(offset), |Text(t, format, old(depth))|) && old(depth) + Nesting(t) <= NESTING_LIMIT
      ensures ok ==> depth == old(depth) && Holds(old(Written()), Text(t, format, old(depth)))
      decreases Nodes(t), 0
    {
      ghost var inner := ItemsText(t.items, format, depth + 1);
      assert Text(t, format, depth) == ([OPEN_BRACKET] + inner) + [CLOSE_BRACKET];
      ok := Open(1, [OPEN_BRACKET]);
      if !ok {
        return;
      }
      ok := PrintItems(t.items);
      if ok {
        Assoc(old(Written()), [OPEN_BRACKET], inner);
        ok := Finish(2, [CLOSE_BRACKET], old(Written()), [OPEN_BRACKET] + inner);
      }
    }

    /** One turn of the loop of `print_object`: indentation, key, value and what follows it. */
    method PrintMember(m: Member, more: bool) returns (ok: bool)
      requires Valid() && AllInts(m.value)
      modifies this, buffer
      ensures Limit() == old(Limit()) && (buffer == old(buffer) || (!noalloc && fresh(buffer)))
      ensures ok <==> Room(old(offset), |MemberText(m, more, format, old(depth))|)
                      && old(depth) + Nesting(m.value) <= NESTING_LIMIT
      ensures ok ==> Valid() && depth == old(depth)
      ensures ok ==> Written() == old(Written()) + MemberText(m, more, format, depth)
      decreases Nodes(m.value), 2
    {
      ghost var text, end := Text(m.value, format, depth), MemberEnd(more, format);
      Assoc(Written(), KeyText(m.key, format, depth), text);
      Assoc(Written(), KeyText(m.key, format, depth) + text, end);
      ok := PrintKey(m.key);
      if !ok {
        return;
      }
      ghost var here := Written();
      ok := PrintValue(m.value);
      if !ok {
        return;
      }
      TextNoNul(m.value, format, depth);
      UpdateOffset(here, text);
      var tail := MemberEnd(more, format);
      ok := Append(|tail| + 1, tail, true);
    }

    /** The part of that turn before the value. */
    method PrintKey(key: cstring) returns (ok: bool)
      requires Valid()
      modifies this, buffer
      ensures Limit() == old(Limit()) && (buffer == old(buffer) || (!noalloc && fresh(buffer)))
      ensures ok <==> old(offset) + |KeyText(key, format, old(depth))| + 1 <= Limit()
      ensures ok ==> Valid() && depth == old(depth) && Written() == old(Written()) + KeyText(key, format, depth)
    {
      KeyParts(Written(), key, format, depth);
      ghost var here := Written() + If(format, Tabs(depth));
      if format {
        ok := Append(depth, Tabs(depth), false);
        if !ok {
          return;
        }
      }
      ok := PrintString(key);
      if !ok {
        return;
      }
      QuotedNoNul(key);
      UpdateOffset(here, Quoted(key));
      var end := [COLON] + If(format, [TAB]);
      ok := Append(|end|, end, false);
    }

    /** The loop of `print_object`. */
    method PrintMembers(members: seq<Member>) returns (ok: bool)
      requires Valid() && MembersAllInts(members)
      modifies this, buffer
      ensures Limit() == old(Limit()) && (buffer == old(buffer) || (!noalloc && fresh(buffer)))
      ensures ok <==> members == [] || (Room(old(offset), |MembersText(members, format, old(depth))|)
                                        && old(depth) + MembersNesting(members) <= NESTING_LIMIT)
      ensures ok ==> Valid() && depth == old(depth)
      ensures ok ==> Written() == old(Written()) + MembersText(members, format, depth)
      decreases MembersNodes(members), 4
    {
      var rest := members;
      ghost var before, done: bytes := Written(), [];
      ghost var all := MembersText(members, format, depth);
      while rest != []
        invariant MembersAllInts(rest) && MembersNodes(rest) <= MembersNodes(members)
        invariant Valid() && depth == old(depth) && Limit() == old(Limit())
        invariant buffer == old(buffer) || (!noalloc && fresh(buffer))
        invariant Written() == before + done && done + MembersText(rest, format, depth) == all
        invariant rest == members || offset + 2 <= Limit()
        invariant depth + MembersNesting(rest) <= NESTING_LIMIT <==> depth + MembersNesting(members) <= NESTING_LIMIT
        decreases |rest|
      {
        ok, done := PrintNextMember(rest, before, done, all);
        if !ok {
          return;
        }
        rest := rest[1..];
      }
      ok := true;
    }

    /** One turn of that loop. */
    method PrintNextMember(rest: seq<Member>, ghost before: bytes, ghost done: bytes, ghost all: bytes)
      returns (ok: bool, ghost more: bytes)
      requires Valid() && rest != [] && MembersAllInts(rest)
      requires Written() == before + done && done + MembersText(rest, format, depth) == all
      modifies this, buffer
      ensures Limit() == old(Limit()) && (buffer == old(buffer) || (!noalloc && fresh(buffer)))
      ensures !ok ==> !Room(|before|, |all|) || old(depth) + MembersNesting(rest) > NESTING_LIMIT
      ensures ok ==> Valid() && depth == old(depth) && offset + 2 <= Limit()
      ensures ok ==> Written() == before + more && more + MembersText(rest[1..], format, depth) == all
      ensures ok ==>
        (depth + MembersNesting(rest) <= NESTING_LIMIT <==> depth + MembersNesting(rest[1..]) <= NESTING_LIMIT)
      decreases MembersNodes(rest), 3
    {
      NextMember(before, done, rest, all, format, depth);
      more := done + MemberText(rest[0], |rest| > 1, format, depth);
      ok := PrintMember(rest[0], |rest| > 1);
    }

    method PrintObject(t: Json) returns (ok: bool)
      requires Valid() && AllInts(t) && t.Object?
      modifies this, buffer
      ensures Limit() == old(Limit()) && (buffer == old(buffer) || (!noalloc && fresh(buffer)))
      ensures ok <==> Room(old(offset), |Text(t, format, old(depth))|) && old(depth) + Nesting(t) <= NESTING_LIMIT
      ensures ok ==> depth == old(depth) && Holds(old(Written()), Text(t, format, old(depth)))
      decreases Nodes(t), 0
    {
      ObjectParts(Written(), t, format, depth);
      ghost var inner := MembersText(t.members, format, depth + 1);
      var open, close := ObjectOpen(format), ObjectClose(format, depth);
      ok := Open(|open| + 1, open);
      if !ok {
        return;
      }
      ok := PrintMembers(t.members);
      if ok {
        ok := Finish(if format then depth + 1 else 2, close, old(Written()), open + inner);
      }
    }

    /** Close a container: the last text of it, with its NUL, the offset left before it. */
    method Finish(needed: nat, stored: bytes, ghost before: bytes, ghost middle: bytes) returns (ok: bool)
      requires Valid() && |stored| + 1 <= needed && depth > 0 && Written() == before + middle
      modifies this, buffer
      ensures Limit() == old(Limit()) && (buffer == old(buffer) || (!noalloc && fresh(buffer)))
      ensures ok <==> old(offset) + needed + 1 <= Limit()
      ensures ok ==> depth == old(depth) - 1 && Holds(before, middle + stored)
    {
      ok := Ensure(needed);
      if ok {
        StoreEnd(offset, stored);
        Assoc(before, middle, stored);
        depth := depth - 1;
      }
    }
  }

  const DEFAULT_BUFFER_SIZE: nat := 256

  /** `cJSON_Print` and `cJSON_PrintUnformatted`: the string returned, or None. */
  method Print(t: Json, fmt: bool) returns (printed: Option<cstring>)
    requires AllInts(t)
    ensures printed == if Nesting(t) <= NESTING_LIMIT && |Text(t, fmt, 0)| + 2 <= INT_MAX
                       then Some(Text(t, fmt, 0)) else None
  {
    var bytes := new byte[DEFAULT_BUFFER_SIZE];
    var p := new PrintBuffer(bytes, DEFAULT_BUFFER_SIZE, false, fmt);
    assert p.Written() == [];
    var ok := p.PrintValue(t);
    if !ok {
      return None;
    }
    TextNoNul(t, fmt, 0);
    p.UpdateOffset([], Text(t, fmt, 0));
    assert [] + Text(t, fmt, 0) == Text(t, fmt, 0);
    return Some(p.buffer[..p.offset]);
  }

  /**
   `cJSON_PrintPreallocated`: printing into a buffer of `length` bytes succeeds exactly when
   that is at least two more than the text needs, and then the buffer holds the text.
   */
  method PrintPreallocated(t: Json, buffer: array<byte>, length: int, fmt: bool) returns (ok: bool)
    requires AllInts(t) && length <= buffer.Length && length <= INT_MAX
    modifies buffer
    ensures ok <==> length >= |Text(t, fmt, 0)| + 2 && Nesting(t) <= NESTING_LIMIT
    ensures ok ==> buffer[..|Text(t, fmt, 0)|] == Text(t, fmt, 0) && buffer[|Text(t, fmt, 0)|] == 0
  {
    if length < 0 {
      return false;
    }
    var p := new PrintBuffer(buffer, length, true, fmt);
    assert p.Written() == [];
    ok := p.PrintValue(t);
    if ok {
      assert [] + Text(t, fmt, 0) == Text(t, fmt, 0);
    }
  }
}
