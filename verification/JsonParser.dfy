/**
 The parser of `src/cJSON.c`: a cursor over a byte buffer, moved forwards (and in places one
 step back) by the `parse_` functions. Each method computes the function of `JsonReading` at
 its cursor; every indexed read and every store into the string being built is in bounds.
 */
module JsonParser {
  import opened Wrappers
  import opened Bytes
  import opened Json
  import opened Utf16
  import opened JsonReading

  // ---------- the two passes of parse_string

  lemma {:induction false} PlainTokens(s: bytes, j: nat, n: nat, end: nat)
    requires j + n <= end <= |s| && BACKSLASH !in s[j..j + n]
    ensures Tokens(s, j, end) == n + Tokens(s, j + n, end)
    decreases n
  {
    if n > 0 {
      assert s[j..j + n][0] == s[j];
      assert s[j + 1..j + n] == s[j..j + n][1..];
      PlainTokens(s, j + 1, n - 1, end);
    }
  }

  /** Whatever the next `n` bytes are, the first pass counts at least half of them, and lands behind them or one on. */
  lemma {:induction false} Landing(s: bytes, j: nat, n: nat, end: nat) returns (over: nat)
    requires j + n <= end <= |s|
    ensures over <= 1 && 2 * Tokens(s, j, end) >= n + over + 2 * Tokens(s, j + n + over, end)
    decreases n
  {
    if n == 0 {
      over := 0;
    } else if s[j] == BACKSLASH && n == 1 {
      over := 1;
    } else if s[j] == BACKSLASH {
      over := Landing(s, j + 2, n - 2, end);
    } else {
      over := Landing(s, j + 1, n - 1, end);
    }
  }

  lemma PlainQuad(s: bytes, p: nat, end: nat)
    requires p + 4 <= end <= |s| && IsQuad(s, p)
    ensures Tokens(s, p, end) == 4 + Tokens(s, p + 4, end)
  {
    PlainTokens(s, p, 4, end);
  }

  /**
   One turn of the second pass stores no more than the first pass counted for it. The first pass
   may be one byte ahead (`over`), after taking for an escape what the second pass read as
   digits of a bad quad; then the second pass has stored one byte less than was counted.
   */
  lemma StepBound(s: bytes, i: nat, over: nat, end: nat) returns (over': nat)
    requires i < end < |s| && over <= 1 && Chunk(s, i, end).Some?
    ensures var piece := Chunk(s, i, end).value;
      over' <= 1 &&
      |piece.output| + over' + Tokens(s, i + piece.length + over', end) <= over + Tokens(s, i + over, end)
  {
    over' := 0;
    if s[i] == BACKSLASH {
      if s[i + 1] == LOWER_U {
        assert Tokens(s, i + over, end) == 1 + Tokens(s, i + 2, end);
        if !IsQuad(s, i + 2) {
          over' := Landing(s, i + 2, 4, end);
        } else {
          PlainQuad(s, i + 2, end);
          if IsHighSurrogate(Hex4(s, i + 2)) {
            assert Tokens(s, i + 6, end) == 1 + Tokens(s, i + 8, end);
            PlainQuad(s, i + 8, end);
          }
        }
      } else if over == 1 && i + 1 < end && s[i + 1] == BACKSLASH {
        over' := 1;
      }
    }
  }

  /** The length of the output buffer of `parse_string` bounds what its second pass stores, on every input. */
  lemma {:induction false} EstimateBounds(s: bytes, i: nat, over: nat, end: nat, done: bytes)
    requires i <= end + 1 && end < |s| && over <= 1
    ensures Unescape(s, i, end, done).Some? ==>
              |Unescape(s, i, end, done).value| <= |done| + over + Tokens(s, i + over, end)
    decreases end + 1 - i
  {
    if i < end && Chunk(s, i, end).Some? {
      var piece := Chunk(s, i, end).value;
      var over' := StepBound(s, i, over, end);
      EstimateBounds(s, i + piece.length, over', end, done + piece.output);
    }
  }

  class ParseBuffer {
    const content: bytes
    var offset: nat
    var depth: nat

    ghost predicate Valid()
      reads this
    {
      offset <= |content|
    }

    constructor (content: bytes)
      ensures this.content == content && offset == 0 && depth == 0
    {
      this.content, offset, depth := content, 0, 0;
    }

    /** `can_access_at_index(buffer, 0)` and the byte there is `c` */
    predicate At(c: byte)
      reads this
    {
      LooksAt(content, offset, c)
    }

    method SkipWhitespace()
      requires Valid()
      modifies this`offset
      ensures Valid() && offset == Skip(content, old(offset))
    {
      if offset >= |content| {
        return;
      }
      while offset < |content| && content[offset] <= 32
        invariant Valid() && NextNonBlank(content, offset) == NextNonBlank(content, old(offset))
      {
        offset := offset + 1;
      }
      if offset == |content| {
        offset := offset - 1;
      }
    }

    /** One turn of the second pass of `parse_string`. */
    method StoreChunk(i: nat, end: nat, output: array<byte>, at: nat) returns (ok: bool, advance: nat, stored: nat)
      requires i < end < |content| && at < output.Length
      requires Chunk(content, i, end).Some? ==> at + |Chunk(content, i, end).value.output| <= output.Length
      modifies output
      ensures ok <==> Chunk(content, i, end).Some?
      ensures ok ==> var chunk := Chunk(content, i, end).value;
        advance == chunk.length && stored == |chunk.output| && output[..at + stored] == old(output[..at]) + chunk.output
    {
      if content[i] != BACKSLASH {
        output[at] := content[i];
        return true, 1, 1;
      }
      var simple := SimpleEscape(content[i + 1]);
      if simple.Some? {
        output[at] := simple.value;
        return true, 2, 1;
      }
      if content[i + 1] != LOWER_U {
        return false, 2, 0;
      }
      advance, stored := Utf16LiteralToUtf8(content, i, end, output, at);
      ok := advance != 0;
    }

    /** The second pass, storing into a buffer of the estimated size. */
    method UnescapeInto(start: nat, end: nat, output: array<byte>) returns (ok: bool, length: nat)
      requires start <= end < |content| && output.Length == Tokens(content, start, end) + 2
      modifies output
      ensures ok <==> Unescape(content, start, end, []).Some?
      ensures ok ==> length < output.Length && Some(output[..length]) == Unescape(content, start, end, [])
    {
      var i := start;
      ghost var over, done, all := 0, [], Unescape(content, start, end, []);
      length := 0;
      while i < end
        invariant start <= i <= end + 1 && over <= 1
        invariant length + over + Tokens(content, i + over, end) <= Tokens(content, start, end)
        invariant Unescape(content, i, end, done) == all && output[..length] == done
        decreases end + 1 - i
      {
        if Chunk(content, i, end).Some? {
          over := StepBound(content, i, over, end);
        }
        var advance, stored;
        ok, advance, stored := StoreChunk(i, end, output, length);
        if !ok {
          return;
        }
        done := done + Chunk(content, i, end).value.output;
        i, length := i + advance, length + stored;
      }
      ok := true;
    }

    method ParseString() returns (ok: bool, s: cstring)
      requires Valid() && offset < |content|
      modifies this`offset
      ensures Valid() && (ok <==> ReadString(content, old(offset)).Some?)
      ensures ok ==> ReadString(content, old(offset)) == Some(Read(s, offset))
    {
      ok, s := false, [];
      if content[offset] != QUOTE {
        offset := offset + 1;
        return;
      }
      var start := offset + 1;
      var end, skipped := start, 0;
      while end < |content| && content[end] != QUOTE
        invariant start <= end <= |content|
        invariant ScanEnd(content, start) == ScanEnd(content, end)
        invariant forall e :: ScanEnd(content, end) == Some(e) ==>
                    Tokens(content, start, e) == end - start - skipped + Tokens(content, end, e)
        invariant skipped <= end - start
      {
        if content[end] == BACKSLASH {
          if end + 1 >= |content| {
            offset := start;
            return;
          }
          skipped, end := skipped + 1, end + 1;
        }
        end := end + 1;
      }
      if end >= |content| {
        offset := start;
        return;
      }
      var allocationLength := end - offset - skipped;
      var output := new byte[allocationLength + 1];
      var length;
      ok, length := UnescapeInto(start, end, output);
      if ok {
        s := CString(output[..length]);
        offset := end + 1;
      } else {
        offset := start;
      }
    }

    /** `parse_number`: copy the run of number bytes and hand it to `strtod`. */
    method ParseNumber() returns (ok: bool, v: Json)
      requires Valid()
      modifies this`offset
      ensures Valid() && (ok <==> ReadNumber(content, old(offset)).Some?)
      ensures ok ==> ReadNumber(content, old(offset)) == Some(Read(v, offset))
    {
      ok, v := false, Null;
      var i := 0;
      while offset + i < |content| && IsNumberByte(content[offset + i])
        invariant offset + i <= |content| && RunEnd(content, offset + i) == RunEnd(content, offset)
      {
        i := i + 1;
      }
      var number := Strtod(content[offset..offset + i]);
      if number.next == 0 {
        return;
      }
      ok, v := true, Number(number.value);
      offset := offset + number.next;
    }

    /** `strncmp` with a word that the buffer can still hold. */
    method Matches(word: bytes) returns (b: bool)
      requires Valid()
      ensures b <==> HasWord(content, offset, word)
    {
      b := offset + |word| <= |content|;
      if b {
        b := content[offset..offset + |word|] == word;
      }
    }

    method ParseValue() returns (ok: bool, v: Json)
      requires Valid()
      modifies this
      ensures Valid() && (ok <==> ReadValue(content, old(offset), old(depth)).Some?)
      ensures ok ==> ReadValue(content, old(offset), old(depth)) == Some(Read(v, offset)) && depth == old(depth)
      decreases |content| - offset, 1
    {
      ok, v := true, Null;
      var word := Matches(NULL_TEXT);
      if word {
        offset := offset + 4;
        return;
      }
      word := Matches(FALSE_TEXT);
      if word {
        v, offset := False, offset + 5;
        return;
      }
      word := Matches(TRUE_TEXT);
      if word {
        v, offset := True, offset + 4;
        return;
      }
      if At(QUOTE) {
        var s;
        ok, s := ParseString();
        v := String(s);
      } else if offset < |content| && (content[offset] == MINUS || IsDigit(content[offset])) {
        ok, v := ParseNumber();
      } else if At(OPEN_BRACKET) {
        ok, v := ParseArray();
      } else if At(OPEN_BRACE) {
        ok, v := ParseObject();
      } else {
        ok := false;
      }
    }

    /** Into a container, unless it nests too deeply: past the opening byte and the white space after it. */
    method Enter() returns (ok: bool)
      requires offset < |content|
      modifies this
      ensures Valid() && (ok <==> old(depth) < NESTING_LIMIT)
      ensures ok ==> depth == old(depth) + 1 && offset == Skip(content, old(offset) + 1)
    {
      if depth >= NESTING_LIMIT {
        return false;
      }
      depth, offset := depth + 1, offset + 1;
      SkipWhitespace();
      ok := true;
    }

    method ParseArray() returns (ok: bool, v: Json)
      requires Valid() && At(OPEN_BRACKET)
      modifies this
      ensures Valid() && (ok <==> ReadArray(content, old(offset), old(depth)).Some?)
      ensures ok ==> ReadArray(content, old(offset), old(depth)) == Some(Read(v, offset)) && depth == old(depth)
      decreases |content| - offset, 0
    {
      ok := Enter();
      v := Array([]);
      if !ok {
        return;
      }
      if At(CLOSE_BRACKET) {
        depth, offset := depth - 1, offset + 1;
        return;
      }
      if offset >= |content| {
        offset := offset - 1;
        return false, v;
      }
      offset := offset - 1;
      var items;
      ok, items := ParseItems();
      if ok {
        v, depth, offset := Array(items), depth - 1, offset + 1;
      }
    }

    /** One turn of the loop of `parse_array`, from the byte before the element. */
    method ParseItem() returns (ok: bool, item: Json)
      requires offset < |content|
      modifies this
      ensures Valid() && (ok <==> ReadItem(content, old(offset) + 1, old(depth)).Some?)
      ensures ok ==> ReadItem(content, old(offset) + 1, old(depth)) == Some(Read(item, offset)) && depth == old(depth)
      decreases |content| - offset - 1, 2
    {
      offset := offset + 1;
      SkipWhitespace();
      ok, item := ParseValue();
      if ok {
        SkipWhitespace();
      }
    }

    /** The list read in the end, when the cursor is after an entry and `done` has been read. */
    ghost function RestItems(done: seq<Json>): Option<Read<seq<Json>>>
      requires Valid()
      reads this
    {
      if At(COMMA) then ReadItems(content, offset + 1, depth, done)
      else if At(CLOSE_BRACKET) then Some(Read(done, offset + 1)) else None
    }

    /** A turn of the loop of `parse_array`: one more on the list, and whether a comma follows. */
    method ItemsTurn(done: seq<Json>) returns (ok: bool, items: seq<Json>)
      requires offset < |content|
      modifies this
      ensures Valid()
      ensures !ok ==> ReadItems(content, old(offset) + 1, old(depth), done).None?
      ensures ok ==> depth == old(depth) && old(offset) < offset
      ensures ok ==> ReadItems(content, old(offset) + 1, depth, done) == RestItems(items)
      decreases |content| - offset - 1, 3
    {
      items := done;
      var item;
      ok, item := ParseItem();
      if ok {
        items := done + [item];
      }
    }

    /** The loop of `parse_array`; it starts at the byte before the first element and stops at the closing bracket. */
    method ParseItems() returns (ok: bool, items: seq<Json>)
      requires offset < |content|
      modifies this
      ensures Valid() && (ok <==> ReadItems(content, old(offset) + 1, old(depth), []).Some?)
      ensures ok ==> offset < |content| && depth == old(depth)
      ensures ok ==> ReadItems(content, old(offset) + 1, old(depth), []) == Some(Read(items, offset + 1))
      decreases |content| - offset - 1, 4
    {
      ghost var all := ReadItems(content, offset + 1, depth, []);
      ok, items := ItemsTurn([]);
      while ok && At(COMMA)
        invariant Valid() && (ok ==> old(offset) < offset)
        invariant !ok ==> all.None?
        invariant ok ==> depth == old(depth) && all == RestItems(items)
        decreases ok, |content| - offset
      {
        ok, items := ItemsTurn(items);
      }
      ok := ok && At(CLOSE_BRACKET);
    }

    method ParseObject() returns (ok: bool, v: Json)
      requires Valid() && At(OPEN_BRACE)
      modifies this
      ensures Valid() && (ok <==> ReadObject(content, old(offset), old(depth)).Some?)
      ensures ok ==> ReadObject(content, old(offset), old(depth)) == Some(Read(v, offset)) && depth == old(depth)
      decreases |content| - offset, 0
    {
      ok := Enter();
      v := Object([]);
      if !ok {
        return;
      }
      if At(CLOSE_BRACE) {
        depth, offset := depth - 1, offset + 1;
        return;
      }
      if offset >= |content| {
        offset := offset - 1;
        return false, v;
      }
      offset := offset - 1;
      var members;
      ok, members := ParseMembers();
      if ok {
        v, depth, offset := Object(members), depth - 1, offset + 1;
      }
    }

    /** The name of a child and the colon after it, from the byte before the name; stops at the colon. */
    method ParseKey() returns (ok: bool, key: cstring)
      requires offset < |content|
      modifies this`offset
      ensures Valid() && (ok <==> ReadKey(content, old(offset) + 1).Some?)
      ensures ok ==> offset < |content| && ReadKey(content, old(offset) + 1) == Some(Read(key, offset + 1))
    {
      ok, key := false, [];
      if offset + 1 >= |content| {
        return;
      }
      offset := offset + 1;
      SkipWhitespace();
      ok, key := ParseString();
      if ok {
        SkipWhitespace();
        ok := At(COLON);
      }
    }

    /** One turn of the loop of `parse_object`. */
    method ParseMember() returns (ok: bool, m: Member)
      requires offset < |content|
      modifies this
      ensures Valid() && (ok <==> ReadMember(content, old(offset) + 1, old(depth)).Some?)
      ensures ok ==> ReadMember(content, old(offset) + 1, old(depth)) == Some(Read(m, offset)) && depth == old(depth)
      decreases |content| - offset - 1, 2
    {
      m := Member([], Null);
      var key, v;
      ok, key := ParseKey();
      if ok {
        ok, v := ParseItem();
        if ok {
          m := Member(key, v);
        }
      }
    }

    /** The list read in the end, when the cursor is after an entry and `done` has been read. */
    ghost function RestMembers(done: seq<Member>): Option<Read<seq<Member>>>
      requires Valid()
      reads this
    {
      if At(COMMA) then ReadMembers(content, offset + 1, depth, done)
      else if At(CLOSE_BRACE) then Some(Read(done, offset + 1)) else None
    }

    /** A turn of the loop of `parse_object`: one more on the list, and whether a comma follows. */
    method MembersTurn(done: seq<Member>) returns (ok: bool, members: seq<Member>)
      requires offset < |content|
      modifies this
      ensures Valid()
      ensures !ok ==> ReadMembers(content, old(offset) + 1, old(depth), done).None?
      ensures ok ==> depth == old(depth) && old(offset) < offset
      ensures ok ==> ReadMembers(content, old(offset) + 1, depth, done) == RestMembers(members)
      decreases |content| - offset - 1, 3
    {
      members := done;
      var m;
      ok, m := ParseMember();
      if ok {
        members := done + [m];
      }
    }

    /** The loop of `parse_object`; it starts at the byte before the first key and stops at the closing brace. */
    method ParseMembers() returns (ok: bool, members: seq<Member>)
      requires offset < |content|
      modifies this
      ensures Valid() && (ok <==> ReadMembers(content, old(offset) + 1, old(depth), []).Some?)
      ensures ok ==> offset < |content| && depth == old(depth)
      ensures ok ==> ReadMembers(content, old(offset) + 1, old(depth), []) == Some(Read(members, offset + 1))
      decreases |content| - offset - 1, 4
    {
      ghost var all := ReadMembers(content, offset + 1, depth, []);
      ok, members := MembersTurn([]);
      while ok && At(COMMA)
        invariant Valid() && (ok ==> old(offset) < offset)
        invariant !ok ==> all.None?
        invariant ok ==> depth == old(depth) && all == RestMembers(members)
        decreases ok, |content| - offset
      {
        ok, members := MembersTurn(members);
      }
      ok := ok && At(CLOSE_BRACE);
    }

    /** `skip_utf8_bom` */
    method SkipUtf8Bom()
      requires offset == 0
      modifies this`offset
      ensures Valid() && offset == SkipBom(content)
    {
      if |content| > 4 && content[..3] == [0xEF, 0xBB, 0xBF] {
        offset := offset + 3;
      }
    }
  }

  /** `cJSON_ParseWithLengthOpts`: the item, or None, and where the parse ended if it succeeded. */
  method ParseWithLengthOpts(value: bytes, requireNul: bool) returns (r: Option<Read<Json>>)
    ensures r == ReadDocument(value, requireNul)
  {
    if value == [] {
      return None;
    }
    var b := new ParseBuffer(value);
    b.SkipUtf8Bom();
    b.SkipWhitespace();
    var ok, item := b.ParseValue();
    if !ok {
      return None;
    }
    if requireNul {
      b.SkipWhitespace();
      if b.offset >= |value| || value[b.offset] != 0 {
        return None;
      }
    }
    return Some(Read(item, b.offset));
  }

  /** `cJSON_ParseWithOpts` on a NUL-terminated string: its terminator belongs to the buffer. */
  method ParseWithOpts(value: cstring, requireNul: bool) returns (r: Option<Json>)
    ensures r.Some? <==> ReadDocument(value + [0], requireNul).Some?
    ensures r.Some? ==> r.value == ReadDocument(value + [0], requireNul).value.value
  {
    var d := ParseWithLengthOpts(value + [0], requireNul);
    r := if d.None? then None else Some(d.value.value);
  }
}
