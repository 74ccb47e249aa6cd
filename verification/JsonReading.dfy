/**
 What the parser of `src/cJSON.c` computes, as functions on the whole buffer and a position:
 the value read and the position after it, or None.
 */
module JsonReading {
  import opened Wrappers
  import opened Bytes
  import opened Json
  import opened Utf16

  datatype Read<+T> = Read(value: T, next: nat)

  // ---------- white space

  function NextNonBlank(s: bytes, p: nat): (q: nat)
    requires p <= |s|
    ensures p <= q <= |s| && (q < |s| ==> s[q] > 32)
    decreases |s| - p
  {
    if p < |s| && s[p] <= 32 then NextNonBlank(s, p + 1) else p
  }

  /** `buffer_skip_whitespace`, which steps back onto the last byte rather than leave the buffer. */
  function Skip(s: bytes, p: nat): (q: nat)
    requires p <= |s|
    ensures p <= q <= |s| && (p < |s| ==> q < |s|)
    ensures p < |s| && s[p] > 32 ==> q == p
  {
    var q := NextNonBlank(s, p);
    if p < |s| && q == |s| then q - 1 else q
  }

  predicate LooksAt(s: bytes, p: nat, c: byte) {
    p < |s| && s[p] == c
  }

  // ---------- strings

  /** The first pass of `parse_string`: the closing quote, stepping over escaped bytes. */
  function ScanEnd(s: bytes, i: nat): (r: Option<nat>)
    requires i <= |s|
    ensures r.Some? ==> i <= r.value < |s| && s[r.value] == QUOTE
    decreases |s| - i
  {
    if i == |s| then None
    else if s[i] == QUOTE then Some(i)
    else if s[i] == BACKSLASH then if i + 1 >= |s| then None else ScanEnd(s, i + 2)
    else ScanEnd(s, i + 1)
  }

  /** The bytes and escapes that the first pass counts from `i` on. */
  function Tokens(s: bytes, i: nat, end: nat): nat
    requires end <= |s|
    decreases end - i
  {
    if i >= end then 0
    else if s[i] == BACKSLASH then 1 + Tokens(s, i + 2, end)
    else 1 + Tokens(s, i + 1, end)
  }

  /** The byte that a two-byte escape stands for. */
  function SimpleEscape(c: byte): Option<byte> {
    if c == LOWER_B then Some(0x08)
    else if c == LOWER_F then Some(0x0C)
    else if c == LOWER_N then Some(NEWLINE)
    else if c == LOWER_R then Some(RETURN)
    else if c == LOWER_T then Some(TAB)
    else if c == QUOTE || c == BACKSLASH || c == SLASH then Some(c)
    else None
  }

  /** One turn of the second pass: the bytes stored and how far it moves. */
  function Chunk(s: bytes, i: nat, end: nat): (r: Option<Piece>)
    requires i < end < |s|
    ensures r.Some? ==> 1 <= r.value.length && i + r.value.length <= end + 1 && 1 <= |r.value.output| <= 4
  {
    if s[i] != BACKSLASH then Some(Piece(1, [s[i]]))
    else if SimpleEscape(s[i + 1]).Some? then Some(Piece(2, [SimpleEscape(s[i + 1]).value]))
    else if s[i + 1] == LOWER_U then Literal(s, i, end)
    else None
  }

  /** The second pass from `i` to the closing quote at `end`, with `done` already stored. */
  function Unescape(s: bytes, i: nat, end: nat, done: bytes): Option<bytes>
    requires i <= end + 1 && end < |s|
    decreases end + 1 - i
  {
    if i >= end then Some(done)
    else
      match Chunk(s, i, end)
      case None => None
      case Some(piece) => Unescape(s, i + piece.length, end, done + piece.output)
  }

  function ReadString(s: bytes, p: nat): (r: Option<Read<cstring>>)
    requires p < |s|
    ensures r.Some? ==> p < r.value.next <= |s|
  {
    if s[p] != QUOTE then None
    else
      match ScanEnd(s, p + 1)
      case None => None
      case Some(end) =>
        match Unescape(s, p + 1, end, [])
        case None => None
        case Some(out) => Some(Read(CString(out), end + 1))
  }

  // ---------- numbers

  predicate IsNumberByte(c: byte) {
    IsDigit(c) || c == PLUS || c == MINUS || c == LOWER_E || c == UPPER_E || c == DOT
  }

  /** The end of the run of bytes that `parse_number` copies. */
  function RunEnd(s: bytes, p: nat): (q: nat)
    requires p <= |s|
    ensures p <= q <= |s|
    decreases |s| - p
  {
    if p < |s| && IsNumberByte(s[p]) then RunEnd(s, p + 1) else p
  }

  function DigitsEnd(r: bytes, i: nat): (j: nat)
    requires i <= |r|
    ensures i <= j <= |r| && forall k :: i <= k < j ==> IsDigit(r[k])
    decreases |r| - i
  {
    if i < |r| && IsDigit(r[i]) then DigitsEnd(r, i + 1) else i
  }

  function DigitsValue(r: bytes, i: nat, j: nat): nat
    requires i <= j <= |r| && forall k :: i <= k < j ==> IsDigit(r[k])
  {
    if i == j then 0
    else
      assert IsDigit(r[j - 1]);
      DigitsValue(r, i, j - 1) * 10 + (r[j - 1] - ZERO)
  }

  /** The number with its point moved `k` places to the right. */
  function Shift(x: real, k: int): real
    decreases if k < 0 then -k else k
  {
    if k == 0 then x else if k > 0 then Shift(x * 10.0, k - 1) else Shift(x / 10.0, k + 1)
  }

  /** The number with these digits before the point, and these, `places` of them, after it. */
  function Scaled(negative: bool, whole: nat, fraction: nat, places: nat, exponent: int): real {
    var size := Shift(whole as real + Shift(fraction as real, 0 - places), exponent);
    if negative then -size else size
  }

  /**
   `strtod` on text made of digits, signs, points and exponent letters: the longest prefix
   that is a decimal number and its value, without rounding; nothing consumed if there is none.
   */
  function Strtod(r: bytes): (n: Read<real>)
    ensures n.next <= |r|
  {
    var start := if |r| > 0 && (r[0] == PLUS || r[0] == MINUS) then 1 else 0;
    var whole := DigitsEnd(r, start);
    var point := if LooksAt(r, whole, DOT) then whole + 1 else whole;
    var frac := if point > whole then DigitsEnd(r, point) else whole;
    if whole == start && frac == point then Read(0.0, 0)
    else
      var (exponent, next) := ReadExponent(r, frac);
      Read(Scaled(LooksAt(r, 0, MINUS), DigitsValue(r, start, whole), DigitsValue(r, point, frac), frac - point,
                  exponent), next)
  }

  function ReadExponent(r: bytes, i: nat): (e: (int, nat))
    requires i <= |r|
    ensures i <= e.1 <= |r|
  {
    if !LooksAt(r, i, LOWER_E) && !LooksAt(r, i, UPPER_E) then (0, i)
    else
      var from := if LooksAt(r, i + 1, PLUS) || LooksAt(r, i + 1, MINUS) then i + 2 else i + 1;
      var to := DigitsEnd(r, from);
      var size: int := if to == from then 0 else DigitsValue(r, from, to);
      if to == from then (0, i)
      else (if LooksAt(r, i + 1, MINUS) then -size else size, to)
  }

  function ReadNumber(s: bytes, p: nat): (r: Option<Read<Json>>)
    requires p <= |s|
    ensures r.Some? ==> p < r.value.next <= |s| && r.value.value.Number?
  {
    var n := Strtod(s[p..RunEnd(s, p)]);
    if n.next == 0 then None else Some(Read(Number(n.value), p + n.next))
  }

  // ---------- values

  predicate HasWord(s: bytes, p: nat, word: bytes) {
    p + |word| <= |s| && forall i {:trigger word[i]} :: 0 <= i < |word| ==> s[p + i] == word[i]
  }

  function ReadValue(s: bytes, p: nat, depth: nat): (r: Option<Read<Json>>)
    requires p <= |s|
    ensures r.Some? ==> p < r.value.next <= |s|
    decreases |s| - p, 1
  {
    if HasWord(s, p, NULL_TEXT) then Some(Read(Null, p + 4))
    else if HasWord(s, p, FALSE_TEXT) then Some(Read(False, p + 5))
    else if HasWord(s, p, TRUE_TEXT) then Some(Read(True, p + 4))
    else if LooksAt(s, p, QUOTE) then
      match ReadString(s, p)
      case None => None
      case Some(r) => Some(Read(String(r.value), r.next))
    else if p < |s| && (s[p] == MINUS || IsDigit(s[p])) then ReadNumber(s, p)
    else if LooksAt(s, p, OPEN_BRACKET) then ReadArray(s, p, depth)
    else if LooksAt(s, p, OPEN_BRACE) then ReadObject(s, p, depth)
    else None
  }

  function ReadArray(s: bytes, p: nat, depth: nat): (r: Option<Read<Json>>)
    requires p < |s|
    ensures r.Some? ==> p < r.value.next <= |s|
    decreases |s| - p, 0
  {
    if depth >= NESTING_LIMIT then None
    else
      var first := Skip(s, p + 1);
      if LooksAt(s, first, CLOSE_BRACKET) then Some(Read(Array([]), first + 1))
      else if first >= |s| then None
      else
        match ReadItems(s, first, depth + 1, [])
        case None => None
        case Some(r) => Some(Read(Array(r.value), r.next))
  }

  /** The list of `done` and the elements from `p` on, and the position after the closing bracket. */
  function ReadItems(s: bytes, p: nat, depth: nat, done: seq<Json>): (r: Option<Read<seq<Json>>>)
    requires p <= |s|
    ensures r.Some? ==> p < r.value.next <= |s|
    decreases |s| - p, 3
  {
    match ReadItem(s, p, depth)
    case None => None
    case Some(v) =>
      var list := done + [v.value];
      if LooksAt(s, v.next, COMMA) then ReadItems(s, v.next + 1, depth, list)
      else if LooksAt(s, v.next, CLOSE_BRACKET) then Some(Read(list, v.next + 1))
      else None
  }

  /** An element with the white space around it. */
  function ReadItem(s: bytes, p: nat, depth: nat): (r: Option<Read<Json>>)
    requires p <= |s|
    ensures r.Some? ==> p < r.value.next <= |s|
    decreases |s| - p, 2
  {
    match ReadValue(s, Skip(s, p), depth)
    case None => None
    case Some(v) => Some(Read(v.value, Skip(s, v.next)))
  }

  function ReadObject(s: bytes, p: nat, depth: nat): (r: Option<Read<Json>>)
    requires p < |s|
    ensures r.Some? ==> p < r.value.next <= |s|
    decreases |s| - p, 0
  {
    if depth >= NESTING_LIMIT then None
    else
      var first := Skip(s, p + 1);
      if LooksAt(s, first, CLOSE_BRACE) then Some(Read(Object([]), first + 1))
      else if first >= |s| then None
      else
        match ReadMembers(s, first, depth + 1, [])
        case None => None
        case Some(r) => Some(Read(Object(r.value), r.next))
  }

  /** The list of `done` and the members from `p` on, and the position after the closing brace. */
  function ReadMembers(s: bytes, p: nat, depth: nat, done: seq<Member>): (r: Option<Read<seq<Member>>>)
    requires p <= |s|
    ensures r.Some? ==> p < r.value.next <= |s|
    decreases |s| - p, 3
  {
    match ReadMember(s, p, depth)
    case None => None
    case Some(v) =>
      var list := done + [v.value];
      if LooksAt(s, v.next, COMMA) then ReadMembers(s, v.next + 1, depth, list)
      else if LooksAt(s, v.next, CLOSE_BRACE) then Some(Read(list, v.next + 1))
      else None
  }

  /** A key and its colon, then a value, with the white space around them. */
  function ReadMember(s: bytes, p: nat, depth: nat): (r: Option<Read<Member>>)
    requires p <= |s|
    ensures r.Some? ==> p < r.value.next <= |s|
    decreases |s| - p, 2
  {
    match ReadKey(s, p)
    case None => None
    case Some(key) =>
      match ReadItem(s, key.next, depth)
      case None => None
      case Some(v) => Some(Read(Member(key.value, v.value), v.next))
  }

  function ReadKey(s: bytes, p: nat): (r: Option<Read<cstring>>)
    requires p <= |s|
    ensures r.Some? ==> p < r.value.next <= |s|
  {
    if p == |s| then None
    else
      match ReadString(s, Skip(s, p))
      case None => None
      case Some(key) =>
        var colon := Skip(s, key.next);
        if LooksAt(s, colon, COLON) then Some(Read(key.value, colon + 1)) else None
  }

  // ---------- entry points

  /** `skip_utf8_bom` at the start of the buffer. */
  function SkipBom(s: bytes): (p: nat)
    ensures p <= |s|
  {
    if |s| > 4 && s[..3] == [0xEF, 0xBB, 0xBF] then 3 else 0
  }

  /** `cJSON_ParseWithLengthOpts`: the value, and where the parse ended. */
  function ReadDocument(s: bytes, requireNul: bool): (r: Option<Read<Json>>)
    ensures r.Some? ==> r.value.next <= |s|
  {
    if s == [] then None
    else
      match ReadValue(s, Skip(s, SkipBom(s)), 0)
      case None => None
      case Some(r) =>
        if !requireNul then Some(r)
        else
          var end := Skip(s, r.next);
          if LooksAt(s, end, 0) then Some(Read(r.value, end)) else None
  }

  // ---------- what is read nests no deeper than the limit

  lemma {:induction false} ItemsNestingAppend(items: seq<Json>, v: Json)
    ensures ItemsNesting(items + [v]) == MaxOf(ItemsNesting(items), Nesting(v))
  {
    if items == [] {
      assert [] + [v] == [v];
    } else {
      assert items + [v] == [items[0]] + (items[1..] + [v]);
      ItemsNestingAppend(items[1..], v);
    }
  }

  lemma {:induction false} MembersNestingAppend(members: seq<Member>, m: Member)
    ensures MembersNesting(members + [m]) == MaxOf(MembersNesting(members), Nesting(m.value))
  {
    if members == [] {
      assert [] + [m] == [m];
    } else {
      assert members + [m] == [members[0]] + (members[1..] + [m]);
      MembersNestingAppend(members[1..], m);
    }
  }

  /** Every value that the parser accepts at a nesting depth stays within the limit, and moves the cursor forward. */
  lemma {:induction false} ValueNests(s: bytes, p: nat, depth: nat)
    requires p <= |s| && depth <= NESTING_LIMIT
    ensures ReadValue(s, p, depth).Some? ==>
              depth + Nesting(ReadValue(s, p, depth).value.value) <= NESTING_LIMIT
              && p < ReadValue(s, p, depth).value.next <= |s|
    decreases |s| - p, 1
  {
    var r := ReadValue(s, p, depth);
    if r.Some? && depth < NESTING_LIMIT {
      if r.value.value.Array? && r.value.value.items != [] {
        ItemsNest(s, Skip(s, p + 1), depth + 1, []);
      } else if r.value.value.Object? && r.value.value.members != [] {
        MembersNest(s, Skip(s, p + 1), depth + 1, []);
      }
    }
  }

  lemma {:induction false} ItemsNest(s: bytes, p: nat, depth: nat, done: seq<Json>)
    requires p <= |s| && depth + ItemsNesting(done) <= NESTING_LIMIT
    ensures ReadItems(s, p, depth, done).Some? ==>
              depth + ItemsNesting(ReadItems(s, p, depth, done).value.value) <= NESTING_LIMIT
    decreases |s| - p, 3
  {
    ValueNests(s, Skip(s, p), depth);
    var item := ReadItem(s, p, depth);
    if item.Some? {
      ItemsNestingAppend(done, item.value.value);
      if LooksAt(s, item.value.next, COMMA) {
        ItemsNest(s, item.value.next + 1, depth, done + [item.value.value]);
      }
    }
  }

  lemma {:induction false} MembersNest(s: bytes, p: nat, depth: nat, done: seq<Member>)
    requires p <= |s| && depth + MembersNesting(done) <= NESTING_LIMIT
    ensures ReadMembers(s, p, depth, done).Some? ==>
              depth + MembersNesting(ReadMembers(s, p, depth, done).value.value) <= NESTING_LIMIT
    decreases |s| - p, 3
  {
    var m := ReadMember(s, p, depth);
    if m.Some? {
      var key := ReadKey(s, p).value;
      ValueNests(s, Skip(s, key.next), depth);
      assert m.value.value.value == ReadItem(s, key.next, depth).value.value;
      MembersNestingAppend(done, m.value.value);
      if LooksAt(s, m.value.next, COMMA) {
        MembersNest(s, m.value.next + 1, depth, done + [m.value.value]);
      }
    }
  }

  /** No document nests deeper than the limit, whatever the bytes. */
  lemma DocumentNests(s: bytes, requireNul: bool)
    ensures ReadDocument(s, requireNul).Some? ==> Nesting(ReadDocument(s, requireNul).value.value) <= NESTING_LIMIT
  {
    if s != [] {
      ValueNests(s, Skip(s, SkipBom(s)), 0);
    }
  }
}
