/** Which trees' formatted text minifies to exactly their unformatted text. */
module MinifyText {
  import opened Bytes
  import opened Json
  import opened JsonText
  import opened MinifySpec
  import opened Wrappers
  import JsonReading
  import JsonRoundTrip

  // ---------- the condition

  /** A string whose closing quote the minifier recognises. */
  predicate EndsClean(s: bytes) {
    s == [] || s[|s| - 1] != BACKSLASH
  }

  /** No key and no string of the tree ends in a backslash. */
  predicate Clean(t: Json)
    decreases t, 0
  {
    match t
    case String(s) => EndsClean(s)
    case Array(items) => ItemsClean(items)
    case Object(members) => MembersClean(members)
    case _ => true
  }

  predicate ItemsClean(items: seq<Json>)
    decreases items, 1
  {
    items != [] ==> Clean(items[0]) && ItemsClean(items[1..])
  }

  predicate MembersClean(members: seq<Member>)
    decreases members, 1
  {
    members != [] ==> EndsClean(members[0].key) && Clean(members[0].value) && MembersClean(members[1..])
  }

  /**
   At most the very last string ends in a backslash, and only closing brackets of arrays come
   after it: text that the minifier then takes for part of the string, but that holds no white space.
   */
  predicate TailSafe(t: Json)
    decreases t, 0
  {
    match t
    case Array(items) => ItemsTailSafe(items)
    case Object(members) => MembersClean(members)
    case _ => true
  }

  predicate ItemsTailSafe(items: seq<Json>)
    decreases items, 1
  {
    items != [] ==> TailSafe(items[0]) && (|items| > 1 ==> Clean(items[0]) && ItemsTailSafe(items[1..]))
  }

  lemma {:induction false} CleanIsTailSafe(t: Json)
    requires Clean(t)
    ensures TailSafe(t)
    decreases t, 0
  {
    if t.Array? {
      CleanItemsAreTailSafe(t.items);
    }
  }

  lemma {:induction false} CleanItemsAreTailSafe(items: seq<Json>)
    requires ItemsClean(items)
    ensures ItemsTailSafe(items)
    decreases items, 1
  {
    if items != [] {
      CleanIsTailSafe(items[0]);
      CleanItemsAreTailSafe(items[1..]);
    }
  }

  // ---------- runs of bytes

  /** The state that a text leaves the minifier in: between tokens, or still inside a string. */
  function Continue(clean: bool, rest: bytes): bytes {
    if clean then Min(rest) else Str(rest)
  }

  predicate IsPlain(c: byte) {
    !IsBlank(c) && c != SLASH && c != QUOTE
  }

  lemma {:induction false} MinPlain(a: bytes, rest: bytes)
    requires forall i :: 0 <= i < |a| ==> IsPlain(a[i])
    ensures Min(a + rest) == a + Min(rest)
  {
    if a == [] {
      assert a + rest == rest;
    } else {
      assert (a + rest)[1..] == a[1..] + rest;
      MinPlain(a[1..], rest);
      assert a == [a[0]] + a[1..];
    }
  }

  lemma {:induction false} MinBlank(a: bytes, rest: bytes)
    requires forall i :: 0 <= i < |a| ==> IsBlank(a[i])
    ensures Min(a + rest) == Min(rest)
  {
    if a == [] {
      assert a + rest == rest;
    } else {
      assert (a + rest)[1..] == a[1..] + rest;
      MinBlank(a[1..], rest);
    }
  }

  lemma {:induction false} StrStep(a: bytes, rest: bytes)
    requires a != [] && QUOTE !in a && (a[|a| - 1] == BACKSLASH && rest != [] ==> rest[0] != QUOTE)
    ensures Str(a + rest) == [a[0]] + Str(a[1..] + rest)
  {
    var s := a + rest;
    assert s[1..] == a[1..] + rest;
    assert s[0] == a[0];
    if |a| > 1 {
      assert s[1] == a[1];
    }
  }

  /** Inside a string, bytes without quotes are copied, provided what follows cannot pair with a backslash. */
  lemma {:induction false} StrCopies(a: bytes, rest: bytes)
    requires QUOTE !in a && (a != [] && a[|a| - 1] == BACKSLASH && rest != [] ==> rest[0] != QUOTE)
    ensures Str(a + rest) == a + Str(rest)
  {
    if a == [] {
      assert a + rest == rest;
    } else {
      var b := a[1..];
      StrStep(a, rest);
      assert b != [] ==> b[|b| - 1] == a[|a| - 1];
      StrCopies(b, rest);
      Assoc([a[0]], b, Str(rest));
      assert a == [a[0]] + b;
    }
  }

  // ---------- strings

  lemma EscapeByteQuote(c: byte)
    ensures c == QUOTE ==> EscapeByte(c) == [BACKSLASH, QUOTE]
    ensures c != QUOTE ==> QUOTE !in EscapeByte(c)
    ensures EscapeByte(c)[|EscapeByte(c)| - 1] == BACKSLASH <==> c == BACKSLASH
    ensures EscapeByte(c)[0] != QUOTE
  {
  }

  /** The body of a printed string is copied; its closing quote ends it unless the string ends in a backslash. */
  lemma {:induction false} StrEscaped(s: bytes, rest: bytes)
    ensures Str(Escape(s) + ([QUOTE] + rest)) == (Escape(s) + [QUOTE]) + Continue(EndsClean(s), rest)
    decreases |s|
  {
    if s == [] {
      assert Escape(s) + ([QUOTE] + rest) == [QUOTE] + rest;
    } else {
      if s[1..] == [] {
        assert s == [s[0]];
        LastChunk(s[0], rest);
        assert Escape(s) == EscapeByte(s[0]);
      } else {
        var first, tail := EscapeByte(s[0]), Escape(s[1..]);
        StrEscaped(s[1..], rest);
        EscapeByteQuote(s[1]);
        StrChunk(s[0], tail + ([QUOTE] + rest));
        Regroup(first, tail, [QUOTE], rest, Continue(EndsClean(s), rest));
        assert Escape(s) == first + tail && EndsClean(s) == EndsClean(s[1..]);
      }
    }
  }

  lemma Regroup(a: bytes, b: bytes, c: bytes, rest: bytes, z: bytes)
    ensures (a + b) + (c + rest) == a + (b + (c + rest))
    ensures a + ((b + c) + z) == ((a + b) + c) + z
  {
  }

  /** An escaped byte that no quote follows. */
  lemma {:induction false} StrChunk(c: byte, rest: bytes)
    requires rest == [] || rest[0] != QUOTE
    ensures Str(EscapeByte(c) + rest) == EscapeByte(c) + Str(rest)
  {
    EscapeByteQuote(c);
    if c == QUOTE {
      assert (EscapeByte(c) + rest)[2..] == rest;
    } else {
      StrCopies(EscapeByte(c), rest);
    }
  }

  /** The second of two backslashes hides the quote. */
  lemma HiddenQuote(rest: bytes)
    ensures Str([BACKSLASH, BACKSLASH, QUOTE] + rest) == [BACKSLASH, BACKSLASH, QUOTE] + Str(rest)
  {
    var s := [BACKSLASH, BACKSLASH, QUOTE] + rest;
    assert s[1..] == [BACKSLASH, QUOTE] + rest;
    assert s[1..][2..] == rest;
  }

  /** The last escaped byte with the closing quote after it. */
  lemma LastChunk(c: byte, rest: bytes)
    ensures Str(EscapeByte(c) + ([QUOTE] + rest)) == (EscapeByte(c) + [QUOTE]) + Continue(c != BACKSLASH, rest)
  {
    var s := EscapeByte(c) + ([QUOTE] + rest);
    EscapeByteQuote(c);
    assert ([QUOTE] + rest)[1..] == rest;
    if c == BACKSLASH {
      HiddenQuote(rest);
      assert s == [BACKSLASH, BACKSLASH, QUOTE] + rest;
    } else if c == QUOTE {
      assert s[2..] == [QUOTE] + rest;
    } else {
      StrCopies(EscapeByte(c), [QUOTE] + rest);
    }
  }

  lemma MinQuoted(s: bytes, rest: bytes)
    ensures Min(Quoted(s) + rest) == Quoted(s) + Continue(EndsClean(s), rest)
  {
    StrEscaped(s, rest);
    QuoteOpens(Escape(s) + ([QUOTE] + rest));
    Assoc([QUOTE] + Escape(s), [QUOTE], rest);
    Regroup([QUOTE], Escape(s), [QUOTE], rest, Continue(EndsClean(s), rest));
  }

  lemma QuoteOpens(rest: bytes)
    ensures Min([QUOTE] + rest) == [QUOTE] + Str(rest)
  {
    assert ([QUOTE] + rest)[1..] == rest;
  }

  // ---------- trees that survive

  lemma IntTextIsPlain(n: int)
    ensures forall i :: 0 <= i < |IntText(n)| ==> IsPlain(IntText(n)[i])
  {
  }

  /** Closing brackets look the same in both states. */
  lemma CloseCopied(clean: bool, rest: bytes)
    ensures Continue(clean, [CLOSE_BRACKET] + rest) == [CLOSE_BRACKET] + Continue(clean, rest)
  {
    assert ([CLOSE_BRACKET] + rest)[1..] == rest;
  }

  lemma MinCons(c: byte, rest: bytes)
    requires IsPlain(c)
    ensures Min([c] + rest) == [c] + Min(rest)
  {
    MinPlain([c], rest);
  }

  lemma Bracketed(open: bytes, inner: bytes, close: bytes, rest: bytes)
    ensures ((open + inner) + close) + rest == open + (inner + (close + rest))
  {
  }

  /**
   The formatted text of a tail-safe tree minifies to its unformatted text, and leaves the
   minifier between tokens exactly if the tree is clean.
   */
  lemma {:induction false} MinText(t: Json, depth: nat, rest: bytes)
    requires AllInts(t) && TailSafe(t)
    ensures Min(Text(t, true, depth) + rest) == Text(t, false, depth) + Continue(Clean(t), rest)
    decreases t, 0
  {
    match t
    case Null => MinPlain(NULL_TEXT, rest);
    case False => MinPlain(FALSE_TEXT, rest);
    case True => MinPlain(TRUE_TEXT, rest);
    case Number(d) =>
      IntTextIsPlain(ValueInt(d));
      MinPlain(IntText(ValueInt(d)), rest);
    case String(s) => MinQuoted(s, rest);
    case Array(items) =>
      var inner, closed := ItemsText(items, true, depth + 1), [CLOSE_BRACKET] + rest;
      Bracketed([OPEN_BRACKET], inner, [CLOSE_BRACKET], rest);
      MinCons(OPEN_BRACKET, inner + closed);
      MinItems(items, depth + 1, closed);
      CloseCopied(ItemsClean(items), rest);
      Bracketed([OPEN_BRACKET], ItemsText(items, false, depth + 1), [CLOSE_BRACKET], Continue(ItemsClean(items), rest));
    case Object(members) =>
      MinObject(members, depth, rest);
  }

  lemma {:induction false} MinItems(items: seq<Json>, depth: nat, rest: bytes)
    requires ItemsAllInts(items) && ItemsTailSafe(items)
    ensures Min(ItemsText(items, true, depth) + rest)
         == ItemsText(items, false, depth) + Continue(ItemsClean(items), rest)
    decreases items, 1
  {
    if items == [] {
      assert [] + rest == rest;
    } else if |items| == 1 {
      OneItem(items, true, depth);
      OneItem(items, false, depth);
      MinText(items[0], depth, rest);
    } else {
      var tail := ItemsText(items[1..], true, depth) + rest;
      var text, back := Text(items[0], false, depth), ItemsText(items[1..], false, depth);
      MoreItems(items, true, depth, rest);
      MinText(items[0], depth, [COMMA, SPACE] + tail);
      SkipComma(SPACE, tail);
      MinItems(items[1..], depth, rest);
      MoreItems(items, false, depth, Continue(ItemsClean(items), rest));
    }
  }

  lemma OneItem(items: seq<Json>, fmt: bool, depth: nat)
    requires |items| == 1 && ItemsAllInts(items)
    ensures ItemsText(items, fmt, depth) == Text(items[0], fmt, depth)
  {
    assert items[1..] == [];
  }

  lemma MoreItems(items: seq<Json>, fmt: bool, depth: nat, rest: bytes)
    requires |items| > 1 && ItemsAllInts(items)
    ensures ItemsText(items, fmt, depth) + rest
         == Text(items[0], fmt, depth) + (ItemEnd(true, fmt) + (ItemsText(items[1..], fmt, depth) + rest))
    ensures ItemEnd(true, fmt) == if fmt then [COMMA, SPACE] else [COMMA]
  {
  }

  /** Between tokens, a comma and the white space after it. */
  lemma SkipComma(blank: byte, rest: bytes)
    requires IsBlank(blank)
    ensures Min([COMMA, blank] + rest) == [COMMA] + Min(rest)
  {
    assert [COMMA, blank] + rest == [COMMA] + ([blank] + rest);
    MinCons(COMMA, [blank] + rest);
    MinBlank([blank], rest);
  }

  lemma {:induction false} MinObject(members: seq<Member>, depth: nat, rest: bytes)
    requires MembersAllInts(members) && MembersClean(members)
    ensures Min(Text(Object(members), true, depth) + rest) == Text(Object(members), false, depth) + Min(rest)
    decreases members, 3
  {
    var inner, back := MembersText(members, true, depth + 1), MembersText(members, false, depth + 1);
    var close := ObjectClose(true, depth);
    ObjectStarts(members, depth, rest);
    MinMembers(members, depth + 1, close + rest);
    MinClose(depth, rest);
    Bracketed([OPEN_BRACE], back, [CLOSE_BRACE], Min(rest));
    UnformattedObject(members, depth);
  }

  lemma UnformattedObject(members: seq<Member>, depth: nat)
    requires MembersAllInts(members)
    ensures Text(Object(members), false, depth)
         == ([OPEN_BRACE] + MembersText(members, false, depth + 1)) + [CLOSE_BRACE]
  {
    assert ObjectOpen(false) == [OPEN_BRACE];
    assert ObjectClose(false, depth) == [CLOSE_BRACE];
  }

  /** The opening brace is kept, the new line after it dropped. */
  lemma ObjectStarts(members: seq<Member>, depth: nat, rest: bytes)
    requires MembersAllInts(members)
    ensures Min(Text(Object(members), true, depth) + rest)
         == [OPEN_BRACE] + Min(MembersText(members, true, depth + 1) + (ObjectClose(true, depth) + rest))
  {
    var after := MembersText(members, true, depth + 1) + (ObjectClose(true, depth) + rest);
    Bracketed(ObjectOpen(true), MembersText(members, true, depth + 1), ObjectClose(true, depth), rest);
    Assoc([OPEN_BRACE], [NEWLINE], after);
    MinCons(OPEN_BRACE, [NEWLINE] + after);
    MinBlank([NEWLINE], after);
  }

  lemma MinClose(depth: nat, rest: bytes)
    ensures Min(ObjectClose(true, depth) + rest) == [CLOSE_BRACE] + Min(rest)
  {
    Assoc(Tabs(depth), [CLOSE_BRACE], rest);
    MinBlank(Tabs(depth), [CLOSE_BRACE] + rest);
    MinCons(CLOSE_BRACE, rest);
  }

  lemma {:induction false} MinMembers(members: seq<Member>, depth: nat, rest: bytes)
    requires MembersAllInts(members) && MembersClean(members)
    ensures Min(MembersText(members, true, depth) + rest) == MembersText(members, false, depth) + Min(rest)
    decreases members, 2
  {
    if members == [] {
      assert [] + rest == rest;
    } else {
      var m, more := members[0], |members| > 1;
      var tail := MembersText(members[1..], true, depth) + rest;
      MembersSplit(members, true, depth, rest);
      MinKey(m.key, depth, Text(m.value, true, depth) + (MemberEnd(more, true) + tail));
      CleanIsTailSafe(m.value);
      MinText(m.value, depth, MemberEnd(more, true) + tail);
      MinMemberEnd(more, tail);
      MinMembers(members[1..], depth, rest);
      MembersSplit(members, false, depth, Min(rest));
    }
  }

  lemma MembersSplit(members: seq<Member>, fmt: bool, depth: nat, rest: bytes)
    requires members != [] && MembersAllInts(members)
    ensures MembersText(members, fmt, depth) + rest
         == KeyText(members[0].key, fmt, depth)
            + (Text(members[0].value, fmt, depth)
               + (MemberEnd(|members| > 1, fmt) + (MembersText(members[1..], fmt, depth) + rest)))
  {
    var m, more, tail := members[0], |members| > 1, MembersText(members[1..], fmt, depth);
    Nested(KeyText(m.key, fmt, depth), Text(m.value, fmt, depth), MemberEnd(more, fmt), tail, rest);
    assert MembersText(members, fmt, depth) == MemberText(m, more, fmt, depth) + tail;
  }

  lemma Nested(a: bytes, b: bytes, c: bytes, d: bytes, rest: bytes)
    ensures (((a + b) + c) + d) + rest == a + (b + (c + (d + rest)))
  {
  }

  /** A key's line up to the tab: the tabs go, and the state after it depends on the key. */
  lemma KeyScanned(key: bytes, depth: nat, rest: bytes)
    ensures Min(KeyText(key, true, depth) + rest) == Quoted(key) + Continue(EndsClean(key), [COLON, TAB] + rest)
  {
    var after := [COLON, TAB] + rest;
    assert KeyText(key, true, depth) + rest == Tabs(depth) + (Quoted(key) + after);
    MinBlank(Tabs(depth), Quoted(key) + after);
    MinQuoted(key, after);
  }

  lemma MinKey(key: bytes, depth: nat, rest: bytes)
    requires EndsClean(key)
    ensures Min(KeyText(key, true, depth) + rest) == KeyText(key, false, depth) + Min(rest)
  {
    KeyScanned(key, depth, rest);
    assert [COLON, TAB] + rest == [COLON] + ([TAB] + rest);
    MinCons(COLON, [TAB] + rest);
    MinBlank([TAB], rest);
    UnformattedKey(key, depth);
    Assoc(Quoted(key), [COLON], Min(rest));
  }

  lemma UnformattedKey(key: bytes, depth: nat)
    ensures KeyText(key, false, depth) == Quoted(key) + [COLON]
  {
    assert [] + Quoted(key) == Quoted(key);
  }

  lemma MinMemberEnd(more: bool, rest: bytes)
    ensures Min(MemberEnd(more, true) + rest) == MemberEnd(more, false) + Min(rest)
  {
    if more {
      assert MemberEnd(more, true) == [COMMA, NEWLINE];
      SkipComma(NEWLINE, rest);
    } else {
      assert MemberEnd(more, true) == [NEWLINE];
      MinBlank([NEWLINE], rest);
    }
  }

  // ---------- trees that do not

  lemma Fork(p: bytes, o: bytes, i: nat)
    requires i < |p| && (i < |o| ==> p[i] != o[i])
    ensures !(p <= o)
  {
  }

  lemma Strip(a: bytes, p: bytes, o: bytes)
    ensures a + p <= a + o ==> p <= o
  {
    if a + p <= a + o {
      assert p == (a + p)[|a|..];
      assert o[..|p|] == (a + o)[..|a + p|][|a|..];
    }
  }

  lemma Extend(p: bytes, q: bytes, o: bytes)
    ensures p + q <= o ==> p <= o
  {
    if p + q <= o {
      assert o[..|p|] == o[..|p + q|][..|p|] == p;
    }
  }

  /** Two texts that agree on `a` and one byte more, then differ in the next one. */
  lemma Differ(a: bytes, x: byte, p: bytes, y: byte, o: bytes)
    requires p != [] && p[0] != y
    ensures !(a + ([x] + p) <= a + ([x, y] + o))
  {
    Fork(a + ([x] + p), a + ([x, y] + o), |a| + 1);
  }

  lemma NeverBlank(t: Json, fmt: bool, depth: nat)
    requires AllInts(t)
    ensures Text(t, fmt, depth) != [] && !IsBlank(Text(t, fmt, depth)[0])
  {
  }

  /** The unformatted text of any other tree is not even the start of its minified formatted text. */
  lemma {:induction false} TextDiffers(t: Json, depth: nat, rest: bytes)
    requires AllInts(t) && !TailSafe(t)
    ensures !(Text(t, false, depth) <= Min(Text(t, true, depth) + rest))
    decreases t, 0
  {
    if t.Array? {
      var inner, closed := ItemsText(t.items, true, depth + 1), [CLOSE_BRACKET] + rest;
      Bracketed([OPEN_BRACKET], inner, [CLOSE_BRACKET], rest);
      MinCons(OPEN_BRACKET, inner + closed);
      ItemsDiffer(t.items, depth + 1, closed);
      Strip([OPEN_BRACKET], ItemsText(t.items, false, depth + 1), Min(inner + closed));
      Extend([OPEN_BRACKET] + ItemsText(t.items, false, depth + 1), [CLOSE_BRACKET], Min(Text(t, true, depth) + rest));
    } else {
      var members := t.members;
      var inner, closed := MembersText(members, true, depth + 1), ObjectClose(true, depth) + rest;
      ObjectStarts(members, depth, rest);
      MembersDiffer(members, depth + 1, closed);
      Strip([OPEN_BRACE], MembersText(members, false, depth + 1) + [CLOSE_BRACE], Min(inner + closed));
      UnformattedObject(members, depth);
      Assoc([OPEN_BRACE], MembersText(members, false, depth + 1), [CLOSE_BRACE]);
    }
  }

  lemma {:induction false} ItemsDiffer(items: seq<Json>, depth: nat, rest: bytes)
    requires ItemsAllInts(items) && !ItemsTailSafe(items)
    ensures !(ItemsText(items, false, depth) <= Min(ItemsText(items, true, depth) + rest))
    decreases items, 1
  {
    if |items| == 1 {
      OneItem(items, true, depth);
      OneItem(items, false, depth);
      TextDiffers(items[0], depth, rest);
    } else {
      var tail := ItemsText(items[1..], true, depth) + rest;
      var text, back := Text(items[0], false, depth), ItemsText(items[1..], false, depth);
      var whole := Min(ItemsText(items, true, depth) + rest);
      MoreItems(items, true, depth, rest);
      MoreItems(items, false, depth, []);
      Unformatted(items, depth);
      if !TailSafe(items[0]) {
        TextDiffers(items[0], depth, [COMMA, SPACE] + tail);
        Extend(text, [COMMA] + back, whole);
      } else if Clean(items[0]) {
        MinText(items[0], depth, [COMMA, SPACE] + tail);
        SkipComma(SPACE, tail);
        ItemsDiffer(items[1..], depth, rest);
        Strip([COMMA], back, Min(tail));
        Strip(text, [COMMA] + back, [COMMA] + Min(tail));
      } else {
        MinText(items[0], depth, [COMMA, SPACE] + tail);
        StrCopies([COMMA, SPACE], tail);
        ItemsStart(items[1..], depth);
        Differ(text, COMMA, back, SPACE, Str(tail));
      }
    }
  }

  lemma Unformatted(items: seq<Json>, depth: nat)
    requires |items| > 1 && ItemsAllInts(items)
    ensures ItemsText(items, false, depth)
         == Text(items[0], false, depth) + ([COMMA] + ItemsText(items[1..], false, depth))
  {
  }

  lemma ItemsStart(items: seq<Json>, depth: nat)
    requires items != [] && ItemsAllInts(items)
    ensures ItemsText(items, false, depth) != [] && !IsBlank(ItemsText(items, false, depth)[0])
  {
    NeverBlank(items[0], false, depth);
  }

  lemma {:induction false} MembersDiffer(members: seq<Member>, depth: nat, rest: bytes)
    requires MembersAllInts(members) && !MembersClean(members)
    ensures !(MembersText(members, false, depth) + [CLOSE_BRACE] <= Min(MembersText(members, true, depth) + rest))
    decreases members, 2
  {
    var m, more := members[0], |members| > 1;
    var tail := MembersText(members[1..], true, depth) + rest;
    var back := MembersText(members[1..], false, depth) + [CLOSE_BRACE];
    var text, ended := Text(m.value, false, depth), MemberEnd(more, true) + tail;
    var valued := Text(m.value, true, depth) + ended;
    MembersSplit(members, true, depth, rest);
    MembersSplit(members, false, depth, [CLOSE_BRACE]);
    if !EndsClean(m.key) {
      KeyDiffers(m.key, depth, valued, m.value, MemberEnd(more, false) + back);
    } else {
      MinKey(m.key, depth, valued);
      ValueDiffers(members, depth, tail, rest);
      Strip(KeyText(m.key, false, depth), text + (MemberEnd(more, false) + back), Min(valued));
    }
  }

  /** After a key that ends in a backslash the tab is kept. */
  lemma KeyDiffers(key: bytes, depth: nat, valued: bytes, value: Json, back: bytes)
    requires !EndsClean(key) && AllInts(value)
    ensures !(KeyText(key, false, depth) + (Text(value, false, depth) + back)
              <= Min(KeyText(key, true, depth) + valued))
  {
    var text := Text(value, false, depth);
    KeyScanned(key, depth, valued);
    StrCopies([COLON, TAB], valued);
    UnformattedKey(key, depth);
    NeverBlank(value, false, depth);
    Differ(Quoted(key), COLON, text + back, TAB, Str(valued));
    Assoc(Quoted(key), [COLON], text + back);
  }

  lemma {:induction false} ValueDiffers(members: seq<Member>, depth: nat, tail: bytes, rest: bytes)
    requires members != [] && MembersAllInts(members)
    requires !Clean(members[0].value) || !MembersClean(members[1..])
    requires tail == MembersText(members[1..], true, depth) + rest
    ensures var more, value := |members| > 1, members[0].value;
      var back := MembersText(members[1..], false, depth) + [CLOSE_BRACE];
      !(Text(value, false, depth) + (MemberEnd(more, false) + back)
        <= Min(Text(value, true, depth) + (MemberEnd(more, true) + tail)))
    decreases members, 1
  {
    var more, value := |members| > 1, members[0].value;
    var back := MembersText(members[1..], false, depth) + [CLOSE_BRACE];
    var text, ended := Text(value, false, depth), MemberEnd(more, true) + tail;
    if !TailSafe(value) {
      TextDiffers(value, depth, ended);
      Extend(text, MemberEnd(more, false) + back, Min(Text(value, true, depth) + ended));
    } else if Clean(value) {
      MinText(value, depth, ended);
      MinMemberEnd(more, tail);
      MembersDiffer(members[1..], depth, rest);
      Strip(MemberEnd(more, false), back, Min(tail));
      Strip(text, MemberEnd(more, false) + back, MemberEnd(more, false) + Min(tail));
    } else {
      MinText(value, depth, ended);
      EndDiffers(members, depth, tail);
      Strip(text, MemberEnd(more, false) + back, Str(ended));
    }
  }

  /** After a value that leaves the minifier inside a string the new line is kept. */
  lemma EndDiffers(members: seq<Member>, depth: nat, tail: bytes)
    requires members != [] && MembersAllInts(members)
    ensures !(MemberEnd(|members| > 1, false) + (MembersText(members[1..], false, depth) + [CLOSE_BRACE])
              <= Str(MemberEnd(|members| > 1, true) + tail))
  {
    var back := MembersText(members[1..], false, depth) + [CLOSE_BRACE];
    if |members| > 1 {
      assert MemberEnd(true, true) == [COMMA, NEWLINE];
      StrCopies([COMMA, NEWLINE], tail);
      MembersStart(members[1..], depth);
      assert back[0] == QUOTE;
      Fork([COMMA] + back, [COMMA, NEWLINE] + Str(tail), 1);
    } else {
      assert MemberEnd(false, true) == [NEWLINE];
      StrCopies([NEWLINE], tail);
      assert members[1..] == [];
      Fork([CLOSE_BRACE], [NEWLINE] + Str(tail), 0);
    }
  }

  lemma MembersStart(members: seq<Member>, depth: nat)
    requires members != [] && MembersAllInts(members)
    ensures MembersText(members, false, depth) != [] && MembersText(members, false, depth)[0] == QUOTE
  {
    UnformattedKey(members[0].key, depth);
  }

  /**
   Minifying the formatted print gives exactly the unformatted print if and only if the tree is
   tail-safe.
   */
  lemma {:induction false} MinifyUnformats(t: Json)
    requires AllInts(t)
    ensures Min(Text(t, true, 0)) == Text(t, false, 0) <==> TailSafe(t)
  {
    assert Text(t, true, 0) + [] == Text(t, true, 0);
    if TailSafe(t) {
      MinText(t, 0, []);
    } else {
      TextDiffers(t, 0, []);
    }
  }

  /** The array of a single backslash and null. */
  const ODD: Json := Array([String([BACKSLASH]), Null])

  const ODD_START: bytes := [OPEN_BRACKET, QUOTE, BACKSLASH, BACKSLASH, QUOTE, COMMA]

  lemma OddText(fmt: bool)
    ensures AllInts(ODD) && !TailSafe(ODD)
    ensures Text(ODD, fmt, 0) == ODD_START + If(fmt, [SPACE]) + NULL_TEXT + [CLOSE_BRACKET]
  {
    var items, key: bytes := ODD.items, [BACKSLASH];
    assert items[1..] == [Null] && [Null][1..] == [];
    assert key[1..] == [] && Escape(key) == [BACKSLASH, BACKSLASH];
    assert ItemsText([Null], fmt, 1) == NULL_TEXT;
    assert ItemText(items[0], true, fmt, 1) == Quoted(key) + ([COMMA] + If(fmt, [SPACE]));
  }

  /** Here the space behind the comma is kept: the second backslash hides the closing quote. */
  lemma BackslashKeepsSpace()
    ensures AllInts(ODD) && Min(Text(ODD, true, 0)) == Text(ODD, true, 0) != Text(ODD, false, 0)
  {
    OddText(true);
    OddText(false);
    var text, tail := Text(ODD, true, 0), [COMMA, SPACE] + NULL_TEXT + [CLOSE_BRACKET];
    assert text[1..][1..] == [BACKSLASH, BACKSLASH, QUOTE] + tail;
    HiddenQuote(tail);
    StrCopies(tail, []);
    assert tail + [] == tail;
    assert |text| == |Text(ODD, false, 0)| + 1;
  }

  /** In particular it does whenever no key and no string ends in a backslash. */
  lemma {:induction false} CleanTextUnformats(t: Json)
    requires AllInts(t) && Clean(t)
    ensures Min(Text(t, true, 0)) == Text(t, false, 0)
  {
    CleanIsTailSafe(t);
    MinifyUnformats(t);
  }

  /** Then parsing the minified text gives the tree back. */
  lemma MinifiedTextParses(t: Json, requireNul: bool)
    requires AllInts(t) && Nesting(t) <= NESTING_LIMIT && TailSafe(t)
    ensures JsonReading.ReadDocument(Min(Text(t, true, 0)) + [0], requireNul)
         == Some(JsonReading.Read(t, |Min(Text(t, true, 0))|))
  {
    MinifyUnformats(t);
    JsonRoundTrip.PrintedTextParses(t, false, requireNul);
  }
}
