/** The text that `cJSON_Print` (`fmt`) and `cJSON_PrintUnformatted` give, as a value. */
module JsonText {
  import opened Bytes
  import opened Json

  function HexDigit(n: nat): byte
    requires n < 16
  {
    if n < 10 then ZERO + n else 0x61 + (n - 10)
  }

  function EscapeByte(c: byte): (r: bytes)
    ensures 1 <= |r| <= 6
    ensures 0 !in r
  {
    if c == QUOTE || c == BACKSLASH then [BACKSLASH, c]
    else if c == 0x08 then [BACKSLASH, LOWER_B]
    else if c == 0x0C then [BACKSLASH, LOWER_F]
    else if c == NEWLINE then [BACKSLASH, LOWER_N]
    else if c == RETURN then [BACKSLASH, LOWER_R]
    else if c == TAB then [BACKSLASH, LOWER_T]
    else if c < 32 then [BACKSLASH, LOWER_U, ZERO, ZERO, HexDigit(c / 16), HexDigit(c % 16)]
    else [c]
  }

  function Escape(s: bytes): (r: bytes)
    ensures |r| >= |s|
  {
    if s == [] then [] else EscapeByte(s[0]) + Escape(s[1..])
  }

  function Quoted(s: bytes): bytes {
    [QUOTE] + Escape(s) + [QUOTE]
  }

  function Digits(n: nat): (r: bytes)
    ensures |r| >= 1
    ensures forall i :: 0 <= i < |r| ==> IsDigit(r[i])
  {
    if n < 10 then [ZERO + n] else Digits(n / 10) + [ZERO + n % 10]
  }

  /** `sprintf("%d", n)`. */
  function IntText(n: int): bytes {
    if n < 0 then [MINUS] + Digits(-n) else Digits(n)
  }

  function Tabs(n: nat): (r: bytes)
    ensures |r| == n
    ensures forall i :: 0 <= i < n ==> r[i] == TAB
  {
    if n == 0 then [] else [TAB] + Tabs(n - 1)
  }

  function If(fmt: bool, s: bytes): bytes {
    if fmt then s else []
  }

  function Text(t: Json, fmt: bool, depth: nat): bytes
    requires AllInts(t)
    decreases t, 0
  {
    match t
    case Null => NULL_TEXT
    case False => FALSE_TEXT
    case True => TRUE_TEXT
    case Number(d) => IntText(ValueInt(d))
    case String(s) => Quoted(s)
    case Array(items) => [OPEN_BRACKET] + ItemsText(items, fmt, depth + 1) + [CLOSE_BRACKET]
    case Object(members) =>
      ObjectOpen(fmt) + MembersText(members, fmt, depth + 1) + ObjectClose(fmt, depth)
  }

  function ObjectOpen(fmt: bool): (r: bytes)
    ensures |r| == if fmt then 2 else 1
  {
    [OPEN_BRACE] + If(fmt, [NEWLINE])
  }

  function ObjectClose(fmt: bool, depth: nat): (r: bytes)
    ensures |r| == if fmt then depth + 1 else 1
  {
    If(fmt, Tabs(depth)) + [CLOSE_BRACE]
  }

  function ItemsText(items: seq<Json>, fmt: bool, depth: nat): bytes
    requires ItemsAllInts(items)
    decreases items, 3
  {
    if items == [] then []
    else ItemText(items[0], |items| > 1, fmt, depth) + ItemsText(items[1..], fmt, depth)
  }

  function ItemText(item: Json, more: bool, fmt: bool, depth: nat): bytes
    requires AllInts(item)
    decreases item, 2
  {
    Text(item, fmt, depth) + ItemEnd(more, fmt)
  }

  function ItemEnd(more: bool, fmt: bool): bytes {
    if more then [COMMA] + If(fmt, [SPACE]) else []
  }

  function MembersText(members: seq<Member>, fmt: bool, depth: nat): bytes
    requires MembersAllInts(members)
    decreases members, 3
  {
    if members == [] then []
    else MemberText(members[0], |members| > 1, fmt, depth) + MembersText(members[1..], fmt, depth)
  }

  function MemberText(m: Member, more: bool, fmt: bool, depth: nat): bytes
    requires AllInts(m.value)
    decreases m, 2
  {
    KeyText(m.key, fmt, depth) + Text(m.value, fmt, depth) + MemberEnd(more, fmt)
  }

  function KeyText(key: bytes, fmt: bool, depth: nat): bytes {
    If(fmt, Tabs(depth)) + Quoted(key) + [COLON] + If(fmt, [TAB])
  }

  function MemberEnd(more: bool, fmt: bool): bytes {
    (if more then [COMMA] else []) + If(fmt, [NEWLINE])
  }

  // ---------- no NUL byte is ever printed

  lemma {:induction false} EscapeNoNul(s: bytes)
    ensures 0 !in Escape(s)
  {
    if s != [] {
      EscapeNoNul(s[1..]);
    }
  }

  lemma QuotedNoNul(s: bytes)
    ensures 0 !in Quoted(s)
  {
    EscapeNoNul(s);
  }

  lemma {:induction false} TextNoNul(t: Json, fmt: bool, depth: nat)
    requires AllInts(t)
    ensures 0 !in Text(t, fmt, depth) && |Text(t, fmt, depth)| > 0
    decreases t, 0
  {
    match t
    case String(s) => EscapeNoNul(s);
    case Array(items) => ItemsNoNul(items, fmt, depth + 1);
    case Object(members) => MembersNoNul(members, fmt, depth + 1);
    case _ =>
  }

  lemma {:induction false} ItemsNoNul(items: seq<Json>, fmt: bool, depth: nat)
    requires ItemsAllInts(items)
    ensures 0 !in ItemsText(items, fmt, depth)
    decreases items, 1
  {
    if items != [] {
      TextNoNul(items[0], fmt, depth);
      ItemsNoNul(items[1..], fmt, depth);
    }
  }

  lemma {:induction false} MembersNoNul(members: seq<Member>, fmt: bool, depth: nat)
    requires MembersAllInts(members)
    ensures 0 !in MembersText(members, fmt, depth)
    decreases members, 1
  {
    if members != [] {
      EscapeNoNul(members[0].key);
      TextNoNul(members[0].value, fmt, depth);
      MembersNoNul(members[1..], fmt, depth);
    }
  }

  // ---------- accounting

  lemma {:induction false} EscapeConcat(a: bytes, b: bytes)
    ensures Escape(a + b) == Escape(a) + Escape(b)
  {
    if a == [] {
      assert [] + b == b;
    } else {
      assert a + b == [a[0]] + (a[1..] + b);
      EscapeConcat(a[1..], b);
    }
  }

  lemma EscapeStep(s: bytes, i: nat)
    requires i < |s|
    ensures Escape(s[..i + 1]) == Escape(s[..i]) + EscapeByte(s[i])
    ensures |Escape(s[..i + 1])| <= |Escape(s)|
  {
    assert s[..i + 1] == s[..i] + [s[i]];
    EscapeConcat(s[..i], [s[i]]);
    assert [s[i]][1..] == [];
    assert s == s[..i + 1] + s[i + 1..];
    EscapeConcat(s[..i + 1], s[i + 1..]);
  }

  lemma {:induction false} EscapeIdentity(s: bytes)
    requires |Escape(s)| == |s|
    ensures Escape(s) == s
  {
    if s != [] {
      EscapeIdentity(s[1..]);
    }
  }

  function Pow10(k: nat): (r: nat)
    ensures r > 0
  {
    if k == 0 then 1 else 10 * Pow10(k - 1)
  }

  lemma {:induction false} DigitsShort(n: nat, k: nat)
    requires k >= 1 && n < Pow10(k)
    ensures |Digits(n)| <= k
  {
    if n >= 10 {
      DigitsShort(n / 10, k - 1);
    }
  }

  /** `print_number` never overruns its 26-byte buffer. */
  lemma IntTextShort(n: int)
    requires INT_MIN <= n <= INT_MAX
    ensures 1 <= |IntText(n)| <= 11
  {
    assert Pow10(10) == 10_000_000_000 by {
      assert Pow10(5) == 100_000;
      assert Pow10(8) == 100_000_000;
    }
    DigitsShort(if n < 0 then -n else n, 10);
  }

  lemma Assoc(a: bytes, b: bytes, c: bytes)
    ensures (a + b) + c == a + (b + c)
  {
  }

  lemma OneFurther(before: bytes, done: bytes, text: bytes, rest: bytes)
    ensures done + (text + rest) == (done + text) + rest
    ensures (before + done) + text == before + (done + text)
    ensures rest == [] ==> text + rest == text
  {
  }

  /** One element further along the array whose text is `all`, after `before`. */
  lemma {:induction false} NextItem(before: bytes, done: bytes, rest: seq<Json>, all: bytes, fmt: bool, depth: nat)
    requires rest != [] && ItemsAllInts(rest) && done + ItemsText(rest, fmt, depth) == all
    ensures ItemsAllInts(rest[1..]) && AllInts(rest[0])
    ensures var text := ItemText(rest[0], |rest| > 1, fmt, depth);
      && (done + text) + ItemsText(rest[1..], fmt, depth) == all && |done| + |text| <= |all|
      && (before + done) + text == before + (done + text)
      && (|rest| == 1 ==> done + text == all)
    ensures ItemsNesting(rest) == MaxOf(Nesting(rest[0]), ItemsNesting(rest[1..]))
  {
    OneFurther(before, done, ItemText(rest[0], |rest| > 1, fmt, depth), ItemsText(rest[1..], fmt, depth));
  }

  lemma {:induction false} NextMember(before: bytes, done: bytes, rest: seq<Member>, all: bytes, fmt: bool, depth: nat)
    requires rest != [] && MembersAllInts(rest) && done + MembersText(rest, fmt, depth) == all
    ensures MembersAllInts(rest[1..]) && AllInts(rest[0].value)
    ensures var text := MemberText(rest[0], |rest| > 1, fmt, depth);
      && (done + text) + MembersText(rest[1..], fmt, depth) == all && |done| + |text| <= |all|
      && (before + done) + text == before + (done + text)
      && (|rest| == 1 ==> done + text == all)
    ensures MembersNesting(rest) == MaxOf(Nesting(rest[0].value), MembersNesting(rest[1..]))
  {
    OneFurther(before, done, MemberText(rest[0], |rest| > 1, fmt, depth), MembersText(rest[1..], fmt, depth));
  }

  lemma ObjectParts(before: bytes, t: Json, fmt: bool, depth: nat)
    requires t.Object? && AllInts(t)
    ensures var inner := MembersText(t.members, fmt, depth + 1);
      && Text(t, fmt, depth) == (ObjectOpen(fmt) + inner) + ObjectClose(fmt, depth)
      && |Text(t, fmt, depth)| == |ObjectOpen(fmt)| + |inner| + |ObjectClose(fmt, depth)|
      && (before + ObjectOpen(fmt)) + inner == before + (ObjectOpen(fmt) + inner)
    ensures Nesting(t) == 1 + MembersNesting(t.members) && MembersAllInts(t.members)
    ensures Nodes(t) == 1 + MembersNodes(t.members)
  {
  }

  lemma KeyParts(before: bytes, key: bytes, fmt: bool, depth: nat)
    ensures var tabs, name, colon := If(fmt, Tabs(depth)), Quoted(key), [COLON] + If(fmt, [TAB]);
      && KeyText(key, fmt, depth) == (tabs + name) + colon
      && (before + tabs) + name == before + (tabs + name)
      && (before + (tabs + name)) + colon == before + ((tabs + name) + colon)
      && (!fmt ==> before + tabs == before)
      && |KeyText(key, fmt, depth)| == |tabs| + |name| + |colon|
  {
  }
}
