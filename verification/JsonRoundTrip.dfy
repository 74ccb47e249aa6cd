/**
 Parsing what the printer wrote gives the value back, formatted or not: printed text is one of the
 texts of the grammar for its tree.
 */
module JsonRoundTrip {
  import opened Wrappers
  import opened Bytes
  import opened Json
  import opened JsonText
  import opened Utf16
  import opened JsonReading
  import opened JsonSteps
  import opened JsonGrammar
  import opened JsonAccepts
  import opened JsonNumbers

  // ---------- strings

  /** How the printer writes a byte of a string. */
  function CharLayout(c: byte): Char {
    if c == QUOTE || c == BACKSLASH then Escaped(c)
    else if c == 0x08 then Escaped(LOWER_B)
    else if c == 0x0C then Escaped(LOWER_F)
    else if c == NEWLINE then Escaped(LOWER_N)
    else if c == RETURN then Escaped(LOWER_R)
    else if c == TAB then Escaped(LOWER_T)
    else if c < 32 then Unicode([ZERO, ZERO, HexDigit(c / 16), HexDigit(c % 16)])
    else Raw(c)
  }

  function StringLayout(s: bytes): seq<Char> {
    if s == [] then [] else [CharLayout(s[0])] + StringLayout(s[1..])
  }

  lemma HexPair(c: byte)
    requires c < 32
    ensures IsHex(HexDigit(c / 16)) && IsHex(HexDigit(c % 16))
    ensures HexValue(HexDigit(c / 16)) * 16 + HexValue(HexDigit(c % 16)) == c
  {
  }

  lemma CharLayoutIs(c: byte)
    ensures CharOk(CharLayout(c)) && CharText(CharLayout(c)) == EscapeByte(c) && CharValue(CharLayout(c)) == [c]
  {
    if CharLayout(c).Unicode? {
      HexPair(c);
      assert Hex4(CharLayout(c).quad, 0) == c;
    }
  }

  /** A byte as it is printed keeps a body closed. */
  lemma {:induction false} EscapeIsClosed(c: byte, before: bytes, after: bytes)
    requires Closed(before + EscapeByte(c) + after, |before + EscapeByte(c)|)
    ensures Closed(before + EscapeByte(c) + after, |before|)
  {
    var body, n, text := before + EscapeByte(c) + after, |before|, EscapeByte(c);
    assert forall k :: 0 <= k < |text| ==> body[n + k] == text[k];
    if |text| == 6 {
      assert Closed(body, n + 5);
      assert Closed(body, n + 4);
      assert Closed(body, n + 3);
      assert Closed(body, n + 2);
    }
  }

  lemma {:induction false} EscapedIsClosed(before: bytes, s: bytes)
    ensures Closed(before + Escape(s), |before|)
    decreases |s|
  {
    if s != [] {
      var text, rest := EscapeByte(s[0]), Escape(s[1..]);
      EscapedIsClosed(before + text, s[1..]);
      EscapeIsClosed(s[0], before, rest);
      assert before + Escape(s) == before + text + rest;
    }
  }

  lemma {:induction false} StringLayoutIs(s: bytes)
    ensures CharsOk(StringLayout(s))
    ensures CharsText(StringLayout(s)) == Escape(s) && CharsValue(StringLayout(s)) == s
  {
    if s != [] {
      CharLayoutIs(s[0]);
      StringLayoutIs(s[1..]);
    }
  }

  function QuoteLayout(s: cstring): Quote {
    Quote(Escape(s), StringLayout(s), s)
  }

  lemma {:induction false} QuoteLayoutIs(s: cstring)
    ensures QuoteOk(QuoteLayout(s)) && QuoteText(QuoteLayout(s)) == Quoted(s) && QuoteLayout(s).value == s
  {
    StringLayoutIs(s);
    EscapedIsClosed([], s);
    assert [] + Escape(s) == Escape(s);
    assert Spells(QuoteLayout(s));
  }

  /** Both passes of the string parser find the end of an escaped string, and the second gives the string back. */
  lemma {:induction false} EscapedStringReads(str: bytes, s: bytes, i: nat, end: nat, done: bytes)
    requires Shows(s, i, Escape(str)) && end == i + |Escape(str)| < |s| && s[end] == QUOTE
    ensures ScanEnd(s, i) == Some(end)
    ensures Unescape(s, i, end, done) == Some(done + str)
  {
    StringLayoutIs(str);
    EscapedIsClosed([], str);
    assert [] + Escape(str) == Escape(str);
    ClosedScans(Escape(str), 0, s, i, end);
    CharsRead(StringLayout(str), s, i, end, done);
  }

  // ---------- numbers

  function NumeralLayout(n: int): Numeral {
    Numeral(n < 0, Digits(if n < 0 then -n else n), false, [], None, n as real)
  }

  lemma {:induction false} DecimalDigits(n: nat)
    ensures Decimal(Digits(n)) == n
  {
    if n >= 10 {
      DecimalDigits(n / 10);
      assert Digits(n)[..|Digits(n)| - 1] == Digits(n / 10);
    }
  }

  lemma ScaledInteger(negative: bool, n: nat)
    ensures Scaled(negative, n, 0, 0, 0) == if negative then -(n as real) else n as real
  {
    assert Shift(0.0, 0) == 0.0;
  }

  lemma NumeralLayoutIs(n: int)
    ensures NumeralOk(NumeralLayout(n)) && NumeralText(NumeralLayout(n)) == IntText(n)
    ensures NumeralLayout(n).value == n as real
  {
    var x, size: nat := NumeralLayout(n), if n < 0 then -n else n;
    DecimalDigits(size);
    ScaledInteger(n < 0, size);
    WorthIff(x);
    assert SignText(n < 0) + x.whole + [] + [] == SignText(n < 0) + x.whole == IntText(n);
  }

  /** `strtod` takes all of a decimal integer and gives the integer. */
  lemma StrtodReads(n: int)
    ensures Strtod(IntText(n)) == Read(n as real, |IntText(n)|)
  {
    NumeralLayoutIs(n);
    ShowsItself(IntText(n));
    NumeralReads(NumeralLayout(n), IntText(n));
  }

  // ---------- values

  /** The white space of the printer: a new line and tabs before a member and before a closing brace. */
  function Break(fmt: bool, depth: nat): bytes {
    If(fmt, [NEWLINE]) + If(fmt, Tabs(depth))
  }

  function Layout(t: Json, fmt: bool, depth: nat): Syntax
    requires AllInts(t)
    decreases t, 0
  {
    match t
    case Null => NullWord
    case False => FalseWord
    case True => TrueWord
    case Number(d) => Figure(NumeralLayout(ValueInt(d)))
    case String(s) => Quotation(QuoteLayout(s))
    case Array(items) => List([], ElementsLayout(items, fmt, depth + 1, []))
    case Object(members) => Record(Break(fmt, depth), EntriesLayout(members, fmt, depth + 1, Break(fmt, depth)))
  }

  /** `lead` comes before the first element, a space before the others. */
  function ElementsLayout(items: seq<Json>, fmt: bool, depth: nat, lead: bytes): (r: seq<Element>)
    requires ItemsAllInts(items)
    ensures |r| == |items|
    decreases items, 1
  {
    if items == [] then []
    else [Element(lead, Layout(items[0], fmt, depth), [])] + ElementsLayout(items[1..], fmt, depth, If(fmt, [SPACE]))
  }

  /** `tail` comes after the last entry. */
  function EntriesLayout(members: seq<Member>, fmt: bool, depth: nat, tail: bytes): (r: seq<Entry>)
    requires MembersAllInts(members)
    ensures |r| == |members|
    decreases members, 1
  {
    if members == [] then []
    else
      var m, after := members[0], if |members| == 1 then tail else [];
      [EntryLayout(m, fmt, depth, Layout(m.value, fmt, depth), after)] + EntriesLayout(members[1..], fmt, depth, tail)
  }

  function EntryLayout(m: Member, fmt: bool, depth: nat, value: Syntax, after: bytes): Entry {
    Entry(Break(fmt, depth), QuoteLayout(m.key), [], Element(If(fmt, [TAB]), value, after))
  }

  lemma BreakIsSpace(fmt: bool, depth: nat)
    ensures Space(Break(fmt, depth))
  {
  }

  /** The layout is a text of the grammar, the printed one, and denotes the tree. */
  lemma {:induction false} LayoutIs(t: Json, fmt: bool, depth: nat)
    requires AllInts(t)
    ensures Ok(Layout(t, fmt, depth)) && Render(Layout(t, fmt, depth)) == Text(t, fmt, depth)
    ensures Value(Layout(t, fmt, depth)) == t
    decreases t, 0
  {
    match t
    case Number(d) => NumeralLayoutIs(ValueInt(d));
    case String(s) => QuoteLayoutIs(s);
    case Array(items) => ArrayLayoutIs(items, fmt, depth);
    case Object(members) => ObjectLayoutIs(members, fmt, depth);
    case _ =>
  }

  lemma {:induction false} ArrayLayoutIs(items: seq<Json>, fmt: bool, depth: nat)
    requires ItemsAllInts(items)
    ensures var x := Layout(Array(items), fmt, depth);
      Ok(x) && Render(x) == Text(Array(items), fmt, depth) && Value(x) == Array(items)
    decreases items, 2
  {
    var es, inner := ElementsLayout(items, fmt, depth + 1, []), ItemsText(items, fmt, depth + 1);
    ElementsLayoutIs(items, fmt, depth + 1, []);
    NoLead(inner);
    ListIs([], es, items, inner);
    assert Layout(Array(items), fmt, depth) == List([], es);
    assert Text(Array(items), fmt, depth) == [OPEN_BRACKET] + inner + [CLOSE_BRACKET];
  }

  lemma NoLead(inner: bytes)
    ensures [] + inner == inner
  {
  }

  lemma ListIs(gap: bytes, es: seq<Element>, items: seq<Json>, inner: bytes)
    requires Space(gap) && ElementsOk(es) && Values(es) == items
    requires inner == if es == [] then gap else ElementsText(es)
    ensures var x := List(gap, es);
      Ok(x) && Render(x) == [OPEN_BRACKET] + inner + [CLOSE_BRACKET] && Value(x) == Array(items)
  {
  }

  lemma RecordIs(gap: bytes, es: seq<Entry>, members: seq<Member>, inner: bytes)
    requires Space(gap) && EntriesOk(es) && Members(es) == members
    requires inner == if es == [] then gap else EntriesText(es)
    ensures var x := Record(gap, es);
      Ok(x) && Render(x) == [OPEN_BRACE] + inner + [CLOSE_BRACE] && Value(x) == Object(members)
  {
  }

  lemma {:induction false} ObjectLayoutIs(members: seq<Member>, fmt: bool, depth: nat)
    requires MembersAllInts(members)
    ensures var x := Layout(Object(members), fmt, depth);
      Ok(x) && Render(x) == Text(Object(members), fmt, depth) && Value(x) == Object(members)
    decreases members, 2
  {
    var line, tabs, inner := If(fmt, [NEWLINE]), If(fmt, Tabs(depth)), MembersText(members, fmt, depth + 1);
    var es := EntriesLayout(members, fmt, depth + 1, Break(fmt, depth));
    BreakIsSpace(fmt, depth);
    EntriesLayoutIs(members, fmt, depth + 1, tabs);
    Braces([OPEN_BRACE], line, inner, tabs, [CLOSE_BRACE]);
    assert members == [] ==> line + inner + tabs == Break(fmt, depth);
    RecordIs(Break(fmt, depth), es, members, line + inner + tabs);
  }

  lemma Braces(open: bytes, line: bytes, inner: bytes, tabs: bytes, close: bytes)
    ensures open + (line + inner + tabs) + close == (open + line) + inner + (tabs + close)
  {
  }

  lemma {:induction false} ElementsLayoutIs(items: seq<Json>, fmt: bool, depth: nat, lead: bytes)
    requires ItemsAllInts(items) && Space(lead)
    ensures var es := ElementsLayout(items, fmt, depth, lead);
      && ElementsOk(es) && Values(es) == items
      && (items != [] ==> ElementsText(es) == lead + ItemsText(items, fmt, depth))
    decreases items, 1
  {
    if items != [] {
      var space := If(fmt, [SPACE]);
      LayoutIs(items[0], fmt, depth);
      ElementsLayoutIs(items[1..], fmt, depth, space);
      ElementsJoin(lead, Text(items[0], fmt, depth), space, ItemsText(items[1..], fmt, depth));
    }
  }

  lemma ElementsJoin(lead: bytes, text: bytes, space: bytes, rest: bytes)
    ensures lead + text + [] == lead + ((text + []) + [])
    ensures lead + text + [] + [COMMA] + (space + rest) == lead + ((text + ([COMMA] + space)) + rest)
  {
  }

  lemma {:induction false} EntriesLayoutIs(members: seq<Member>, fmt: bool, depth: nat, out: bytes)
    requires MembersAllInts(members) && Space(out)
    ensures var es := EntriesLayout(members, fmt, depth, If(fmt, [NEWLINE]) + out);
      && EntriesOk(es) && Members(es) == members
      && (members != [] ==> EntriesText(es) == If(fmt, [NEWLINE]) + MembersText(members, fmt, depth) + out)
    decreases members, 1
  {
    if members != [] {
      var m, line, tail := members[0], If(fmt, [NEWLINE]), If(fmt, [NEWLINE]) + out;
      var value, after := Layout(m.value, fmt, depth), if |members| == 1 then tail else [];
      var e, rest := EntryLayout(m, fmt, depth, value, after), EntriesLayout(members[1..], fmt, depth, tail);
      LayoutIs(m.value, fmt, depth);
      EntriesLayoutIs(members[1..], fmt, depth, out);
      EntryIs(m, fmt, depth, value, after);
      EntriesCons(e, rest, m);
      EntriesJoin(line, If(fmt, Tabs(depth)), Quoted(m.key), If(fmt, [TAB]), Text(m.value, fmt, depth),
                  MembersText(members[1..], fmt, depth), out);
    }
  }

  lemma {:induction false} EntryIs(m: Member, fmt: bool, depth: nat, value: Syntax, after: bytes)
    requires Ok(value) && Space(after)
    ensures var e := EntryLayout(m, fmt, depth, value, after);
      && KeyOk(e) && Space(e.element.before) && e.key.value == m.key
      && EntryText(e) == (If(fmt, [NEWLINE]) + If(fmt, Tabs(depth))) + Quoted(m.key) + ([] + [COLON])
                         + (If(fmt, [TAB]) + Render(value) + after)
  {
    QuoteLayoutIs(m.key);
    BreakIsSpace(fmt, depth);
  }

  lemma EntriesCons(e: Entry, rest: seq<Entry>, m: Member)
    requires KeyOk(e) && Space(e.element.before) && Ok(e.element.value) && Space(e.element.after) && EntriesOk(rest)
    requires m == Member(e.key.value, Value(e.element.value))
    ensures EntriesOk([e] + rest) && Members([e] + rest) == [m] + Members(rest)
    ensures EntriesText([e] + rest)
         == if rest == [] then EntryText(e) else EntryText(e) + [COMMA] + EntriesText(rest)
  {
    assert ([e] + rest)[1..] == rest;
  }

  /** One line of an object, with its line break before it instead of behind it. */
  lemma EntriesJoin(line: bytes, tabs: bytes, key: bytes, tab: bytes, text: bytes, rest: bytes, out: bytes)
    ensures (line + tabs) + key + ([] + [COLON]) + (tab + text + (line + out))
         == line + (((tabs + key + [COLON] + tab) + text + ([] + line)) + []) + out
    ensures (line + tabs) + key + ([] + [COLON]) + (tab + text + []) + [COMMA] + (line + rest + out)
         == line + (((tabs + key + [COLON] + tab) + text + ([COMMA] + line)) + rest) + out
  {
  }

  /**
   Reading at the start of a printed value gives that value and stops right after its text,
   whatever follows, as long as a byte follows that cannot continue a number.
   */
  lemma {:induction false} ValueReads(t: Json, fmt: bool, depth: nat, s: bytes, p: nat, next: nat)
    requires AllInts(t) && depth + Nesting(t) <= NESTING_LIMIT && Shows(s, p, Text(t, fmt, depth))
    requires next == p + |Text(t, fmt, depth)| < |s| && !IsNumberByte(s[next])
    ensures ReadValue(s, p, depth) == Some(Read(t, next))
  {
    LayoutIs(t, fmt, depth);
    LevelsAre(Layout(t, fmt, depth));
    SyntaxReads(Layout(t, fmt, depth), depth, s, p, next);
  }

  // ---------- documents

  lemma PlainDocument(text: bytes)
    ensures text + [0] == Document(false, [], text, [])
  {
  }

  /**
   Parsing printed text gives the tree back and ends at the terminating NUL: for every tree whose
   numbers are 32-bit integers, within the nesting limit that printer and parser share, formatted
   or not, and whether or not the caller insists on the NUL. Duplicate keys and their order survive.
   */
  lemma {:induction false} PrintedTextParses(t: Json, fmt: bool, requireNul: bool)
    requires AllInts(t) && Nesting(t) <= NESTING_LIMIT
    ensures ReadDocument(Text(t, fmt, 0) + [0], requireNul) == Some(Read(t, |Text(t, fmt, 0)|))
  {
    LayoutIs(t, fmt, 0);
    PlainDocument(Text(t, fmt, 0));
    GrammarParses(false, [], Layout(t, fmt, 0), [], Text(t, fmt, 0) + [0], requireNul);
  }

  /** And only within that limit: it is the exact condition for the text to give its tree back. */
  lemma {:induction false} PrintedTextParsesIff(t: Json, fmt: bool, requireNul: bool)
    requires AllInts(t)
    ensures ReadDocument(Text(t, fmt, 0) + [0], requireNul) == Some(Read(t, |Text(t, fmt, 0)|))
       <==> Nesting(t) <= NESTING_LIMIT
  {
    DocumentNests(Text(t, fmt, 0) + [0], requireNul);
    if Nesting(t) <= NESTING_LIMIT {
      PrintedTextParses(t, fmt, requireNul);
    }
  }

  /** Whatever bytes a document was read from, printing it, in either format, and reading it again changes nothing. */
  lemma {:induction false} ReprintIsStable(s: bytes, anyNul: bool, fmt: bool, requireNul: bool)
    requires ReadDocument(s, anyNul).Some? && AllInts(ReadDocument(s, anyNul).value.value)
    ensures var t := ReadDocument(s, anyNul).value.value;
      ReadDocument(Text(t, fmt, 0) + [0], requireNul) == Some(Read(t, |Text(t, fmt, 0)|))
  {
    DocumentNests(s, anyNul);
    PrintedTextParses(ReadDocument(s, anyNul).value.value, fmt, requireNul);
  }

  /** So no two trees print the same text, even if one is formatted and the other is not. */
  lemma {:induction false} PrintIsInjective(t: Json, u: Json, fmt: bool, gmt: bool)
    requires AllInts(t) && Nesting(t) <= NESTING_LIMIT && AllInts(u) && Nesting(u) <= NESTING_LIMIT
    requires Text(t, fmt, 0) == Text(u, gmt, 0)
    ensures t == u
  {
    PrintedTextParses(t, fmt, true);
    PrintedTextParses(u, gmt, true);
  }
}
