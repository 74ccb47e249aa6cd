/** The parser accepts nothing but texts of the grammar: whatever it reads is one, and denotes what was read. */
module JsonExact {
  import opened Wrappers
  import opened Bytes
  import opened Json
  import JsonText
  import opened JsonReading
  import opened JsonGrammar
  import opened Utf16
  import opened JsonSteps
  import opened JsonAccepts
  import opened JsonNumbers

  lemma {:induction false} JoinShows(s: bytes, p: nat, a: bytes, b: bytes)
    requires Shows(s, p, a) && Shows(s, p + |a|, b)
    ensures Shows(s, p, a + b)
  {
    forall i: nat | i < |a + b| ensures s[p + i] == ByteOf(a + b, i) {
      if i < |a| {
        WordAt(s, p, a, i);
      } else {
        WordAt(s, p + |a|, b, i - |a|);
      }
    }
  }

  lemma {:induction false} SliceShows(s: bytes, p: nat, q: nat)
    requires p <= q <= |s|
    ensures Shows(s, p, s[p..q])
  {
  }

  /** A text between two bytes. */
  lemma {:induction false} Enclosed(s: bytes, p: nat, open: byte, inner: bytes, close: byte)
    requires LooksAt(s, p, open) && Shows(s, p + 1, inner) && LooksAt(s, p + 1 + |inner|, close)
    ensures Shows(s, p, [open] + inner + [close])
  {
    JoinShows(s, p, [open], inner);
    JoinShows(s, p, [open] + inner, [close]);
  }

  // ---------- strings

  /** What the first pass steps over is closed. */
  lemma {:induction false} ScanCloses(s: bytes, i: nat, p: nat, end: nat)
    requires i <= p <= |s| && ScanEnd(s, p) == Some(end)
    ensures Closed(s[i..end], p - i)
    decreases |s| - p
  {
    if s[p] != QUOTE {
      ScanCloses(s, i, if s[p] == BACKSLASH then p + 2 else p + 1, end);
      assert s[i..end][p - i] == s[p];
    }
  }

  /** Each turn of the second pass takes a character. */
  lemma {:induction false} ChunkIs(s: bytes, i: nat, end: nat) returns (c: Char)
    requires i < end < |s| && Chunk(s, i, end).Some?
    ensures CharOk(c) && Shows(s, i, CharText(c)) && Chunk(s, i, end) == Some(Piece(|CharText(c)|, CharValue(c)))
    ensures i + |CharText(c)| <= end || (c == Escaped(s[end]) && i + 2 == end + 1)
  {
    if s[i] != BACKSLASH {
      c := Raw(s[i]);
    } else if SimpleEscape(s[i + 1]).Some? {
      c := Escaped(s[i + 1]);
    } else {
      c := LiteralIs(s, i, end);
    }
  }

  lemma {:induction false} EscapeIs(s: bytes, i: nat) returns (q: bytes)
    requires i + 6 <= |s| && s[i] == BACKSLASH && s[i + 1] == LOWER_U
    ensures |q| == 4 && Shows(s, i, [BACKSLASH, LOWER_U] + q)
    ensures IsQuad(q, 0) == IsQuad(s, i + 2) && Hex4(q, 0) == Hex4(s, i + 2)
  {
    q := s[i + 2..i + 6];
    SliceShows(s, i + 2, i + 6);
    JoinShows(s, i, [BACKSLASH, LOWER_U], q);
    QuadReads(q, s, i + 2);
  }

  lemma {:induction false} PairLiteralIs(s: bytes, i: nat, end: nat, q: bytes) returns (c: Char)
    requires i < end < |s| && Literal(s, i, end).Some? && Shows(s, i, [BACKSLASH, LOWER_U] + q) && |q| == 4
    requires IsQuad(q, 0) && IsHighSurrogate(Hex4(q, 0)) && i + 6 <= end && Hex4(s, i + 2) == Hex4(q, 0)
    ensures CharOk(c) && Shows(s, i, CharText(c)) && Literal(s, i, end) == Some(Piece(|CharText(c)|, CharValue(c)))
  {
    var l := EscapeIs(s, i + 6);
    c := Pair(q, l);
    JoinShows(s, i, [BACKSLASH, LOWER_U] + q, [BACKSLASH, LOWER_U] + l);
    CombineIs(Hex4(q, 0), Hex4(l, 0));
  }

  lemma {:induction false} LiteralIs(s: bytes, i: nat, end: nat) returns (c: Char)
    requires i < end < |s| && s[i] == BACKSLASH && s[i + 1] == LOWER_U && Literal(s, i, end).Some?
    ensures CharOk(c) && Shows(s, i, CharText(c)) && Literal(s, i, end) == Some(Piece(|CharText(c)|, CharValue(c)))
  {
    var q := EscapeIs(s, i);
    if !IsQuad(q, 0) {
      c := Bad(q);
      BadQuadIsNul(s, i, end);
    } else if IsHighSurrogate(Hex4(q, 0)) {
      c := PairLiteralIs(s, i, end, q);
    } else {
      c := Unicode(q);
    }
  }

  /** The characters that the second pass takes from `i` on. */
  ghost predicate Taken(chars: seq<Char>, s: bytes, i: nat, end: nat) {
    && CharsOk(chars) && Shows(s, i, CharsText(chars)) && Leads(chars, i + |CharsText(chars)|, end)
    && (i >= end ==> chars == [])
  }

  lemma {:induction false} OneMoreTaken(c: Char, rest: seq<Char>, s: bytes, i: nat, end: nat)
    requires CharOk(c) && Shows(s, i, CharText(c)) && i < end && LooksAt(s, end, QUOTE)
    requires i + |CharText(c)| <= end || (c == Escaped(s[end]) && i + 2 == end + 1)
    requires Taken(rest, s, i + |CharText(c)|, end)
    ensures Taken([c] + rest, s, i, end) && CharsValue([c] + rest) == CharValue(c) + CharsValue(rest)
  {
    assert ([c] + rest)[1..] == rest;
    JoinShows(s, i, CharText(c), CharsText(rest));
    assert rest != [] ==> ([c] + rest)[|rest|] == rest[|rest| - 1];
  }

  lemma {:induction false} UnescapeIs(s: bytes, i: nat, end: nat, done: bytes, out: bytes) returns (chars: seq<Char>)
    requires i <= end + 1 && LooksAt(s, end, QUOTE) && Unescape(s, i, end, done) == Some(out)
    ensures Taken(chars, s, i, end) && out == done + CharsValue(chars)
    decreases end + 1 - i
  {
    if i >= end {
      chars := [];
      assert done + [] == done;
    } else {
      var c := ChunkIs(s, i, end);
      var rest := UnescapeIs(s, i + |CharText(c)|, end, done + CharValue(c), out);
      chars := [c] + rest;
      OneMoreTaken(c, rest, s, i, end);
      JsonText.Assoc(done, CharValue(c), CharsValue(rest));
    }
  }

  /** A string that is read was written like this. */
  ghost predicate QuoteWritten(q: Quote, s: bytes, p: nat, str: cstring, next: nat) {
    QuoteOk(q) && Shows(s, p, QuoteText(q)) && str == q.value && next == p + |QuoteText(q)|
  }

  /** The bytes that the first pass steps over. */
  lemma {:induction false} BodyIs(s: bytes, i: nat, end: nat) returns (body: bytes)
    requires i <= |s| && ScanEnd(s, i) == Some(end)
    ensures |body| == end - i && Shows(s, i, body) && Closed(body, 0)
  {
    body := s[i..end];
    SliceShows(s, i, end);
    ScanCloses(s, i, i, end);
  }

  lemma {:induction false} ShownPrefix(a: bytes, b: bytes, s: bytes, i: nat)
    requires Shows(s, i, a) && Shows(s, i, b) && |a| <= |b|
    ensures a <= b
  {
    forall k | 0 <= k < |a| ensures a[k] == b[k] {
      WordAt(s, i, a, k);
      WordAt(s, i, b, k);
    }
  }

  lemma {:induction false} QuoteFrom(body: bytes, chars: seq<Char>, s: bytes, p: nat, end: nat) returns (q: Quote)
    requires LooksAt(s, p, QUOTE) && LooksAt(s, end, QUOTE) && Closed(body, 0)
    requires p < end && |body| == end - (p + 1) && Shows(s, p + 1, body) && Taken(chars, s, p + 1, end)
    ensures QuoteWritten(q, s, p, CString(CharsValue(chars)), end + 1)
  {
    q := Quote(body, chars, CString(CharsValue(chars)));
    TakenSpells(q, s, p + 1, end);
    Enclosed(s, p, QUOTE, body, QUOTE);
  }

  lemma {:induction false} TakenSpells(q: Quote, s: bytes, i: nat, end: nat)
    requires i <= end && |q.body| == end - i && Closed(q.body, 0) && Shows(s, i, q.body)
    requires Taken(q.chars, s, i, end) && q.value == CString(CharsValue(q.chars))
    ensures QuoteOk(q)
  {
    ShownPrefix(q.body, CharsText(q.chars), s, i);
    assert Spells(q);
  }

  lemma {:induction false} ReadStringIs(s: bytes, p: nat) returns (q: Quote)
    requires p < |s| && ReadString(s, p).Some?
    ensures QuoteWritten(q, s, p, ReadString(s, p).value.value, ReadString(s, p).value.next)
  {
    var end := ScanEnd(s, p + 1).value;
    var out := Unescape(s, p + 1, end, []).value;
    var body := BodyIs(s, p + 1, end);
    var chars := UnescapeIs(s, p + 1, end, [], out);
    assert [] + CharsValue(chars) == CharsValue(chars);
    q := QuoteFrom(body, chars, s, p, end);
  }

  // ---------- numbers

  lemma {:induction false} DigitsAre(r: bytes, i: nat, j: nat)
    requires i <= j <= |r| && forall k :: i <= k < j ==> IsDigit(r[k])
    ensures AllDigits(r[i..j]) && Decimal(r[i..j]) == DigitsValue(r, i, j)
  {
    SliceShows(r, i, j);
    DecimalReads(r, i, r[i..j]);
  }

  lemma {:induction false} ExponentIs(r: bytes, i: nat) returns (e: Option<Exponent>)
    requires i <= |r|
    ensures e.Some? ==> ExponentOk(e.value)
    ensures ReadExponent(r, i).0 == ExponentValue(e) && ExponentText(e) == r[i..ReadExponent(r, i).1]
  {
    var (value, next) := ReadExponent(r, i);
    if next == i {
      e := None;
    } else {
      var from := if LooksAt(r, i + 1, PLUS) || LooksAt(r, i + 1, MINUS) then i + 2 else i + 1;
      e := Some(Exponent(r[i], r[i + 1..from], r[from..next]));
      DigitsAre(r, from, next);
      assert r[i..next] == [r[i]] + r[i + 1..from] + r[from..next];
    }
  }

  /** `strtod` in terms of where the parts end. */
  lemma {:induction false} StrtodAt(r: bytes, start: nat, whole: nat, point: nat, frac: nat)
    requires r != [] && r[0] != PLUS && start == (if r[0] == MINUS then 1 else 0) && whole == DigitsEnd(r, start)
    requires point == if LooksAt(r, whole, DOT) then whole + 1 else whole
    requires frac == if point > whole then DigitsEnd(r, point) else whole
    ensures start <= whole <= point <= frac <= |r|
    ensures Strtod(r).next > 0 ==>
      && (start < whole || point < frac) && Strtod(r).next == ReadExponent(r, frac).1
      && Strtod(r).value == Scaled(r[0] == MINUS, DigitsValue(r, start, whole), DigitsValue(r, point, frac),
                                   frac - point, ReadExponent(r, frac).0)
  {
  }

  lemma {:induction false} NumeralIs(n: Numeral, r: bytes, start: nat, whole: nat, point: nat, frac: nat)
    requires start <= whole <= point <= frac <= |r| && (start < whole || point < frac)
    requires whole == DigitsEnd(r, start) && (frac == point || frac == DigitsEnd(r, point))
    requires n.whole == r[start..whole] && n.fraction == r[point..frac] && (point < frac ==> n.point)
    requires (start == whole ==> n.negative) && (n.exponent.Some? ==> ExponentOk(n.exponent.value))
    requires n.value == Scaled(n.negative, DigitsValue(r, start, whole), DigitsValue(r, point, frac),
                               frac - point, ExponentValue(n.exponent))
    ensures NumeralOk(n)
  {
    DigitsAre(r, start, whole);
    DigitsAre(r, point, frac);
    WorthIff(n);
  }

  lemma {:induction false} NumeralPartsAre(n: Numeral, r: bytes, start: nat, whole: nat, point: nat, frac: nat, to: nat)
    requires start <= whole <= point <= frac <= to <= |r| && start <= 1 && r != []
    requires start == (if r[0] == MINUS then 1 else 0) && point == if LooksAt(r, whole, DOT) then whole + 1 else whole
    requires point == whole ==> frac == whole
    requires n.negative == (r[0] == MINUS) && n.whole == r[start..whole] && n.point == (point > whole)
    requires n.fraction == r[point..frac] && ExponentText(n.exponent) == r[frac..to]
    ensures r[..to] == NumeralText(n)
  {
    assert r[..start] == SignText(n.negative);
    FractionIs(n, r, whole, point, frac);
    FourParts(r, start, whole, frac, to);
  }

  lemma {:induction false} FractionIs(n: Numeral, r: bytes, whole: nat, point: nat, frac: nat)
    requires whole <= point <= frac <= |r| && point == if LooksAt(r, whole, DOT) then whole + 1 else whole
    requires (point == whole ==> frac == whole) && n.point == (point > whole) && n.fraction == r[point..frac]
    ensures r[whole..frac] == FractionText(n.point, n.fraction)
  {
  }

  lemma {:induction false} FourParts(r: bytes, i: nat, j: nat, k: nat, l: nat)
    requires i <= j <= k <= l <= |r|
    ensures r[..l] == r[..i] + r[i..j] + r[j..k] + r[k..l]
  {
  }

  ghost predicate NumeralWritten(n: Numeral, r: bytes, v: real, to: nat) {
    NumeralOk(n) && to <= |r| && r[..to] == NumeralText(n) && v == n.value
  }

  /** A number put together from where its parts end. */
  lemma {:induction false} NumeralFrom(r: bytes, start: nat, whole: nat, point: nat, frac: nat, e: Option<Exponent>,
                                        to: nat) returns (n: Numeral)
    requires r != [] && start == (if r[0] == MINUS then 1 else 0) && start <= |r| && whole == DigitsEnd(r, start)
    requires point == (if LooksAt(r, whole, DOT) then whole + 1 else whole)
    requires frac == (if point > whole then DigitsEnd(r, point) else whole)
    requires (start < whole || point < frac) && (start == whole ==> r[0] == MINUS)
    requires (e.Some? ==> ExponentOk(e.value)) && frac <= to <= |r| && ExponentText(e) == r[frac..to]
    ensures NumeralWritten(n, r, Scaled(r[0] == MINUS, DigitsValue(r, start, whole), DigitsValue(r, point, frac),
                                        frac - point, ExponentValue(e)), to)
  {
    var v := Scaled(r[0] == MINUS, DigitsValue(r, start, whole), DigitsValue(r, point, frac), frac - point,
                    ExponentValue(e));
    n := Numeral(r[0] == MINUS, r[start..whole], point > whole, r[point..frac], e, v);
    NumeralIs(n, r, start, whole, point, frac);
    NumeralPartsAre(n, r, start, whole, point, frac, to);
  }

  /** What `strtod` takes is a number of the grammar. */
  lemma {:induction false} StrtodIs(r: bytes) returns (n: Numeral)
    requires Strtod(r).next > 0 && (r[0] == MINUS || IsDigit(r[0]))
    ensures NumeralWritten(n, r, Strtod(r).value, Strtod(r).next)
  {
    var start := if r[0] == MINUS then 1 else 0;
    var whole := DigitsEnd(r, start);
    var point := if LooksAt(r, whole, DOT) then whole + 1 else whole;
    var frac := if point > whole then DigitsEnd(r, point) else whole;
    StrtodAt(r, start, whole, point, frac);
    var e := ExponentIs(r, frac);
    n := NumeralFrom(r, start, whole, point, frac, e, Strtod(r).next);
  }

  lemma {:induction false} NumeralShown(n: Numeral, s: bytes, p: nat, q: nat, v: real, to: nat)
    requires p <= q <= |s| && NumeralWritten(n, s[p..q], v, to)
    ensures Shows(s, p, NumeralText(n)) && |NumeralText(n)| == to
  {
    assert s[p..q][..to] == s[p..p + to];
    SliceShows(s, p, p + to);
  }

  lemma {:induction false} ReadNumberIs(s: bytes, p: nat) returns (n: Numeral)
    requires p < |s| && (s[p] == MINUS || IsDigit(s[p])) && ReadNumber(s, p).Some?
    ensures NumeralOk(n) && Shows(s, p, NumeralText(n))
    ensures ReadNumber(s, p).value.value == Number(n.value)
    ensures ReadNumber(s, p).value.next == p + |NumeralText(n)|
  {
    var r := s[p..RunEnd(s, p)];
    n := StrtodIs(r);
    NumeralShown(n, s, p, RunEnd(s, p), Strtod(r).value, Strtod(r).next);
  }

  // ---------- white space

  lemma {:induction false} NextBlank(s: bytes, p: nat)
    requires p <= |s|
    ensures Blank(s, p, NextNonBlank(s, p))
    decreases |s| - p
  {
    if p < |s| && s[p] <= 32 {
      NextBlank(s, p + 1);
    }
  }

  lemma {:induction false} SkipBlank(s: bytes, p: nat)
    requires p <= |s|
    ensures Blank(s, p, Skip(s, p))
  {
    NextBlank(s, p);
  }

  lemma {:induction false} BlankIsSpace(s: bytes, p: nat, q: nat) returns (b: bytes)
    requires Blank(s, p, q)
    ensures Space(b) && Shows(s, p, b) && |b| == q - p
  {
    b := s[p..q];
  }

  // ---------- values

  /** What is read at `p`, up to `next`, is this text. */
  ghost predicate Written(x: Syntax, s: bytes, p: nat, v: Json, next: nat) {
    Ok(x) && Shows(s, p, Render(x)) && v == Value(x) && next == p + |Render(x)|
  }

  lemma {:induction false} ReadValueIs(s: bytes, p: nat, depth: nat) returns (x: Syntax)
    requires p <= |s| && ReadValue(s, p, depth).Some?
    ensures Written(x, s, p, ReadValue(s, p, depth).value.value, ReadValue(s, p, depth).value.next)
    decreases |s| - p, 1
  {
    WordShows(s, p, NULL_TEXT);
    WordShows(s, p, FALSE_TEXT);
    WordShows(s, p, TRUE_TEXT);
    if HasWord(s, p, NULL_TEXT) {
      x := NullWord;
    } else if HasWord(s, p, FALSE_TEXT) {
      x := FalseWord;
    } else if HasWord(s, p, TRUE_TEXT) {
      x := TrueWord;
    } else if LooksAt(s, p, QUOTE) {
      var q := ReadStringIs(s, p);
      x := Quotation(q);
    } else if s[p] == MINUS || IsDigit(s[p]) {
      var n := ReadNumberIs(s, p);
      x := Figure(n);
    } else if LooksAt(s, p, OPEN_BRACKET) {
      x := ReadArrayIs(s, p, depth);
    } else {
      x := ReadObjectIs(s, p, depth);
    }
  }

  lemma {:induction false} EmptyListIs(s: bytes, p: nat, first: nat) returns (x: Syntax)
    requires LooksAt(s, p, OPEN_BRACKET) && Blank(s, p + 1, first) && LooksAt(s, first, CLOSE_BRACKET)
    ensures Written(x, s, p, Array([]), first + 1)
  {
    var gap := BlankIsSpace(s, p + 1, first);
    x := List(gap, []);
    Enclosed(s, p, OPEN_BRACKET, gap, CLOSE_BRACKET);
  }

  lemma {:induction false} FilledListIs(s: bytes, p: nat, es: seq<Element>, next: nat)
    requires LooksAt(s, p, OPEN_BRACKET) && ElementsWritten(es, s, p + 1, next)
    ensures Written(List([], es), s, p, Array(Values(es)), next)
  {
    Enclosed(s, p, OPEN_BRACKET, ElementsText(es), CLOSE_BRACKET);
  }

  lemma {:induction false} ReadArrayIs(s: bytes, p: nat, depth: nat) returns (x: Syntax)
    requires LooksAt(s, p, OPEN_BRACKET) && ReadArray(s, p, depth).Some?
    ensures Written(x, s, p, ReadArray(s, p, depth).value.value, ReadArray(s, p, depth).value.next)
    decreases |s| - p, 0
  {
    var first := Skip(s, p + 1);
    SkipBlank(s, p + 1);
    if LooksAt(s, first, CLOSE_BRACKET) {
      x := EmptyListIs(s, p, first);
    } else {
      var list := ReadItems(s, first, depth + 1, []).value;
      var es := ReadItemsAre(s, p + 1, first, depth + 1, [], list.value, list.next);
      x := List([], es);
      assert [] + Values(es) == Values(es);
      FilledListIs(s, p, es, list.next);
    }
  }

  ghost predicate ElementOk(e: Element) {
    Space(e.before) && Ok(e.value) && Space(e.after)
  }

  lemma {:induction false} ItemParts(s: bytes, p: nat, depth: nat, v: Json, next: nat) returns (at: nat, after: nat)
    requires ItemGives(s, p, depth, v, next)
    ensures Blank(s, p, at) && ReadValue(s, at, depth) == Some(Read(v, after)) && Blank(s, after, next)
  {
    at := Skip(s, p);
    after := ReadValue(s, at, depth).value.next;
    SkipBlank(s, p);
    SkipBlank(s, after);
  }

  lemma {:induction false} ElementFrom(s: bytes, from: nat, at: nat, x: Syntax, v: Json, after: nat, next: nat)
    returns (e: Element)
    requires Blank(s, from, at) && Written(x, s, at, v, after) && Blank(s, after, next)
    ensures ElementOk(e) && Shows(s, from, ElementText(e)) && v == Value(e.value) && next == from + |ElementText(e)|
  {
    var before := BlankIsSpace(s, from, at);
    var back := BlankIsSpace(s, after, next);
    e := Element(before, x, back);
    JoinShows(s, from, before, Render(x));
    JoinShows(s, from, before + Render(x), back);
  }

  /** An element, with white space before it from `from` on. */
  lemma {:induction false} ReadItemIs(s: bytes, from: nat, p: nat, depth: nat, v: Json, next: nat) returns (e: Element)
    requires Blank(s, from, p) && ItemGives(s, p, depth, v, next)
    ensures ElementOk(e) && Shows(s, from, ElementText(e)) && v == Value(e.value) && next == from + |ElementText(e)|
    decreases |s| - p, 2
  {
    var at, after := ItemParts(s, p, depth, v, next);
    var x := ReadValueIs(s, at, depth);
    e := ElementFrom(s, from, at, x, v, after, next);
  }

  lemma {:induction false} ElementsCons(e: Element, rest: seq<Element>)
    requires ElementOk(e) && ElementsOk(rest)
    ensures ElementsOk([e] + rest) && Values([e] + rest) == [Value(e.value)] + Values(rest)
    ensures ElementsText([e] + rest)
         == if rest == [] then ElementText(e) else ElementText(e) + [COMMA] + ElementsText(rest)
  {
    assert ([e] + rest)[1..] == rest;
  }

  /** These elements stand from `from` on, and `next` is behind the bracket that closes them. */
  ghost predicate ElementsWritten(es: seq<Element>, s: bytes, from: nat, next: nat) {
    && es != [] && ElementsOk(es) && Shows(s, from, ElementsText(es))
    && next == from + |ElementsText(es)| + 1 && LooksAt(s, next - 1, CLOSE_BRACKET)
  }

  lemma {:induction false} LastElement(s: bytes, from: nat, e: Element, done: seq<Json>)
    requires ElementOk(e) && Shows(s, from, ElementText(e)) && LooksAt(s, from + |ElementText(e)|, CLOSE_BRACKET)
    ensures ElementsWritten([e], s, from, from + |ElementText(e)| + 1)
    ensures done + [Value(e.value)] == done + Values([e])
  {
    ElementsCons(e, []);
    assert [e] + [] == [e];
  }

  lemma {:induction false} MoreElements(s: bytes, from: nat, e: Element, rest: seq<Element>, next: nat,
                                         done: seq<Json>)
    requires ElementOk(e) && Shows(s, from, ElementText(e)) && LooksAt(s, from + |ElementText(e)|, COMMA)
    requires ElementsWritten(rest, s, from + |ElementText(e)| + 1, next)
    ensures ElementsWritten([e] + rest, s, from, next)
    ensures (done + [Value(e.value)]) + Values(rest) == done + Values([e] + rest)
  {
    ElementsCons(e, rest);
    CommaShows(s, from, ElementText(e), ElementsText(rest));
    Longer(done, Value(e.value), Values(rest));
  }

  lemma {:induction false} CommaShows(s: bytes, from: nat, a: bytes, b: bytes)
    requires Shows(s, from, a) && LooksAt(s, from + |a|, COMMA) && Shows(s, from + |a| + 1, b)
    ensures Shows(s, from, a + [COMMA] + b)
  {
    JoinShows(s, from, a, [COMMA]);
    JoinShows(s, from, a + [COMMA], b);
  }

  lemma {:induction false} Longer<T>(done: seq<T>, v: T, rest: seq<T>)
    ensures (done + [v]) + rest == done + ([v] + rest)
  {
  }

  lemma {:induction false} ItemsCase(s: bytes, p: nat, depth: nat, done: seq<Json>, list: seq<Json>, next: nat)
    returns (v: Json, after: nat)
    requires ItemsGive(s, p, depth, done, list, next)
    ensures p < after && ItemGives(s, p, depth, v, after)
    ensures LooksAt(s, after, COMMA) ==> ItemsGive(s, after + 1, depth, done + [v], list, next)
    ensures !LooksAt(s, after, COMMA) ==> LooksAt(s, after, CLOSE_BRACKET) && list == done + [v] && next == after + 1
  {
    v, after := ReadItem(s, p, depth).value.value, ReadItem(s, p, depth).value.next;
  }

  lemma {:induction false} ReadItemsAre(s: bytes, from: nat, p: nat, depth: nat, done: seq<Json>, list: seq<Json>,
                                         next: nat) returns (es: seq<Element>)
    requires Blank(s, from, p) && ItemsGive(s, p, depth, done, list, next)
    ensures ElementsWritten(es, s, from, next) && list == done + Values(es)
    decreases |s| - p, 3
  {
    var v, after := ItemsCase(s, p, depth, done, list, next);
    var e := ReadItemIs(s, from, p, depth, v, after);
    if LooksAt(s, after, COMMA) {
      var rest := ReadItemsAre(s, after + 1, after + 1, depth, done + [v], list, next);
      es := [e] + rest;
      MoreElements(s, from, e, rest, next, done);
    } else {
      es := [e];
      LastElement(s, from, e, done);
    }
  }

  lemma {:induction false} EmptyRecordIs(s: bytes, p: nat, first: nat) returns (x: Syntax)
    requires LooksAt(s, p, OPEN_BRACE) && Blank(s, p + 1, first) && LooksAt(s, first, CLOSE_BRACE)
    ensures Written(x, s, p, Object([]), first + 1)
  {
    var gap := BlankIsSpace(s, p + 1, first);
    x := Record(gap, []);
    Enclosed(s, p, OPEN_BRACE, gap, CLOSE_BRACE);
  }

  lemma {:induction false} FilledRecordIs(s: bytes, p: nat, es: seq<Entry>, next: nat)
    requires LooksAt(s, p, OPEN_BRACE) && EntriesWritten(es, s, p + 1, next)
    ensures Written(Record([], es), s, p, Object(Members(es)), next)
  {
    Enclosed(s, p, OPEN_BRACE, EntriesText(es), CLOSE_BRACE);
  }

  lemma {:induction false} ReadObjectIs(s: bytes, p: nat, depth: nat) returns (x: Syntax)
    requires LooksAt(s, p, OPEN_BRACE) && ReadObject(s, p, depth).Some?
    ensures Written(x, s, p, ReadObject(s, p, depth).value.value, ReadObject(s, p, depth).value.next)
    decreases |s| - p, 0
  {
    var first := Skip(s, p + 1);
    SkipBlank(s, p + 1);
    if LooksAt(s, first, CLOSE_BRACE) {
      x := EmptyRecordIs(s, p, first);
    } else {
      var list := ReadMembers(s, first, depth + 1, []).value;
      var es := ReadMembersAre(s, p + 1, first, depth + 1, [], list.value, list.next);
      x := Record([], es);
      assert [] + Members(es) == Members(es);
      FilledRecordIs(s, p, es, list.next);
    }
  }

  /** A key and its colon. */
  ghost predicate NameIs(e: Entry, s: bytes, from: nat, key: cstring, next: nat) {
    KeyOk(e) && Shows(s, from, NameText(e)) && key == e.key.value && next == from + |NameText(e)|
  }

  lemma {:induction false} ReadKeyIs(s: bytes, from: nat, p: nat, element: Element) returns (e: Entry)
    requires Blank(s, from, p) && ReadKey(s, p).Some?
    ensures e.element == element && NameIs(e, s, from, ReadKey(s, p).value.value, ReadKey(s, p).value.next)
  {
    var name := Skip(s, p);
    SkipBlank(s, p);
    var before := BlankIsSpace(s, from, name);
    var q := ReadStringIs(s, name);
    var end := name + |QuoteText(q)|;
    var colon := Skip(s, end);
    SkipBlank(s, end);
    var after := BlankIsSpace(s, end, colon);
    e := Entry(before, q, after, element);
    JoinShows(s, from, e.before, QuoteText(q));
    JoinShows(s, end, e.middle, [COLON]);
    JoinShows(s, from, e.before + QuoteText(q), e.middle + [COLON]);
  }

  ghost predicate EntryOk(e: Entry) {
    KeyOk(e) && ElementOk(e.element)
  }

  ghost function MemberOf(e: Entry): Member
    requires EntryOk(e)
  {
    Member(e.key.value, Value(e.element.value))
  }

  lemma {:induction false} ReadMemberIs(s: bytes, from: nat, p: nat, depth: nat, m: Member, next: nat)
    returns (e: Entry)
    requires Blank(s, from, p) && MemberGives(s, p, depth, m, next)
    ensures EntryOk(e) && Shows(s, from, EntryText(e)) && m == MemberOf(e) && next == from + |EntryText(e)|
    decreases |s| - p, 2
  {
    var middle := ReadKey(s, p).value.next;
    var element := ReadItemIs(s, middle, middle, depth, m.value, next);
    e := ReadKeyIs(s, from, p, element);
    JoinShows(s, from, NameText(e), ElementText(element));
  }

  lemma {:induction false} EntriesCons(e: Entry, rest: seq<Entry>)
    requires EntryOk(e) && EntriesOk(rest)
    ensures EntriesOk([e] + rest) && Members([e] + rest) == [MemberOf(e)] + Members(rest)
    ensures EntriesText([e] + rest)
         == if rest == [] then EntryText(e) else EntryText(e) + [COMMA] + EntriesText(rest)
  {
    assert ([e] + rest)[1..] == rest;
  }

  ghost predicate EntriesWritten(es: seq<Entry>, s: bytes, from: nat, next: nat) {
    && es != [] && EntriesOk(es) && Shows(s, from, EntriesText(es))
    && next == from + |EntriesText(es)| + 1 && LooksAt(s, next - 1, CLOSE_BRACE)
  }

  lemma {:induction false} LastEntry(s: bytes, from: nat, e: Entry, done: seq<Member>)
    requires EntryOk(e) && Shows(s, from, EntryText(e)) && LooksAt(s, from + |EntryText(e)|, CLOSE_BRACE)
    ensures EntriesWritten([e], s, from, from + |EntryText(e)| + 1)
    ensures done + [MemberOf(e)] == done + Members([e])
  {
    EntriesCons(e, []);
    assert [e] + [] == [e];
  }

  lemma {:induction false} MoreEntries(s: bytes, from: nat, e: Entry, rest: seq<Entry>, next: nat,
                                        done: seq<Member>)
    requires EntryOk(e) && Shows(s, from, EntryText(e)) && LooksAt(s, from + |EntryText(e)|, COMMA)
    requires EntriesWritten(rest, s, from + |EntryText(e)| + 1, next)
    ensures EntriesWritten([e] + rest, s, from, next)
    ensures (done + [MemberOf(e)]) + Members(rest) == done + Members([e] + rest)
  {
    EntriesCons(e, rest);
    CommaShows(s, from, EntryText(e), EntriesText(rest));
    Longer(done, MemberOf(e), Members(rest));
  }

  lemma {:induction false} MembersCase(s: bytes, p: nat, depth: nat, done: seq<Member>, list: seq<Member>, next: nat)
    returns (m: Member, after: nat)
    requires MembersGive(s, p, depth, done, list, next)
    ensures p < after && MemberGives(s, p, depth, m, after)
    ensures LooksAt(s, after, COMMA) ==> MembersGive(s, after + 1, depth, done + [m], list, next)
    ensures !LooksAt(s, after, COMMA) ==> LooksAt(s, after, CLOSE_BRACE) && list == done + [m] && next == after + 1
  {
    m, after := ReadMember(s, p, depth).value.value, ReadMember(s, p, depth).value.next;
  }

  lemma {:induction false} ReadMembersAre(s: bytes, from: nat, p: nat, depth: nat, done: seq<Member>, list: seq<Member>,
                                           next: nat) returns (es: seq<Entry>)
    requires Blank(s, from, p) && MembersGive(s, p, depth, done, list, next)
    ensures EntriesWritten(es, s, from, next) && list == done + Members(es)
    decreases |s| - p, 3
  {
    var m, after := MembersCase(s, p, depth, done, list, next);
    var e := ReadMemberIs(s, from, p, depth, m, after);
    if LooksAt(s, after, COMMA) {
      var rest := ReadMembersAre(s, after + 1, after + 1, depth, done + [m], list, next);
      es := [e] + rest;
      MoreEntries(s, from, e, rest, next, done);
    } else {
      es := [e];
      LastEntry(s, from, e, done);
    }
  }

  // ---------- numbers with anything behind them

  lemma {:induction false} RunCovers(s: bytes, p: nat, q: nat)
    requires p <= q <= |s| && forall i :: p <= i < q ==> IsNumberByte(s[i])
    ensures RunEnd(s, p) >= q
    decreases q - p
  {
    if p < q {
      RunCovers(s, p + 1, q);
    }
  }

  /** `strtod` takes something of every text that starts with a number. */
  lemma {:induction false} NumeralPrefix(n: Numeral, r: bytes)
    requires NumeralOk(n) && Shows(r, 0, NumeralText(n))
    ensures Strtod(r).next > 0
  {
    var sign, exponent := SignText(n.negative), ExponentText(n.exponent);
    var start, point := |sign|, FractionText(n.point, n.fraction);
    SplitWord(r, 0, sign + n.whole + point, exponent);
    SplitThree(r, 0, sign, n.whole, point);
    if n.negative {
      WordAt(r, 0, sign, 0);
    }
    if n.whole != [] {
      WordAt(r, start, n.whole, 0);
    } else {
      WordAt(r, start, point, 0);
      WordAt(r, start, point, 1);
    }
  }

  lemma {:induction false} FigurePrefix(n: Numeral, s: bytes, p: nat)
    requires NumeralOk(n) && Shows(s, p, NumeralText(n))
    ensures p < |s| && (s[p] == MINUS || IsDigit(s[p])) && ReadNumber(s, p).Some?
  {
    var text, q := NumeralText(n), RunEnd(s, p);
    NumeralBytes(n);
    NumeralStarts(n);
    WordAt(s, p, text, 0);
    forall i | p <= i < p + |text| ensures IsNumberByte(s[i]) {
      WordAt(s, p, text, i - p);
    }
    RunCovers(s, p, p + |text|);
    forall i: nat | i < |text| ensures s[p..q][i] == ByteOf(text, i) {
      WordAt(s, p, text, i);
    }
    NumeralPrefix(n, s[p..q]);
  }

  /** Where a text of the grammar stands, some value is read, whatever comes behind the text. */
  lemma {:induction false} SyntaxPrefix(x: Syntax, s: bytes, p: nat)
    requires Ok(x) && Levels(x) <= NESTING_LIMIT && Shows(s, p, Render(x))
    ensures p < |s| && s[p] > 32 && ReadValue(s, p, 0).Some?
  {
    SyntaxStarts(x, s, p);
    if x.Figure? {
      FigurePrefix(x.n, s, p);
      NoWord(s, p);
    } else {
      SyntaxReads(x, 0, s, p, p + |Render(x)|);
    }
  }

  // ---------- documents

  function Mark(bom: bool): bytes {
    if bom then BOM else []
  }

  /** A text of the grammar within the limit, with white space around it and a NUL at the end. */
  ghost predicate IsDocument(s: bytes, bom: bool, before: bytes, x: Syntax, after: bytes) {
    && Ok(x) && Space(before) && Space(after) && Nesting(Value(x)) <= NESTING_LIMIT
    && s == Document(bom, before, Render(x), after)
  }

  /** A text of the grammar within the limit, with anything behind it; a mark only counts in more than four bytes. */
  ghost predicate StartsDocument(s: bytes, bom: bool, before: bytes, x: Syntax, rest: bytes) {
    && Ok(x) && Space(before) && Nesting(Value(x)) <= NESTING_LIMIT && (bom ==> |s| > 4)
    && s == Mark(bom) + before + Render(x) + rest
  }

  lemma {:induction false} BomIsMark(s: bytes)
    ensures Shows(s, 0, Mark(SkipBom(s) == 3)) && |Mark(SkipBom(s) == 3)| == SkipBom(s)
    ensures SkipBom(s) == 3 ==> |s| > 4
  {
    ShowsIff(s, 0, BOM);
  }

  /** What stands before the end of the value that is read. */
  lemma {:induction false} DocumentParts(s: bytes, requireNul: bool) returns (at: nat, next: nat)
    requires ReadDocument(s, requireNul).Some?
    ensures SkipBom(s) <= at && Blank(s, SkipBom(s), at) && next <= |s|
    ensures ReadValue(s, at, 0) == Some(Read(ReadDocument(s, requireNul).value.value, next))
    ensures if requireNul then LooksAt(s, Skip(s, next), 0) else next == ReadDocument(s, requireNul).value.next
  {
    at := Skip(s, SkipBom(s));
    next := ReadValue(s, at, 0).value.next;
    SkipBlank(s, SkipBom(s));
  }

  /** What stands before the end of the value that is read. */
  lemma {:induction false} DocumentStarts(s: bytes, requireNul: bool)
    returns (bom: bool, before: bytes, x: Syntax, next: nat)
    requires ReadDocument(s, requireNul).Some?
    ensures Ok(x) && Space(before) && Nesting(Value(x)) <= NESTING_LIMIT && (bom ==> |s| > 4)
    ensures Value(x) == ReadDocument(s, requireNul).value.value
    ensures next <= |s| && s[..next] == Mark(bom) + before + Render(x)
    ensures if requireNul then LooksAt(s, Skip(s, next), 0) else next == ReadDocument(s, requireNul).value.next
  {
    var at;
    at, next := DocumentParts(s, requireNul);
    bom := SkipBom(s) == 3;
    BomIsMark(s);
    before := BlankIsSpace(s, SkipBom(s), at);
    x := ReadValueIs(s, at, 0);
    DocumentNests(s, requireNul);
    FrontIs(s, Mark(bom), before, Render(x), next);
  }

  lemma {:induction false} FrontIs(s: bytes, a: bytes, b: bytes, c: bytes, next: nat)
    requires Shows(s, 0, a) && Shows(s, |a|, b) && Shows(s, |a| + |b|, c) && next == |a| + |b| + |c|
    ensures next <= |s| && s[..next] == a + b + c
  {
    JoinShows(s, 0, a, b);
    JoinShows(s, 0, a + b, c);
    ShowsIff(s, 0, a + b + c);
  }

  /** The white space behind the value ends in the NUL, which is the last byte. */
  lemma {:induction false} NulIsLast(s: bytes, next: nat) returns (after: bytes)
    requires next <= |s| && LooksAt(s, Skip(s, next), 0)
    ensures Space(after) && s[next..] == after + [0]
  {
    NextBlank(s, next);
    after := s[next..|s| - 1];
  }

  lemma {:induction false} AcceptedIsDocument(s: bytes) returns (bom: bool, before: bytes, x: Syntax, after: bytes)
    requires ReadDocument(s, true).Some?
    ensures IsDocument(s, bom, before, x, after) && Value(x) == ReadDocument(s, true).value.value
  {
    var next;
    bom, before, x, next := DocumentStarts(s, true);
    after := NulIsLast(s, next);
    assert s == s[..next] + s[next..];
  }

  /**
   What the parser accepts, with a NUL at the end, and as which value: exactly the texts of the grammar
   that nest within the limit, with white space around them, each as the value it denotes.
   */
  lemma {:induction false} AcceptedIff(s: bytes, v: Json)
    ensures ReadDocument(s, true).Some? && ReadDocument(s, true).value.value == v
       <==> exists bom, before, x, after :: IsDocument(s, bom, before, x, after) && Value(x) == v
  {
    if ReadDocument(s, true).Some? {
      var bom, before, x, after := AcceptedIsDocument(s);
      assert IsDocument(s, bom, before, x, after);
    }
    forall bom, before, x, after | IsDocument(s, bom, before, x, after)
      ensures ReadDocument(s, true) == Some(Read(Value(x), |s| - 1))
    {
      GrammarParses(bom, before, x, after, s, true);
    }
  }

  /** Without the NUL, whatever starts with such a text is accepted, and nothing else. */
  lemma {:induction false} PrefixAcceptedIff(s: bytes)
    ensures ReadDocument(s, false).Some?
       <==> exists bom, before, x, rest :: StartsDocument(s, bom, before, x, rest)
  {
    if ReadDocument(s, false).Some? {
      var bom, before, x, next := DocumentStarts(s, false);
      assert s == s[..next] + s[next..];
      assert StartsDocument(s, bom, before, x, s[next..]);
    }
    forall bom, before, x, rest | StartsDocument(s, bom, before, x, rest) ensures ReadDocument(s, false).Some? {
      StartAccepted(s, bom, before, x, rest);
    }
  }

  lemma {:induction false} StartAccepted(s: bytes, bom: bool, before: bytes, x: Syntax, rest: bytes)
    requires StartsDocument(s, bom, before, x, rest)
    ensures ReadDocument(s, false).Some?
  {
    var mark := Mark(bom);
    var at := |mark| + |before|;
    ShowsItself(s);
    SplitWord(s, 0, mark + before + Render(x), rest);
    SplitThree(s, 0, mark, before, Render(x));
    LevelsAre(x);
    SyntaxPrefix(x, s, at);
    SyntaxStarts(x, s, at);
    SpaceShows(before, s, |mark|);
    BomSkipped(s, bom);
    BlankRun(s, |mark|, at);
  }

  /** No text of the grammar within the limit denotes two values. */
  lemma {:induction false} OneMeaning(x: Syntax, y: Syntax)
    requires Ok(x) && Ok(y) && Render(x) == Render(y)
    requires Nesting(Value(x)) <= NESTING_LIMIT && Nesting(Value(y)) <= NESTING_LIMIT
    ensures Value(x) == Value(y)
  {
    GrammarParses(false, [], x, [], Document(false, [], Render(x), []), true);
    GrammarParses(false, [], y, [], Document(false, [], Render(y), []), true);
  }
}
