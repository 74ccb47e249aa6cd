/** The parser accepts every text of the grammar that nests no deeper than its limit, and reads the value it denotes. */
module JsonAccepts {
  import opened Wrappers
  import opened Bytes
  import opened Json
  import opened JsonReading
  import JsonText
  import opened JsonGrammar
  import opened Utf16
  import opened JsonSteps
  import opened JsonNumbers

  // ---------- strings

  lemma {:induction false} QuadReads(q: bytes, s: bytes, p: nat)
    requires |q| == 4 && Shows(s, p, q)
    ensures p + 4 <= |s| && IsQuad(s, p) == IsQuad(q, 0) && Hex4(s, p) == Hex4(q, 0)
  {
    WordAt(s, p, q, 0);
    WordAt(s, p, q, 1);
    WordAt(s, p, q, 2);
    WordAt(s, p, q, 3);
  }

  /** `\u` and four bytes. */
  lemma {:induction false} EscapeReads(q: bytes, s: bytes, i: nat)
    requires |q| == 4 && Shows(s, i, [BACKSLASH, LOWER_U] + q)
    ensures i + 6 <= |s| && s[i] == BACKSLASH && s[i + 1] == LOWER_U && Hex4(s, i + 2) == Hex4(q, 0)
  {
    var mark: bytes := [BACKSLASH, LOWER_U];
    SplitWord(s, i, mark, q);
    WordAt(s, i, mark, 0);
    WordAt(s, i, mark, 1);
    QuadReads(q, s, i + 2);
  }

  /** A character is one turn of the second pass, which gives its value; an escape may reach over the end. */
  lemma {:induction false} CharReads(c: Char, s: bytes, i: nat, end: nat)
    requires CharOk(c) && Shows(s, i, CharText(c)) && i < end < |s|
    requires i + |CharText(c)| <= if c.Escaped? then end + 1 else end
    ensures Chunk(s, i, end) == Some(Piece(|CharText(c)|, CharValue(c)))
  {
    match c
    case Pair(h, l) =>
      PairChunk(h, l, s, i, end);
    case Unicode(q) =>
      EscapeReads(q, s, i);
    case Bad(four) =>
      EscapeReads(four, s, i);
    case _ =>
      ShortChunk(c, s, i, end);
  }

  lemma {:induction false} ShortChunk(c: Char, s: bytes, i: nat, end: nat)
    requires CharOk(c) && (c.Raw? || c.Escaped?) && Shows(s, i, CharText(c)) && i < end < |s|
    ensures Chunk(s, i, end) == Some(Piece(|CharText(c)|, CharValue(c)))
  {
    WordAt(s, i, CharText(c), 0);
    if c.Escaped? {
      WordAt(s, i, CharText(c), 1);
    }
  }

  lemma {:induction false} PairChunk(h: bytes, l: bytes, s: bytes, i: nat, end: nat)
    requires CharOk(Pair(h, l)) && Shows(s, i, CharText(Pair(h, l))) && i + 12 <= end < |s|
    ensures Chunk(s, i, end) == Some(Piece(12, CharValue(Pair(h, l))))
  {
    PairReads(h, l, s, i);
    CombineIs(Hex4(h, 0), Hex4(l, 0));
  }

  lemma {:induction false} PairReads(h: bytes, l: bytes, s: bytes, i: nat)
    requires HexQuad(h) && HexQuad(l) && Shows(s, i, [BACKSLASH, LOWER_U] + h + ([BACKSLASH, LOWER_U] + l))
    ensures i + 12 <= |s| && s[i] == s[i + 6] == BACKSLASH && s[i + 1] == s[i + 7] == LOWER_U
    ensures Hex4(s, i + 2) == Hex4(h, 0) && Hex4(s, i + 8) == Hex4(l, 0)
  {
    SplitWord(s, i, [BACKSLASH, LOWER_U] + h, [BACKSLASH, LOWER_U] + l);
    EscapeReads(h, s, i);
    EscapeReads(l, s, i + 6);
  }

  lemma {:induction false} CharsShow(chars: seq<Char>, s: bytes, i: nat) returns (next: nat)
    requires chars != [] && Shows(s, i, CharsText(chars))
    ensures next == i + |CharText(chars[0])| && Shows(s, i, CharText(chars[0])) && Shows(s, next, CharsText(chars[1..]))
    ensures i + |CharsText(chars)| == next + |CharsText(chars[1..])|
  {
    next := i + |CharText(chars[0])|;
    SplitWord(s, i, CharText(chars[0]), CharsText(chars[1..]));
  }

  /** These characters from `i` on lead to `next`: the end, or the closing quote taken by an escape. */
  ghost predicate Leads(chars: seq<Char>, next: nat, end: nat) {
    next == end || (next == end + 1 && (chars == [] || EndsInQuote(chars)))
  }

  lemma {:induction false} LastIsQuote(chars: seq<Char>)
    requires EndsInQuote(chars)
    ensures |CharsText(chars)| >= 2 && CharsText(chars)[|CharsText(chars)| - 1] == QUOTE
  {
    var first, rest := CharText(chars[0]), CharsText(chars[1..]);
    if |chars| > 1 {
      assert chars[1..][|chars| - 2] == chars[|chars| - 1];
      LastIsQuote(chars[1..]);
      assert (first + rest)[|first + rest| - 1] == rest[|rest| - 1];
    } else {
      assert rest == [];
      assert first + rest == [BACKSLASH, QUOTE];
    }
  }

  lemma {:induction false} CharNotEmpty(c: Char)
    requires CharOk(c)
    ensures CharText(c) != []
  {
  }

  lemma {:induction false} CharTurns(chars: seq<Char>, s: bytes, i: nat, end: nat, done: bytes) returns (next: nat)
    requires chars != [] && CharsOk(chars) && Shows(s, i, CharsText(chars)) && end < |s|
    requires Leads(chars, i + |CharsText(chars)|, end)
    ensures i < next <= end + 1 && Unescape(s, i, end, done) == Unescape(s, next, end, done + CharValue(chars[0]))
    ensures Shows(s, next, CharsText(chars[1..])) && Leads(chars[1..], next + |CharsText(chars[1..])|, end)
  {
    next := CharsShow(chars, s, i);
    CharNotEmpty(chars[0]);
    if i + |CharsText(chars)| > end {
      LastIsQuote(chars);
      if |chars| > 1 {
        LastIsQuote(chars[1..]);
      }
    }
    CharReads(chars[0], s, i, end);
    OneTurn(s, i, end, done, CharValue(chars[0]), next);
  }

  /** The second pass takes the characters one by one. */
  lemma {:induction false} CharsRead(chars: seq<Char>, s: bytes, i: nat, end: nat, done: bytes)
    requires CharsOk(chars) && Shows(s, i, CharsText(chars)) && end < |s| && Leads(chars, i + |CharsText(chars)|, end)
    ensures i <= end + 1 && Unescape(s, i, end, done) == Some(done + CharsValue(chars))
  {
    if chars == [] {
      assert done + [] == done;
    } else {
      var next := CharTurns(chars, s, i, end, done);
      CharsRead(chars[1..], s, next, end, done + CharValue(chars[0]));
      JsonText.Assoc(done, CharValue(chars[0]), CharsValue(chars[1..]));
    }
  }

  /** The first pass finds the quote behind a closed body. */
  lemma {:induction false} ClosedScans(body: bytes, k: nat, s: bytes, i: nat, end: nat)
    requires Closed(body, k) && Shows(s, i, body) && end == i + |body| && LooksAt(s, end, QUOTE)
    ensures i + k <= end && ScanEnd(s, i + k) == Some(end)
    decreases |body| - k
  {
    if k < |body| {
      WordAt(s, i, body, k);
      ClosedScans(body, if body[k] == BACKSLASH then k + 2 else k + 1, s, i, end);
    }
  }

  lemma {:induction false} QuotesShow(inner: bytes, s: bytes, p: nat)
    requires Shows(s, p, [QUOTE] + inner + [QUOTE])
    ensures LooksAt(s, p, QUOTE) && Shows(s, p + 1, inner) && LooksAt(s, p + 1 + |inner|, QUOTE)
  {
    SplitThree(s, p, [QUOTE], inner, [QUOTE]);
    WordAt(s, p, [QUOTE], 0);
    WordAt(s, p + 1 + |inner|, [QUOTE], 0);
  }

  lemma {:induction false} CharsInQuotes(q: Quote, s: bytes, p: nat, end: nat)
    requires Spells(q) && Shows(s, p, QuoteText(q)) && end == p + 1 + |q.body|
    ensures LooksAt(s, p, QUOTE) && Shows(s, p + 1, q.body) && LooksAt(s, end, QUOTE)
    ensures Shows(s, p + 1, CharsText(q.chars)) && Leads(q.chars, p + 1 + |CharsText(q.chars)|, end)
  {
    QuotesShow(q.body, s, p);
    if |CharsText(q.chars)| > |q.body| {
      LastIsQuote(q.chars);
    }
    BodyShowsChars(q.body, CharsText(q.chars), s, p + 1);
  }

  lemma {:induction false} BodyShowsChars(body: bytes, text: bytes, s: bytes, i: nat)
    requires Shows(s, i, body) && LooksAt(s, i + |body|, QUOTE) && body <= text
    requires |text| > |body| ==> |text| == |body| + 1 && text[|body|] == QUOTE
    ensures Shows(s, i, text)
  {
    forall k: nat | k < |text| ensures s[i + k] == ByteOf(text, k) {
      if k < |body| {
        WordAt(s, i, body, k);
      }
    }
  }

  lemma {:induction false} BodyReads(q: Quote, s: bytes, i: nat, end: nat)
    requires Spells(q) && Shows(s, i, q.body) && end == i + |q.body| && LooksAt(s, end, QUOTE)
    requires Shows(s, i, CharsText(q.chars)) && Leads(q.chars, i + |CharsText(q.chars)|, end)
    ensures ScanEnd(s, i) == Some(end) && Unescape(s, i, end, []) == Some(CharsValue(q.chars))
  {
    ClosedScans(q.body, 0, s, i, end);
    CharsRead(q.chars, s, i, end, []);
    assert [] + CharsValue(q.chars) == CharsValue(q.chars);
  }

  lemma {:induction false} QuotationReads(q: Quote, s: bytes, p: nat)
    requires QuoteOk(q) && Shows(s, p, QuoteText(q))
    ensures LooksAt(s, p, QUOTE) && ReadString(s, p) == Some(Read(q.value, p + |QuoteText(q)|))
  {
    Opened(q);
    CharsInQuotes(q, s, p, p + 1 + |q.body|);
    BodyReads(q, s, p + 1, p + 1 + |q.body|);
    StringAt(s, p, p + 1 + |q.body|, CharsValue(q.chars));
  }

  /** A character that ends a C string. */
  predicate IsNul(c: Char) {
    c == Raw(0) || c.Bad? || (c.Unicode? && |c.quad| == 4 && Hex4(c.quad, 0) == 0)
  }

  lemma {:induction false} CharHasNulIff(c: Char)
    requires CharOk(c)
    ensures 0 in CharValue(c) <==> IsNul(c)
  {
    if c.Escaped? {
      assert ESCAPES[c.letter] != 0;
    }
  }

  /** A string is read whole if and only if no NUL is written in it: as it is, by its escape, or by a bad one. */
  lemma {:induction false} WholeStringIff(chars: seq<Char>)
    requires CharsOk(chars)
    ensures CString(CharsValue(chars)) == CharsValue(chars) <==> forall c <- chars :: !IsNul(c)
  {
    if chars != [] {
      CharHasNulIff(chars[0]);
      WholeStringIff(chars[1..]);
      assert chars == [chars[0]] + chars[1..];
    }
  }

  // ---------- numbers

  lemma {:induction false} DigitsEndAt(r: bytes, i: nat, d: bytes)
    requires Shows(r, i, d) && AllDigits(d) && (i + |d| < |r| ==> !IsDigit(r[i + |d|]))
    ensures DigitsEnd(r, i) == i + |d|
    decreases |d|
  {
    if d != [] {
      assert d == [d[0]] + d[1..];
      SplitWord(r, i, [d[0]], d[1..]);
      WordAt(r, i, d, 0);
      DigitsEndAt(r, i + 1, d[1..]);
    }
  }

  ghost predicate ValueIs(r: bytes, i: nat, j: nat, value: nat) {
    i <= j <= |r| && (forall k :: i <= k < j ==> IsDigit(r[k])) && DigitsValue(r, i, j) == value
  }

  lemma {:induction false} DecimalReads(r: bytes, i: nat, d: bytes)
    requires Shows(r, i, d) && AllDigits(d)
    ensures ValueIs(r, i, i + |d|, Decimal(d))
    decreases |d|
  {
    forall k | i <= k < i + |d| ensures IsDigit(r[k]) {
      WordAt(r, i, d, k - i);
    }
    if d != [] {
      var front, last := d[..|d| - 1], d[|d| - 1];
      assert d == front + [last];
      SplitWord(r, i, front, [last]);
      WordAt(r, i, d, |d| - 1);
      DecimalReads(r, i, front);
    }
  }

  /** An exponent starts with its letter, so that digits before it end there. */
  lemma {:induction false} ExponentStarts(exponent: Option<Exponent>, r: bytes, i: nat)
    requires (exponent.Some? ==> ExponentOk(exponent.value)) && EndsWith(r, i, ExponentText(exponent))
    ensures if exponent.None? then i == |r| else i < |r| && r[i] == exponent.value.mark
  {
    if exponent.Some? {
      WordAt(r, i, ExponentText(exponent), 0);
    }
  }

  lemma {:induction false} ExponentReads(exponent: Option<Exponent>, r: bytes, i: nat)
    requires (exponent.Some? ==> ExponentOk(exponent.value)) && EndsWith(r, i, ExponentText(exponent))
    ensures ReadExponent(r, i) == (ExponentValue(exponent), |r|)
  {
    ExponentStarts(exponent, r, i);
    if exponent.Some? {
      MarkedReads(exponent.value, r, i);
    }
  }

  lemma {:induction false} MarkedReads(e: Exponent, r: bytes, i: nat)
    requires ExponentOk(e) && EndsWith(r, i, [e.mark] + e.sign + e.digits) && LooksAt(r, i, e.mark)
    ensures ReadExponent(r, i) == (if e.sign == [MINUS] then -(Decimal(e.digits) as int) else Decimal(e.digits), |r|)
  {
    var from := i + 1 + |e.sign|;
    SplitThree(r, i, [e.mark], e.sign, e.digits);
    WordAt(r, from, e.digits, 0);
    if e.sign != [] {
      WordAt(r, i + 1, e.sign, 0);
    }
    DigitsEndAt(r, from, e.digits);
    DecimalReads(r, from, e.digits);
  }

  /** The digits after the point, if there are any, end at `to`, where the exponent starts. */
  lemma {:induction false} FractionReads(point: bool, fraction: bytes, r: bytes, i: nat, to: nat)
    requires AllDigits(fraction) && (fraction != [] ==> point)
    requires Shows(r, i, FractionText(point, fraction)) && to == i + |FractionText(point, fraction)|
    requires to < |r| ==> r[to] == LOWER_E || r[to] == UPPER_E
    ensures i < |r| ==> !IsDigit(r[i])
    ensures LooksAt(r, i, DOT) == point
    ensures !point ==> to == i
    ensures point ==> to == i + 1 + |fraction| && DigitsEnd(r, i + 1) == to && Shows(r, i + 1, fraction)
  {
    if point {
      SplitWord(r, i, [DOT], fraction);
      WordAt(r, i, [DOT], 0);
      DigitsEndAt(r, i + 1, fraction);
    }
  }

  /** Where the parts of a number are. */
  lemma {:induction false} NumeralShows(n: Numeral, r: bytes) returns (start: nat, whole: nat, frac: nat)
    requires NumeralOk(n) && EndsWith(r, 0, NumeralText(n))
    ensures start == (if n.negative then 1 else 0)
    ensures LooksAt(r, 0, MINUS) == n.negative && !LooksAt(r, 0, PLUS)
    ensures Shows(r, start, n.whole) && whole == start + |n.whole|
    ensures Shows(r, whole, FractionText(n.point, n.fraction)) && frac == whole + |FractionText(n.point, n.fraction)|
    ensures EndsWith(r, frac, ExponentText(n.exponent))
  {
    var sign, exponent := SignText(n.negative), ExponentText(n.exponent);
    var fraction := FractionText(n.point, n.fraction);
    start, whole, frac := |sign|, |sign| + |n.whole|, |sign| + |n.whole| + |fraction|;
    SplitWord(r, 0, sign + n.whole + fraction, exponent);
    SplitThree(r, 0, sign, n.whole, fraction);
    if n.negative {
      WordAt(r, 0, sign, 0);
    } else {
      WordAt(r, 0, n.whole, 0);
    }
  }

  /** And what they are worth. */
  lemma {:induction false} NumeralParts(n: Numeral, r: bytes, start: nat, whole: nat, frac: nat) returns (point: nat)
    requires NumeralOk(n) && Shows(r, start, n.whole) && whole == start + |n.whole|
    requires Shows(r, whole, FractionText(n.point, n.fraction)) && frac == whole + |FractionText(n.point, n.fraction)|
    requires EndsWith(r, frac, ExponentText(n.exponent))
    ensures start <= whole <= point <= frac <= |r| && DigitsEnd(r, start) == whole
    ensures point == if LooksAt(r, whole, DOT) then whole + 1 else whole
    ensures if point > whole then DigitsEnd(r, point) == frac else frac == whole
    ensures ReadExponent(r, frac) == (ExponentValue(n.exponent), |r|)
    ensures ValueIs(r, start, whole, Decimal(n.whole))
    ensures frac - point == |n.fraction| && ValueIs(r, point, frac, Decimal(n.fraction))
  {
    ExponentStarts(n.exponent, r, frac);
    ExponentReads(n.exponent, r, frac);
    FractionReads(n.point, n.fraction, r, whole, frac);
    point := frac - |n.fraction|;
    DigitsEndAt(r, start, n.whole);
    DecimalReads(r, start, n.whole);
    FractionValue(n.point, n.fraction, r, whole, point, frac);
  }

  lemma {:induction false} FractionValue(point: bool, fraction: bytes, r: bytes, whole: nat, from: nat, frac: nat)
    requires AllDigits(fraction) && (fraction != [] ==> point) && whole <= |r|
    requires from == (if point then whole + 1 else whole) && frac == from + |fraction|
    requires point ==> Shows(r, from, fraction)
    ensures ValueIs(r, from, frac, Decimal(fraction))
  {
    if point {
      DecimalReads(r, from, fraction);
    }
  }

  /** `strtod` takes all of the number and gives the value that it denotes. */
  lemma {:induction false} NumeralReads(n: Numeral, r: bytes)
    requires NumeralOk(n) && EndsWith(r, 0, NumeralText(n))
    ensures Strtod(r) == Read(n.value, |r|)
  {
    var start, whole, frac := NumeralShows(n, r);
    var point := NumeralParts(n, r, start, whole, frac);
    StrtodParts(r, start, whole, point, frac, ExponentValue(n.exponent));
    Weighed(n);
    WorthIff(n);
  }

  /** `strtod` on a number whose parts are known. */
  lemma {:induction false} StrtodParts(r: bytes, start: nat, whole: nat, point: nat, frac: nat, exponent: int)
    requires start == (if LooksAt(r, 0, MINUS) then 1 else 0) && !LooksAt(r, 0, PLUS)
    requires start <= whole <= point <= frac <= |r| && DigitsEnd(r, start) == whole && (start < whole || point < frac)
    requires point == if LooksAt(r, whole, DOT) then whole + 1 else whole
    requires if point > whole then DigitsEnd(r, point) == frac else frac == whole
    requires ReadExponent(r, frac) == (exponent, |r|)
    ensures Strtod(r) == Read(Scaled(LooksAt(r, 0, MINUS), DigitsValue(r, start, whole), DigitsValue(r, point, frac),
                                     frac - point, exponent), |r|)
  {
  }

  ghost predicate NumberBytes(b: bytes) {
    forall i :: 0 <= i < |b| ==> IsNumberByte(b[i])
  }

  lemma {:induction false} NumberBytesJoin(a: bytes, b: bytes)
    requires NumberBytes(a) && NumberBytes(b)
    ensures NumberBytes(a + b)
  {
  }

  lemma {:induction false} NumeralBytes(n: Numeral)
    requires NumeralOk(n)
    ensures NumberBytes(NumeralText(n))
  {
    var sign, exponent := SignText(n.negative), ExponentText(n.exponent);
    var fraction := FractionText(n.point, n.fraction);
    assert NumberBytes(exponent);
    NumberBytesJoin(sign, n.whole);
    NumberBytesJoin(sign + n.whole, fraction);
    NumberBytesJoin(sign + n.whole + fraction, exponent);
  }

  lemma {:induction false} NumeralStarts(n: Numeral)
    requires NumeralOk(n)
    ensures NumeralText(n) != [] && (NumeralText(n)[0] == MINUS || IsDigit(NumeralText(n)[0]))
  {
    var text := NumeralText(n);
    assert text[0] == if n.negative then MINUS else n.whole[0];
  }

  lemma {:induction false} FigureRuns(n: Numeral, s: bytes, p: nat)
    requires NumeralOk(n) && Shows(s, p, NumeralText(n)) && Ends(s, p + |NumeralText(n)|)
    ensures p < |s| && (s[p] == MINUS || IsDigit(s[p]))
    ensures RunEnd(s, p) == p + |NumeralText(n)|
  {
    var text := NumeralText(n);
    NumeralBytes(n);
    NumeralStarts(n);
    WordAt(s, p, text, 0);
    forall i | p <= i < p + |text| ensures IsNumberByte(s[i]) {
      WordAt(s, p, text, i - p);
    }
    RunEndAt(s, p, p + |text|);
  }

  lemma {:induction false} FigureReads(n: Numeral, s: bytes, p: nat)
    requires NumeralOk(n) && Shows(s, p, NumeralText(n)) && Ends(s, p + |NumeralText(n)|)
    ensures p < |s| && (s[p] == MINUS || IsDigit(s[p]))
    ensures ReadNumber(s, p) == Some(Read(Number(n.value), p + |NumeralText(n)|))
  {
    FigureRuns(n, s, p);
    NumeralStarts(n);
    ShowsItself(NumeralText(n));
    NumeralReads(n, NumeralText(n));
    ShowsIff(s, p, NumeralText(n));
    NumberAt(s, p, NumeralText(n), n.value);
  }

  // ---------- white space

  lemma {:induction false} SpaceShows(b: bytes, s: bytes, p: nat)
    requires Space(b) && Shows(s, p, b)
    ensures Blank(s, p, p + |b|)
  {
    forall i | p <= i < p + |b| ensures s[i] <= 32 {
      WordAt(s, p, b, i - p);
    }
  }

  /** White space around a text. */
  lemma {:induction false} PaddedShows(before: bytes, text: bytes, after: bytes, s: bytes, q: nat)
    requires Shows(s, q, before + text + after) && Space(before) && Space(after)
    requires Ends(s, q + |before + text + after|)
    ensures Blank(s, q, q + |before|) && Shows(s, q + |before|, text)
    ensures Blank(s, q + |before| + |text|, q + |before + text + after|) && Ends(s, q + |before| + |text|)
  {
    SplitThree(s, q, before, text, after);
    SpaceShows(before, s, q);
    SpaceShows(after, s, q + |before| + |text|);
    BlankEnds(s, q + |before| + |text|, q + |before + text + after|);
  }

  // ---------- values

  lemma {:induction false} RenderStarts(x: Syntax)
    requires Ok(x)
    ensures Render(x) != [] && Starts(Render(x)[0])
  {
    if x.Figure? {
      NumeralStarts(x.n);
    }
  }

  lemma {:induction false} SyntaxStarts(x: Syntax, s: bytes, p: nat)
    requires Ok(x) && Shows(s, p, Render(x))
    ensures p < |s| && Starts(s[p]) && s[p] > 32
  {
    RenderStarts(x);
    WordAt(s, p, Render(x), 0);
  }

  lemma {:induction false} WordReads(x: Syntax, depth: nat, s: bytes, p: nat)
    requires (x.NullWord? || x.FalseWord? || x.TrueWord?) && Shows(s, p, Render(x))
    ensures p < |s| && ReadValue(s, p, depth) == Some(Read(Value(x), p + |Render(x)|))
  {
    WordAt(s, p, Render(x), 0);
    WordShows(s, p, Render(x));
    if !x.NullWord? {
      NotAWord(s, p, NULL_TEXT);
    }
    if x.TrueWord? {
      NotAWord(s, p, FALSE_TEXT);
    }
  }

  lemma {:induction false} FigureValue(n: Numeral, depth: nat, s: bytes, p: nat)
    requires NumeralOk(n) && Shows(s, p, NumeralText(n)) && Ends(s, p + |NumeralText(n)|)
    ensures p < |s| && ReadValue(s, p, depth) == Some(Read(Number(n.value), p + |NumeralText(n)|))
  {
    FigureReads(n, s, p);
    NoWord(s, p);
  }

  lemma {:induction false} QuotationValue(q: Quote, depth: nat, s: bytes, p: nat)
    requires QuoteOk(q) && Shows(s, p, QuoteText(q))
    ensures p < |s| && ReadValue(s, p, depth) == Some(Read(String(q.value), p + |QuoteText(q)|))
  {
    QuotationReads(q, s, p);
    NoWord(s, p);
  }

  /**
   Reading at the start of a text gives the value that it denotes and stops behind it, if nothing comes
   behind a number that could continue it.
   */
  lemma {:induction false} SyntaxReads(x: Syntax, depth: nat, s: bytes, p: nat, next: nat)
    requires Ok(x) && depth + Levels(x) <= NESTING_LIMIT && Shows(s, p, Render(x))
    requires next == p + |Render(x)| && (x.Figure? ==> Ends(s, next))
    ensures ReadValue(s, p, depth) == Some(Read(Value(x), next))
    decreases x, 1
  {
    match x
    case List(gap, elements) => ListReads(gap, elements, depth, s, p, next);
    case Record(gap, entries) => RecordReads(gap, entries, depth, s, p, next);
    case Figure(n) => FigureValue(n, depth, s, p);
    case Quotation(q) => QuotationValue(q, depth, s, p);
    case _ => WordReads(x, depth, s, p);
  }

  // ---------- arrays

  ghost function ListInner(gap: bytes, elements: seq<Element>): bytes {
    if elements == [] then gap else ElementsText(elements)
  }

  lemma {:induction false} BracketsShow(inner: bytes, s: bytes, p: nat)
    requires Shows(s, p, [OPEN_BRACKET] + inner + [CLOSE_BRACKET])
    ensures LooksAt(s, p, OPEN_BRACKET) && Shows(s, p + 1, inner) && LooksAt(s, p + 1 + |inner|, CLOSE_BRACKET)
  {
    SplitThree(s, p, [OPEN_BRACKET], inner, [CLOSE_BRACKET]);
    WordAt(s, p, [OPEN_BRACKET], 0);
    WordAt(s, p + 1 + |inner|, [CLOSE_BRACKET], 0);
  }

  lemma {:induction false} ListReads(gap: bytes, elements: seq<Element>, depth: nat, s: bytes, p: nat, next: nat)
    requires Space(gap) && ElementsOk(elements) && depth + 1 + ElementsLevels(elements) <= NESTING_LIMIT
    requires Shows(s, p, [OPEN_BRACKET] + ListInner(gap, elements) + [CLOSE_BRACKET])
    requires next == p + |ListInner(gap, elements)| + 2
    ensures ReadValue(s, p, depth) == Some(Read(Array(Values(elements)), next))
    decreases elements, 6
  {
    var inner, first := ListInner(gap, elements), next - 1;
    BracketsShow(inner, s, p);
    if elements == [] {
      SpaceShows(gap, s, p + 1);
    } else {
      first := FilledListReads(elements, depth + 1, s, p, next - 1);
    }
    ArrayValue(s, p, depth, first, Values(elements), next);
  }

  lemma {:induction false} FilledListReads(elements: seq<Element>, depth: nat, s: bytes, p: nat, close: nat)
    returns (first: nat)
    requires elements != [] && ElementsOk(elements) && depth + ElementsLevels(elements) <= NESTING_LIMIT
    requires Shows(s, p + 1, ElementsText(elements)) && close == p + 1 + |ElementsText(elements)|
    requires LooksAt(s, close, CLOSE_BRACKET)
    ensures ArrayLeads(s, p, depth, first, Values(elements), close)
    decreases elements, 5
  {
    first := ListStarts(elements, s, p, close);
    ListFrom(s, p, depth, first, Values(elements), close);
    ElementsRead(elements, depth, s, first, p + 1, close);
  }

  lemma {:induction false} ListStarts(elements: seq<Element>, s: bytes, p: nat, close: nat) returns (first: nat)
    requires elements != [] && ElementsOk(elements) && Shows(s, p + 1, ElementsText(elements))
    requires close == p + 1 + |ElementsText(elements)| && LooksAt(s, close, CLOSE_BRACKET)
    ensures first == p + 1 + |elements[0].before| && Blank(s, p + 1, first) && first < |s| && Starts(s[first])
  {
    first := p + 1 + |elements[0].before|;
    var next := ElementsShow(elements, s, p + 1, close);
    SyntaxStarts(elements[0].value, s, first);
  }

  /** Where the first element of a list ends, and where the next one starts. */
  lemma {:induction false} ElementsShow(es: seq<Element>, s: bytes, q: nat, close: nat) returns (next: nat)
    requires es != [] && ElementsOk(es) && Shows(s, q, ElementsText(es)) && close == q + |ElementsText(es)|
    requires LooksAt(s, close, CLOSE_BRACKET)
    ensures Shows(s, q, ElementText(es[0])) && next == q + |ElementText(es[0])| + 1
    ensures Blank(s, q, q + |es[0].before|) && Shows(s, q + |es[0].before|, Render(es[0].value))
    ensures |es| == 1 ==> next == close + 1
    ensures |es| > 1 ==>
      LooksAt(s, next - 1, COMMA) && Shows(s, next, ElementsText(es[1..])) && close == next + |ElementsText(es[1..])|
  {
    var text := ElementText(es[0]);
    next := q + |text| + 1;
    if |es| > 1 {
      SplitThree(s, q, text, [COMMA], ElementsText(es[1..]));
      WordAt(s, next - 1, [COMMA], 0);
    }
    PaddedShows(es[0].before, Render(es[0].value), es[0].after, s, q);
  }

  /** An element with white space around it, up to the comma or bracket at `close`. */
  lemma {:induction false} ElementReads(e: Element, depth: nat, s: bytes, p: nat, q: nat, close: nat)
    requires Space(e.before) && Ok(e.value) && Space(e.after) && depth + Levels(e.value) <= NESTING_LIMIT
    requires Shows(s, q, ElementText(e)) && close == q + |ElementText(e)| && Ends(s, close) && s[close] > 32
    requires Blank(s, p, q + |e.before|)
    ensures ItemGives(s, p, depth, Value(e.value), close)
    decreases e.value, 2
  {
    var at, after := q + |e.before|, q + |e.before| + |Render(e.value)|;
    PaddedShows(e.before, Render(e.value), e.after, s, q);
    SyntaxStarts(e.value, s, at);
    BlankRun(s, p, at);
    BlankRun(s, after, close);
    SyntaxReads(e.value, depth, s, at, after);
    ItemAt(s, p, depth, at, Value(e.value), after, close);
  }

  lemma {:induction false} ElementsNext(es: seq<Element>, s: bytes, q: nat, close: nat) returns (next: nat)
    requires |es| > 1 && ElementsOk(es) && Shows(s, q, ElementsText(es)) && close == q + |ElementsText(es)|
    requires LooksAt(s, close, CLOSE_BRACKET)
    ensures Shows(s, q, ElementText(es[0])) && next == q + |ElementText(es[0])| + 1 && LooksAt(s, next - 1, COMMA)
    ensures Shows(s, next, ElementsText(es[1..])) && close == next + |ElementsText(es[1..])|
    ensures Blank(s, next, next + |es[1].before|)
  {
    next := ElementsShow(es, s, q, close);
    var after := ElementsShow(es[1..], s, next, close);
  }

  lemma {:induction false} OnlyElementReads(es: seq<Element>, depth: nat, s: bytes, p: nat, q: nat, close: nat)
    requires |es| == 1 && ElementsOk(es) && depth + ElementsLevels(es) <= NESTING_LIMIT
    requires Shows(s, q, ElementsText(es)) && close == q + |ElementsText(es)| && LooksAt(s, close, CLOSE_BRACKET)
    requires Blank(s, p, q + |es[0].before|)
    ensures ItemsLead(s, p, depth, Values(es), close)
    decreases es, 3
  {
    ElementReads(es[0], depth, s, p, q, close);
    OneItemLeads(s, p, depth, Values(es), close);
  }

  lemma {:induction false} FirstElementReads(es: seq<Element>, depth: nat, s: bytes, p: nat, q: nat, close: nat)
    returns (next: nat)
    requires |es| > 1 && ElementsOk(es) && depth + ElementsLevels(es) <= NESTING_LIMIT
    requires Shows(s, q, ElementsText(es)) && close == q + |ElementsText(es)| && LooksAt(s, close, CLOSE_BRACKET)
    requires Blank(s, p, q + |es[0].before|)
    ensures Shows(s, next, ElementsText(es[1..])) && close == next + |ElementsText(es[1..])|
    ensures Blank(s, next, next + |es[1].before|)
    ensures ItemsLead(s, next, depth, Values(es[1..]), close) ==> ItemsLead(s, p, depth, Values(es), close)
    decreases es, 3
  {
    next := ElementsNext(es, s, q, close);
    ElementLeads(es, depth, s, p, q, next - 1, close);
  }

  lemma {:induction false} ElementLeads(es: seq<Element>, depth: nat, s: bytes, p: nat, q: nat, after: nat, close: nat)
    requires |es| > 1 && ElementsOk(es) && depth + ElementsLevels(es) <= NESTING_LIMIT
    requires Shows(s, q, ElementText(es[0])) && after == q + |ElementText(es[0])| && LooksAt(s, after, COMMA)
    requires Blank(s, p, q + |es[0].before|)
    ensures ItemsLead(s, after + 1, depth, Values(es[1..]), close) ==> ItemsLead(s, p, depth, Values(es), close)
    decreases es, 2
  {
    ElementReads(es[0], depth, s, p, q, after);
    MoreItemsLead(s, p, depth, Values(es), after, close);
  }

  /** The elements of a list, whose text starts at `q`, with at most white space between `p` and the first value. */
  lemma {:induction false} ElementsRead(es: seq<Element>, depth: nat, s: bytes, p: nat, q: nat, close: nat)
    requires es != [] && ElementsOk(es) && depth + ElementsLevels(es) <= NESTING_LIMIT
    requires Shows(s, q, ElementsText(es)) && close == q + |ElementsText(es)| && LooksAt(s, close, CLOSE_BRACKET)
    requires Blank(s, p, q + |es[0].before|)
    ensures ItemsLead(s, p, depth, Values(es), close)
    decreases es, 4
  {
    if |es| == 1 {
      OnlyElementReads(es, depth, s, p, q, close);
    } else {
      var next := FirstElementReads(es, depth, s, p, q, close);
      ElementsRead(es[1..], depth, s, next, next, close);
    }
  }

  // ---------- objects

  ghost function RecordInner(gap: bytes, entries: seq<Entry>): bytes {
    if entries == [] then gap else EntriesText(entries)
  }

  lemma {:induction false} BracesShow(inner: bytes, s: bytes, p: nat)
    requires Shows(s, p, [OPEN_BRACE] + inner + [CLOSE_BRACE])
    ensures LooksAt(s, p, OPEN_BRACE) && Shows(s, p + 1, inner) && LooksAt(s, p + 1 + |inner|, CLOSE_BRACE)
  {
    SplitThree(s, p, [OPEN_BRACE], inner, [CLOSE_BRACE]);
    WordAt(s, p, [OPEN_BRACE], 0);
    WordAt(s, p + 1 + |inner|, [CLOSE_BRACE], 0);
  }

  lemma {:induction false} RecordReads(gap: bytes, entries: seq<Entry>, depth: nat, s: bytes, p: nat, next: nat)
    requires Space(gap) && EntriesOk(entries) && depth + 1 + EntriesLevels(entries) <= NESTING_LIMIT
    requires Shows(s, p, [OPEN_BRACE] + RecordInner(gap, entries) + [CLOSE_BRACE])
    requires next == p + |RecordInner(gap, entries)| + 2
    ensures ReadValue(s, p, depth) == Some(Read(Object(Members(entries)), next))
    decreases entries, 6
  {
    var inner, first := RecordInner(gap, entries), next - 1;
    BracesShow(inner, s, p);
    if entries == [] {
      SpaceShows(gap, s, p + 1);
    } else {
      first := FilledRecordReads(entries, depth + 1, s, p, next - 1);
    }
    ObjectValue(s, p, depth, first, Members(entries), next);
  }

  lemma {:induction false} FirstEntryShows(es: seq<Entry>, s: bytes, q: nat)
    requires es != [] && Shows(s, q, EntriesText(es))
    ensures Shows(s, q, EntryText(es[0]))
    ensures |es| > 1 ==>
      && LooksAt(s, q + |EntryText(es[0])|, COMMA) && Shows(s, q + |EntryText(es[0])| + 1, EntriesText(es[1..]))
      && |EntriesText(es)| == |EntryText(es[0])| + 1 + |EntriesText(es[1..])|
  {
    if |es| > 1 {
      SplitThree(s, q, EntryText(es[0]), [COMMA], EntriesText(es[1..]));
      WordAt(s, q + |EntryText(es[0])|, [COMMA], 0);
    }
  }

  lemma {:induction false} RecordStarts(entries: seq<Entry>, s: bytes, p: nat, close: nat) returns (first: nat)
    requires entries != [] && EntriesOk(entries) && Shows(s, p + 1, EntriesText(entries))
    requires close == p + 1 + |EntriesText(entries)| && LooksAt(s, close, CLOSE_BRACE)
    ensures first == p + 1 + |entries[0].before| && Blank(s, p + 1, first) && LooksAt(s, first, QUOTE)
  {
    first := p + 1 + |entries[0].before|;
    FirstEntryShows(entries, s, p + 1);
    EntryStarts(entries[0], s, p + 1);
  }

  lemma {:induction false} FilledRecordReads(entries: seq<Entry>, depth: nat, s: bytes, p: nat, close: nat)
    returns (first: nat)
    requires entries != [] && EntriesOk(entries) && depth + EntriesLevels(entries) <= NESTING_LIMIT
    requires Shows(s, p + 1, EntriesText(entries)) && close == p + 1 + |EntriesText(entries)|
    requires LooksAt(s, close, CLOSE_BRACE)
    ensures ObjectLeads(s, p, depth, first, Members(entries), close)
    decreases entries, 5
  {
    first := RecordStarts(entries, s, p, close);
    RecordFrom(s, p, depth, first, Members(entries), close);
    EntriesRead(entries, depth, s, first, p + 1, close);
  }

  /** Where the parts of a key and its colon are. */
  lemma {:induction false} NameShows(e: Entry, s: bytes, q: nat) returns (name: nat, end: nat, colon: nat)
    requires KeyOk(e) && Shows(s, q, NameText(e))
    ensures name == q + |e.before| && Blank(s, q, name) && Shows(s, name, QuoteText(e.key))
    ensures end == name + |QuoteText(e.key)| && Blank(s, end, colon)
    ensures LooksAt(s, colon, COLON) && colon + 1 == q + |NameText(e)|
  {
    var text, back := QuoteText(e.key), e.middle + [COLON];
    name, end, colon := q + |e.before|, q + |e.before| + |text|, q + |e.before| + |text| + |e.middle|;
    SplitThree(s, q, e.before, text, back);
    SplitWord(s, end, e.middle, [COLON]);
    SpaceShows(e.before, s, q);
    SpaceShows(e.middle, s, end);
    WordAt(s, colon, [COLON], 0);
  }

  lemma {:induction false} QuoteNames(q: Quote, s: bytes, p: nat, name: nat, end: nat, colon: nat, next: nat)
    requires QuoteOk(q) && Shows(s, name, QuoteText(q)) && end == name + |QuoteText(q)|
    requires Blank(s, p, name) && Blank(s, end, colon) && LooksAt(s, colon, COLON) && next == colon + 1
    ensures LooksAt(s, name, QUOTE) && ReadKey(s, p) == Some(Read(q.value, next))
  {
    QuotationReads(q, s, name);
    KeyFrom(s, p, name, q.value, end, colon);
  }

  lemma {:induction false} NameReads(e: Entry, s: bytes, p: nat, q: nat)
    requires KeyOk(e) && Shows(s, q, NameText(e)) && Blank(s, p, q + |e.before|)
    ensures Blank(s, q, q + |e.before|) && LooksAt(s, q + |e.before|, QUOTE)
    ensures ReadKey(s, p) == Some(Read(e.key.value, q + |NameText(e)|))
  {
    var name, end, colon := NameShows(e, s, q);
    QuoteNames(e.key, s, p, name, end, colon, q + |NameText(e)|);
  }

  /** Where the key of an entry ends, with its colon. */
  lemma {:induction false} EntryShows(e: Entry, s: bytes, q: nat, close: nat) returns (middle: nat)
    requires Space(e.element.before) && Space(e.element.after)
    requires Shows(s, q, EntryText(e)) && close == q + |EntryText(e)| && Ends(s, close)
    ensures middle == q + |NameText(e)| && Shows(s, q, NameText(e)) && Shows(s, middle, ElementText(e.element))
    ensures close == middle + |ElementText(e.element)| && Blank(s, middle, middle + |e.element.before|)
  {
    middle := q + |NameText(e)|;
    SplitWord(s, q, NameText(e), ElementText(e.element));
    PaddedShows(e.element.before, Render(e.element.value), e.element.after, s, middle);
  }

  /** An entry up to the comma or brace at `close`. */
  lemma {:induction false} EntryReads(e: Entry, depth: nat, s: bytes, p: nat, q: nat, close: nat)
    requires KeyOk(e) && Space(e.element.before) && Ok(e.element.value) && Space(e.element.after)
    requires depth + Levels(e.element.value) <= NESTING_LIMIT
    requires Shows(s, q, EntryText(e)) && close == q + |EntryText(e)| && Ends(s, close) && s[close] > 32
    requires Blank(s, p, q + |e.before|)
    ensures MemberGives(s, p, depth, Member(e.key.value, Value(e.element.value)), close)
    decreases e.element.value, 3
  {
    var middle := EntryShows(e, s, q, close);
    NameReads(e, s, p, q);
    ElementReads(e.element, depth, s, middle, middle, close);
    MemberAt(s, p, depth, e.key.value, middle, Value(e.element.value), close);
  }

  /** Where the first entry ends, and where the next one starts. */
  lemma {:induction false} EntriesShow(es: seq<Entry>, s: bytes, q: nat, close: nat) returns (next: nat)
    requires es != [] && EntriesOk(es) && Shows(s, q, EntriesText(es)) && close == q + |EntriesText(es)|
    requires LooksAt(s, close, CLOSE_BRACE)
    ensures Shows(s, q, EntryText(es[0])) && next == q + |EntryText(es[0])| + 1
    ensures Blank(s, q, q + |es[0].before|) && LooksAt(s, q + |es[0].before|, QUOTE)
    ensures |es| == 1 ==> next == close + 1
    ensures |es| > 1 ==>
      LooksAt(s, next - 1, COMMA) && Shows(s, next, EntriesText(es[1..])) && close == next + |EntriesText(es[1..])|
  {
    next := q + |EntryText(es[0])| + 1;
    FirstEntryShows(es, s, q);
    EntryStarts(es[0], s, q);
  }

  lemma {:induction false} EntryStarts(e: Entry, s: bytes, q: nat)
    requires KeyOk(e) && Shows(s, q, EntryText(e))
    ensures Blank(s, q, q + |e.before|) && LooksAt(s, q + |e.before|, QUOTE)
  {
    SplitWord(s, q, NameText(e), ElementText(e.element));
    var name, end, colon := NameShows(e, s, q);
    WordAt(s, name, QuoteText(e.key), 0);
  }

  lemma {:induction false} OnlyEntryReads(es: seq<Entry>, depth: nat, s: bytes, p: nat, q: nat, close: nat)
    requires |es| == 1 && EntriesOk(es) && depth + EntriesLevels(es) <= NESTING_LIMIT
    requires Shows(s, q, EntriesText(es)) && close == q + |EntriesText(es)| && LooksAt(s, close, CLOSE_BRACE)
    requires Blank(s, p, q + |es[0].before|)
    ensures MembersLead(s, p, depth, Members(es), close)
    decreases es, 3
  {
    EntryReads(es[0], depth, s, p, q, close);
    OneLeads(s, p, depth, Members(es), close);
  }

  lemma {:induction false} FirstEntryReads(es: seq<Entry>, depth: nat, s: bytes, p: nat, q: nat, close: nat)
    returns (next: nat)
    requires |es| > 1 && EntriesOk(es) && depth + EntriesLevels(es) <= NESTING_LIMIT
    requires Shows(s, q, EntriesText(es)) && close == q + |EntriesText(es)| && LooksAt(s, close, CLOSE_BRACE)
    requires Blank(s, p, q + |es[0].before|)
    ensures Shows(s, next, EntriesText(es[1..])) && close == next + |EntriesText(es[1..])|
    ensures Blank(s, next, next + |es[1].before|)
    ensures MembersLead(s, next, depth, Members(es[1..]), close) ==> MembersLead(s, p, depth, Members(es), close)
    decreases es, 3
  {
    next := EntriesNext(es, s, q, close);
    EntryLeads(es, depth, s, p, q, next - 1, close);
  }

  lemma {:induction false} EntryLeads(es: seq<Entry>, depth: nat, s: bytes, p: nat, q: nat, after: nat, close: nat)
    requires |es| > 1 && EntriesOk(es) && depth + EntriesLevels(es) <= NESTING_LIMIT
    requires Shows(s, q, EntryText(es[0])) && after == q + |EntryText(es[0])| && LooksAt(s, after, COMMA)
    requires Blank(s, p, q + |es[0].before|)
    ensures MembersLead(s, after + 1, depth, Members(es[1..]), close) ==> MembersLead(s, p, depth, Members(es), close)
    decreases es, 2
  {
    EntryReads(es[0], depth, s, p, q, after);
    MoreLead(s, p, depth, Members(es), after, close);
  }

  lemma {:induction false} EntriesRead(es: seq<Entry>, depth: nat, s: bytes, p: nat, q: nat, close: nat)
    requires es != [] && EntriesOk(es) && depth + EntriesLevels(es) <= NESTING_LIMIT
    requires Shows(s, q, EntriesText(es)) && close == q + |EntriesText(es)| && LooksAt(s, close, CLOSE_BRACE)
    requires Blank(s, p, q + |es[0].before|)
    ensures MembersLead(s, p, depth, Members(es), close)
    decreases es, 4
  {
    if |es| == 1 {
      OnlyEntryReads(es, depth, s, p, q, close);
    } else {
      var next := FirstEntryReads(es, depth, s, p, q, close);
      EntriesRead(es[1..], depth, s, next, next, close);
    }
  }

  // ---------- texts that nest too deeply

  /** A text that nests too deeply is rejected. */
  lemma {:induction false} SyntaxFails(x: Syntax, depth: nat, s: bytes, p: nat, next: nat)
    requires Ok(x) && depth <= NESTING_LIMIT < depth + Levels(x) && Shows(s, p, Render(x))
    requires next == p + |Render(x)|
    ensures ReadValue(s, p, depth).None?
    decreases x, 1
  {
    if x.List? {
      ListFails(ListInner(x.gap, x.elements), x.elements, depth, s, p);
    } else {
      RecordFails(RecordInner(x.gap, x.entries), x.entries, depth, s, p);
    }
  }

  lemma {:induction false} ListFails(inner: bytes, elements: seq<Element>, depth: nat, s: bytes, p: nat)
    requires ElementsOk(elements) && depth <= NESTING_LIMIT < depth + 1 + ElementsLevels(elements)
    requires Shows(s, p, [OPEN_BRACKET] + inner + [CLOSE_BRACKET])
    requires elements != [] ==> inner == ElementsText(elements)
    ensures p <= |s| && ReadValue(s, p, depth).None?
    decreases elements, 6
  {
    var first := 0;
    BracketsShow(inner, s, p);
    if depth < NESTING_LIMIT {
      first := FilledListFails(elements, depth + 1, s, p, p + 1 + |inner|);
    }
    ArrayFails(s, p, depth, first);
  }

  lemma {:induction false} FilledListFails(elements: seq<Element>, depth: nat, s: bytes, p: nat, close: nat)
    returns (first: nat)
    requires elements != [] && ElementsOk(elements) && depth <= NESTING_LIMIT < depth + ElementsLevels(elements)
    requires Shows(s, p + 1, ElementsText(elements)) && close == p + 1 + |ElementsText(elements)|
    requires LooksAt(s, close, CLOSE_BRACKET)
    ensures p < first < |s| && Blank(s, p + 1, first) && Starts(s[first]) && ItemsFail(s, first, depth)
    decreases elements, 5
  {
    first := ListStarts(elements, s, p, close);
    ElementsFail(elements, depth, s, first, p + 1, close);
  }

  lemma {:induction false} ElementFails(e: Element, depth: nat, s: bytes, p: nat, q: nat, close: nat)
    requires Space(e.before) && Ok(e.value) && Space(e.after)
    requires depth <= NESTING_LIMIT < depth + Levels(e.value)
    requires Shows(s, q, ElementText(e)) && close == q + |ElementText(e)| && Ends(s, close)
    requires Blank(s, p, q + |e.before|)
    ensures NoItem(s, p, depth)
    decreases e.value, 2
  {
    var at := q + |e.before|;
    PaddedShows(e.before, Render(e.value), e.after, s, q);
    SyntaxStarts(e.value, s, at);
    BlankRun(s, p, at);
    SyntaxFails(e.value, depth, s, at, at + |Render(e.value)|);
    ItemFails(s, p, depth, at);
  }

  lemma {:induction false} ElementPasses(e: Element, depth: nat, s: bytes, p: nat, q: nat, after: nat)
    requires Space(e.before) && Ok(e.value) && Space(e.after) && depth + Levels(e.value) <= NESTING_LIMIT
    requires Shows(s, q, ElementText(e)) && after == q + |ElementText(e)| && LooksAt(s, after, COMMA)
    requires Blank(s, p, q + |e.before|)
    ensures ItemsFail(s, after + 1, depth) ==> ItemsFail(s, p, depth)
  {
    ElementReads(e, depth, s, p, q, after);
    LaterItemFails(s, p, depth, Value(e.value), after);
  }

  lemma {:induction false} FirstElementFails(es: seq<Element>, depth: nat, s: bytes, p: nat, q: nat, close: nat)
    requires es != [] && ElementsOk(es) && depth <= NESTING_LIMIT < depth + Levels(es[0].value)
    requires Shows(s, q, ElementsText(es)) && close == q + |ElementsText(es)| && LooksAt(s, close, CLOSE_BRACKET)
    requires Blank(s, p, q + |es[0].before|)
    ensures ItemsFail(s, p, depth)
    decreases es, 3
  {
    var next := ElementsShow(es, s, q, close);
    ElementFails(es[0], depth, s, p, q, next - 1);
    FirstItemFails(s, p, depth);
  }

  lemma {:induction false} FirstElementPasses(es: seq<Element>, depth: nat, s: bytes, p: nat, q: nat, close: nat)
    returns (next: nat)
    requires |es| > 1 && ElementsOk(es) && depth + Levels(es[0].value) <= NESTING_LIMIT
    requires Shows(s, q, ElementsText(es)) && close == q + |ElementsText(es)| && LooksAt(s, close, CLOSE_BRACKET)
    requires Blank(s, p, q + |es[0].before|)
    ensures Shows(s, next, ElementsText(es[1..])) && close == next + |ElementsText(es[1..])|
    ensures Blank(s, next, next + |es[1].before|)
    ensures ItemsFail(s, next, depth) ==> ItemsFail(s, p, depth)
  {
    next := ElementsNext(es, s, q, close);
    ElementPasses(es[0], depth, s, p, q, next - 1);
  }

  lemma {:induction false} ElementsFail(es: seq<Element>, depth: nat, s: bytes, p: nat, q: nat, close: nat)
    requires es != [] && ElementsOk(es) && depth <= NESTING_LIMIT < depth + ElementsLevels(es)
    requires Shows(s, q, ElementsText(es)) && close == q + |ElementsText(es)| && LooksAt(s, close, CLOSE_BRACKET)
    requires Blank(s, p, q + |es[0].before|)
    ensures ItemsFail(s, p, depth)
    decreases es, 4
  {
    if depth + Levels(es[0].value) > NESTING_LIMIT {
      FirstElementFails(es, depth, s, p, q, close);
    } else {
      var next := FirstElementPasses(es, depth, s, p, q, close);
      ElementsFail(es[1..], depth, s, next, next, close);
    }
  }

  lemma {:induction false} RecordFails(inner: bytes, entries: seq<Entry>, depth: nat, s: bytes, p: nat)
    requires EntriesOk(entries) && depth <= NESTING_LIMIT < depth + 1 + EntriesLevels(entries)
    requires Shows(s, p, [OPEN_BRACE] + inner + [CLOSE_BRACE])
    requires entries != [] ==> inner == EntriesText(entries)
    ensures p <= |s| && ReadValue(s, p, depth).None?
    decreases entries, 6
  {
    var first := 0;
    BracesShow(inner, s, p);
    if depth < NESTING_LIMIT {
      first := FilledRecordFails(entries, depth + 1, s, p, p + 1 + |inner|);
    }
    ObjectFails(s, p, depth, first);
  }

  lemma {:induction false} FilledRecordFails(entries: seq<Entry>, depth: nat, s: bytes, p: nat, close: nat)
    returns (first: nat)
    requires entries != [] && EntriesOk(entries) && depth <= NESTING_LIMIT < depth + EntriesLevels(entries)
    requires Shows(s, p + 1, EntriesText(entries)) && close == p + 1 + |EntriesText(entries)|
    requires LooksAt(s, close, CLOSE_BRACE)
    ensures p < first && Blank(s, p + 1, first) && LooksAt(s, first, QUOTE) && MembersFail(s, first, depth)
    decreases entries, 5
  {
    first := RecordStarts(entries, s, p, close);
    EntriesFail(entries, depth, s, first, p + 1, close);
  }

  lemma {:induction false} EntryFails(e: Entry, depth: nat, s: bytes, p: nat, q: nat, close: nat)
    requires KeyOk(e) && Space(e.element.before) && Ok(e.element.value) && Space(e.element.after)
    requires depth <= NESTING_LIMIT < depth + Levels(e.element.value)
    requires Shows(s, q, EntryText(e)) && close == q + |EntryText(e)| && Ends(s, close)
    requires Blank(s, p, q + |e.before|)
    ensures MembersFail(s, p, depth)
    decreases e.element.value, 3
  {
    var middle := EntryShows(e, s, q, close);
    NameReads(e, s, p, q);
    ElementFails(e.element, depth, s, middle, middle, close);
    MemberFails(s, p, depth, e.key.value, middle);
  }

  lemma {:induction false} EntryPasses(e: Entry, depth: nat, s: bytes, p: nat, q: nat, after: nat)
    requires KeyOk(e) && Space(e.element.before) && Ok(e.element.value) && Space(e.element.after)
    requires depth + Levels(e.element.value) <= NESTING_LIMIT
    requires Shows(s, q, EntryText(e)) && after == q + |EntryText(e)| && LooksAt(s, after, COMMA)
    requires Blank(s, p, q + |e.before|)
    ensures MembersFail(s, after + 1, depth) ==> MembersFail(s, p, depth)
  {
    EntryReads(e, depth, s, p, q, after);
    LaterMemberFails(s, p, depth, Member(e.key.value, Value(e.element.value)), after);
  }

  lemma {:induction false} EntriesNext(es: seq<Entry>, s: bytes, q: nat, close: nat) returns (next: nat)
    requires |es| > 1 && EntriesOk(es) && Shows(s, q, EntriesText(es)) && close == q + |EntriesText(es)|
    requires LooksAt(s, close, CLOSE_BRACE)
    ensures Shows(s, q, EntryText(es[0])) && next == q + |EntryText(es[0])| + 1 && LooksAt(s, next - 1, COMMA)
    ensures Shows(s, next, EntriesText(es[1..])) && close == next + |EntriesText(es[1..])|
    ensures Blank(s, next, next + |es[1].before|)
  {
    next := EntriesShow(es, s, q, close);
    var after := EntriesShow(es[1..], s, next, close);
  }

  lemma {:induction false} FirstEntryFails(es: seq<Entry>, depth: nat, s: bytes, p: nat, q: nat, close: nat)
    requires es != [] && EntriesOk(es) && depth <= NESTING_LIMIT < depth + Levels(es[0].element.value)
    requires Shows(s, q, EntriesText(es)) && close == q + |EntriesText(es)| && LooksAt(s, close, CLOSE_BRACE)
    requires Blank(s, p, q + |es[0].before|)
    ensures MembersFail(s, p, depth)
    decreases es, 3
  {
    var next := EntriesShow(es, s, q, close);
    EntryFails(es[0], depth, s, p, q, next - 1);
  }

  lemma {:induction false} FirstEntryPasses(es: seq<Entry>, depth: nat, s: bytes, p: nat, q: nat, close: nat)
    returns (next: nat)
    requires |es| > 1 && EntriesOk(es) && depth + Levels(es[0].element.value) <= NESTING_LIMIT
    requires Shows(s, q, EntriesText(es)) && close == q + |EntriesText(es)| && LooksAt(s, close, CLOSE_BRACE)
    requires Blank(s, p, q + |es[0].before|)
    ensures Shows(s, next, EntriesText(es[1..])) && close == next + |EntriesText(es[1..])|
    ensures Blank(s, next, next + |es[1].before|)
    ensures MembersFail(s, next, depth) ==> MembersFail(s, p, depth)
  {
    next := EntriesNext(es, s, q, close);
    EntryPasses(es[0], depth, s, p, q, next - 1);
  }

  lemma {:induction false} EntriesFail(es: seq<Entry>, depth: nat, s: bytes, p: nat, q: nat, close: nat)
    requires es != [] && EntriesOk(es) && depth <= NESTING_LIMIT < depth + EntriesLevels(es)
    requires Shows(s, q, EntriesText(es)) && close == q + |EntriesText(es)| && LooksAt(s, close, CLOSE_BRACE)
    requires Blank(s, p, q + |es[0].before|)
    ensures MembersFail(s, p, depth)
    decreases es, 4
  {
    if depth + Levels(es[0].element.value) > NESTING_LIMIT {
      FirstEntryFails(es, depth, s, p, q, close);
    } else {
      var next := FirstEntryPasses(es, depth, s, p, q, close);
      EntriesFail(es[1..], depth, s, next, next, close);
    }
  }

  // ---------- documents

  const BOM: bytes := [0xEF, 0xBB, 0xBF]

  /** A text with white space around it and a NUL, after a byte order mark if there is one. */
  ghost function Document(bom: bool, before: bytes, text: bytes, after: bytes): bytes {
    (if bom then BOM else []) + before + text + (after + [0])
  }

  lemma {:induction false} DocumentShows(mark: bytes, before: bytes, text: bytes, after: bytes, s: bytes)
    returns (at: nat, next: nat)
    requires Space(before) && Space(after) && EndsWith(s, 0, mark + before + text + (after + [0]))
    ensures at == |mark| + |before| && next == at + |text|
    ensures Shows(s, 0, mark) && Blank(s, |mark|, at) && Shows(s, at, text)
    ensures |s| == next + |after| + 1 && LooksAt(s, |s| - 1, 0) && Blank(s, next, |s|)
  {
    at, next := |mark| + |before|, |mark| + |before| + |text|;
    SplitThree(s, 0, mark + before, text, after + [0]);
    SplitWord(s, 0, mark, before);
    SpaceShows(before, s, |mark|);
    TailShows(after, s, next);
  }

  lemma {:induction false} TailShows(after: bytes, s: bytes, next: nat)
    requires Space(after) && EndsWith(s, next, after + [0])
    ensures LooksAt(s, |s| - 1, 0) && Blank(s, next, |s|)
  {
    SplitWord(s, next, after, [0]);
    SpaceShows(after, s, next);
    WordAt(s, |s| - 1, [0], 0);
  }

  /** A mark is skipped if something follows it, and nothing that starts a text is taken for one. */
  lemma {:induction false} BomSkipped(s: bytes, bom: bool)
    requires if bom then Shows(s, 0, BOM) && |s| > 4 else s != [] && s[0] != BOM[0]
    ensures SkipBom(s) == if bom then 3 else 0
  {
    if bom {
      ShowsIff(s, 0, BOM);
    } else if |s| > 4 {
      assert s[..3][0] == s[0];
    }
  }

  lemma {:induction false} DocumentAt(s: bytes, at: nat, v: Json, next: nat, requireNul: bool)
    requires SkipBom(s) <= at < |s| && Skip(s, SkipBom(s)) == at && ReadValue(s, at, 0) == Some(Read(v, next))
    requires next < |s| && Blank(s, next, |s|) && LooksAt(s, |s| - 1, 0)
    ensures ReadDocument(s, requireNul) == Some(Read(v, if requireNul then |s| - 1 else next))
  {
    AllBlank(s, next);
  }

  /**
   Every text of the grammar, with any white space around it, is accepted, and the value read is the one
   it denotes; the parse ends behind the text, or at the NUL if the caller insists on one.
   */
  lemma {:induction false} GrammarParses(bom: bool, before: bytes, x: Syntax, after: bytes, s: bytes, requireNul: bool)
    requires Ok(x) && Space(before) && Space(after) && Nesting(Value(x)) <= NESTING_LIMIT
    requires s == Document(bom, before, Render(x), after)
    ensures ReadDocument(s, requireNul) == Some(Read(Value(x), if requireNul then |s| - 1 else |s| - 1 - |after|))
  {
    var mark := if bom then BOM else [];
    LevelsAre(x);
    ShowsItself(s);
    var at, next := DocumentShows(mark, before, Render(x), after, s);
    SyntaxStarts(x, s, at);
    BomSkipped(s, bom);
    BlankRun(s, |mark|, at);
    SyntaxReads(x, 0, s, at, next);
    DocumentAt(s, at, Value(x), next, requireNul);
  }

  lemma {:induction false} DocumentFails(bom: bool, before: bytes, x: Syntax, after: bytes, s: bytes, requireNul: bool)
    requires Ok(x) && Space(before) && Space(after) && Nesting(Value(x)) > NESTING_LIMIT
    requires s == Document(bom, before, Render(x), after)
    ensures ReadDocument(s, requireNul).None?
  {
    var mark := if bom then BOM else [];
    LevelsAre(x);
    ShowsItself(s);
    var at, next := DocumentShows(mark, before, Render(x), after, s);
    SyntaxStarts(x, s, at);
    BomSkipped(s, bom);
    BlankRun(s, |mark|, at);
    SyntaxFails(x, 0, s, at, next);
  }

  /** And it is accepted at all if and only if its value nests no deeper than the limit. */
  lemma {:induction false} GrammarParsesIff(
    bom: bool, before: bytes, x: Syntax, after: bytes, s: bytes, requireNul: bool)
    requires Ok(x) && Space(before) && Space(after) && s == Document(bom, before, Render(x), after)
    ensures ReadDocument(s, requireNul).Some? <==> Nesting(Value(x)) <= NESTING_LIMIT
  {
    if Nesting(Value(x)) <= NESTING_LIMIT {
      GrammarParses(bom, before, x, after, s, requireNul);
    } else {
      DocumentFails(bom, before, x, after, s, requireNul);
    }
  }
}
