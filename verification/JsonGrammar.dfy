/**
 The texts that the parser of `src/cJSON.c` accepts: what may be written, how it reads byte by byte, and
 the value it denotes. They are the texts of RFC 8259, with white space, escapes, surrogate pairs and the
 forms of numbers all free, and the further forms that are noted where they come in.
 */
module JsonGrammar {
  import opened Wrappers
  import opened Bytes
  import opened Json
  import JsonText
  import opened Utf16

  // ---------- strings (section 7)

  /**
   One character of a string: as it is, a two-byte escape, `\uXXXX`, a surrogate pair of these, or `\u`
   before four bytes that are not all hexadecimal digits.
   */
  datatype Char =
    | Raw(c: byte)
    | Escaped(letter: byte)
    | Unicode(quad: bytes)
    | Pair(high: bytes, low: bytes)
    | Bad(four: bytes)

  const ESCAPES: map<byte, byte> := map[
    QUOTE := QUOTE, BACKSLASH := BACKSLASH, SLASH := SLASH, LOWER_B := 0x08, LOWER_F := 0x0C,
    LOWER_N := NEWLINE, LOWER_R := RETURN, LOWER_T := TAB]

  predicate HexQuad(q: bytes) {
    |q| == 4 && IsQuad(q, 0)
  }

  /**
   Raw bytes include the control characters that RFC 8259 wants escaped, and quotes, which only a bad
   escape before them can hide. Single surrogates, which RFC 8259 leaves open, are not read.
   */
  predicate CharOk(c: Char) {
    match c
    case Raw(b) => b != BACKSLASH
    case Escaped(letter) => letter in ESCAPES
    case Unicode(q) => HexQuad(q) && IsScalar(Hex4(q, 0))
    case Pair(h, l) => HexQuad(h) && HexQuad(l) && IsHighSurrogate(Hex4(h, 0)) && IsLowSurrogate(Hex4(l, 0))
    case Bad(four) => |four| == 4 && !IsQuad(four, 0)
  }

  function CharText(c: Char): bytes {
    match c
    case Raw(b) => [b]
    case Escaped(letter) => [BACKSLASH, letter]
    case Unicode(q) => [BACKSLASH, LOWER_U] + q
    case Pair(h, l) => [BACKSLASH, LOWER_U] + h + ([BACKSLASH, LOWER_U] + l)
    case Bad(four) => [BACKSLASH, LOWER_U] + four
  }

  /** The character in UTF-8; a NUL for a bad escape. */
  function CharValue(c: Char): bytes
    requires CharOk(c)
  {
    match c
    case Raw(b) => [b]
    case Escaped(letter) => [ESCAPES[letter]]
    case Unicode(q) => Utf8(Hex4(q, 0))
    case Pair(h, l) => Utf8(0x10000 + (Hex4(h, 0) - 0xD800) * 0x400 + (Hex4(l, 0) - 0xDC00))
    case Bad(_) => [0]
  }

  ghost predicate CharsOk(chars: seq<Char>) {
    forall c <- chars :: CharOk(c)
  }

  function CharsText(chars: seq<Char>): bytes {
    if chars == [] then [] else CharText(chars[0]) + CharsText(chars[1..])
  }

  ghost function CharsValue(chars: seq<Char>): bytes
    requires CharsOk(chars)
  {
    if chars == [] then [] else CharValue(chars[0]) + CharsValue(chars[1..])
  }

  /** From `i` on no quote, if each backslash goes with the byte behind it. */
  predicate Closed(body: bytes, i: nat)
    decreases |body| - i
  {
    if i >= |body| then i == |body|
    else if body[i] == BACKSLASH then Closed(body, i + 2)
    else body[i] != QUOTE && Closed(body, i + 1)
  }

  /** A string: the bytes between its quotes, the characters they are read as, and what is stored. */
  datatype Quote = Quote(body: bytes, chars: seq<Char>, value: cstring)

  /**
   A bad escape that ends in a backslash shifts the meaning of the bytes behind it. So the last character
   may be an escaped quote whose quote is the closing one. Stored are the characters before the first NUL.
   */
  ghost predicate Spells(q: Quote) {
    && CharsOk(q.chars) && Closed(q.body, 0) && q.body <= CharsText(q.chars)
    && |CharsText(q.chars)| <= (if EndsInQuote(q.chars) then |q.body| + 1 else |q.body|)
    && q.value == CString(CharsValue(q.chars))
  }

  predicate EndsInQuote(chars: seq<Char>) {
    chars != [] && chars[|chars| - 1] == Escaped(QUOTE)
  }

  /** Under a quantifier, so that only the proofs that mention `Open(q)` look at what it says. */
  ghost predicate QuoteOk(q: Quote) {
    forall k: Quote {:trigger Open(k)} :: k == q ==> Spells(k)
  }

  predicate Open(q: Quote) {
    true
  }

  lemma Opened(q: Quote)
    requires QuoteOk(q)
    ensures Spells(q)
  {
    assert Open(q);
  }

  function QuoteText(q: Quote): bytes {
    [QUOTE] + q.body + [QUOTE]
  }

  // ---------- numbers (section 6)

  datatype Exponent = Exponent(mark: byte, sign: bytes, digits: bytes)

  /** A number: its parts, and what it is worth. */
  datatype Numeral = Numeral(negative: bool, whole: bytes, point: bool, fraction: bytes, exponent: Option<Exponent>,
                             value: real)

  predicate AllDigits(d: bytes) {
    forall i :: 0 <= i < |d| ==> IsDigit(d[i])
  }

  /**
   Leading zeros, a point without digits behind it and, after a minus, one without digits before it are not
   allowed by RFC 8259, but read as well.
   */
  predicate NumeralForm(n: Numeral) {
    && AllDigits(n.whole) && AllDigits(n.fraction) && (n.fraction != [] ==> n.point)
    && (n.whole == [] ==> n.negative && n.fraction != [])
    && (n.exponent.Some? ==> ExponentOk(n.exponent.value))
  }

  predicate ExponentOk(e: Exponent) {
    && (e.mark == LOWER_E || e.mark == UPPER_E) && (e.sign == [] || e.sign == [PLUS] || e.sign == [MINUS])
    && e.digits != [] && AllDigits(e.digits)
  }

  function SignText(negative: bool): bytes {
    if negative then [MINUS] else []
  }

  function FractionText(point: bool, fraction: bytes): bytes {
    if point then [DOT] + fraction else []
  }

  function ExponentText(exponent: Option<Exponent>): bytes {
    match exponent
    case None => []
    case Some(e) => [e.mark] + e.sign + e.digits
  }

  function NumeralText(n: Numeral): bytes {
    SignText(n.negative) + n.whole + FractionText(n.point, n.fraction) + ExponentText(n.exponent)
  }

  function Decimal(d: bytes): nat
    requires AllDigits(d)
  {
    if d == [] then 0 else Decimal(d[..|d| - 1]) * 10 + (d[|d| - 1] - ZERO)
  }

  function ExponentValue(exponent: Option<Exponent>): int
    requires exponent.Some? ==> ExponentOk(exponent.value)
  {
    match exponent
    case None => 0
    case Some(e) =>
      var size: int := Decimal(e.digits);
      if e.sign == [MINUS] then -size else size
  }

  function Ten(k: nat): (r: real)
    ensures r > 0.0
  {
    JsonText.Pow10(k) as real
  }

  /** `m` is the integer `digits`, the last `places` of its digits behind the point, times a power of ten. */
  ghost predicate Denotes(m: real, digits: real, places: nat, exponent: int) {
    if exponent >= 0 then m * Ten(places) == digits * Ten(exponent)
    else m * (Ten(places) * Ten(-exponent)) == digits
  }

  ghost predicate Worth(n: Numeral)
    requires NumeralForm(n)
  {
    Denotes(if n.negative then -n.value else n.value, Decimal(n.whole + n.fraction) as real, |n.fraction|,
            ExponentValue(n.exponent))
  }

  /** The value is under a quantifier for the same reason as a string's. */
  ghost predicate NumeralOk(n: Numeral) {
    NumeralForm(n) && forall k: Numeral {:trigger Weigh(k)} :: k == n ==> Worth(k)
  }

  predicate Weigh(n: Numeral) {
    true
  }

  lemma Weighed(n: Numeral)
    requires NumeralOk(n)
    ensures Worth(n)
  {
    assert Weigh(n);
  }

  // ---------- values (sections 2 to 5)

  /** White space: the four bytes of RFC 8259, or any other the parser skips, NUL included. */
  predicate Space(b: bytes) {
    forall i :: 0 <= i < |b| ==> b[i] <= 32
  }

  /** `gap` is the white space between the brackets when there is nothing else. */
  datatype Syntax =
    | NullWord
    | FalseWord
    | TrueWord
    | Figure(n: Numeral)
    | Quotation(q: Quote)
    | List(gap: bytes, elements: seq<Element>)
    | Record(gap: bytes, entries: seq<Entry>)

  datatype Element = Element(before: bytes, value: Syntax, after: bytes)

  datatype Entry = Entry(before: bytes, key: Quote, middle: bytes, element: Element)

  ghost predicate Ok(x: Syntax)
    decreases x, 0
  {
    match x
    case Figure(n) => NumeralOk(n)
    case Quotation(q) => QuoteOk(q)
    case List(gap, elements) => Space(gap) && ElementsOk(elements)
    case Record(gap, entries) => Space(gap) && EntriesOk(entries)
    case _ => true
  }

  ghost predicate ElementsOk(es: seq<Element>)
    decreases es, 1
  {
    es != [] ==> Space(es[0].before) && Ok(es[0].value) && Space(es[0].after) && ElementsOk(es[1..])
  }

  ghost predicate EntriesOk(es: seq<Entry>)
    decreases es, 1
  {
    es != [] ==>
      && KeyOk(es[0]) && Space(es[0].element.before) && Ok(es[0].element.value) && Space(es[0].element.after)
      && EntriesOk(es[1..])
  }

  ghost predicate KeyOk(e: Entry) {
    Space(e.before) && QuoteOk(e.key) && Space(e.middle)
  }

  function Render(x: Syntax): bytes
    decreases x, 0
  {
    match x
    case NullWord => [0x6E, 0x75, 0x6C, 0x6C]
    case FalseWord => [0x66, 0x61, 0x6C, 0x73, 0x65]
    case TrueWord => [0x74, 0x72, 0x75, 0x65]
    case Figure(n) => NumeralText(n)
    case Quotation(q) => QuoteText(q)
    case List(gap, elements) =>
      [OPEN_BRACKET] + (if elements == [] then gap else ElementsText(elements)) + [CLOSE_BRACKET]
    case Record(gap, entries) =>
      [OPEN_BRACE] + (if entries == [] then gap else EntriesText(entries)) + [CLOSE_BRACE]
  }

  function ElementText(e: Element): bytes
    decreases e, 0
  {
    e.before + Render(e.value) + e.after
  }

  /** Elements with commas between them. */
  function ElementsText(es: seq<Element>): bytes
    requires es != []
    decreases es, 1
  {
    if |es| == 1 then ElementText(es[0]) else ElementText(es[0]) + [COMMA] + ElementsText(es[1..])
  }

  function EntryText(e: Entry): bytes
    decreases e, 0
  {
    NameText(e) + ElementText(e.element)
  }

  function NameText(e: Entry): bytes {
    e.before + QuoteText(e.key) + (e.middle + [COLON])
  }

  function EntriesText(es: seq<Entry>): bytes
    requires es != []
    decreases es, 1
  {
    if |es| == 1 then EntryText(es[0]) else EntryText(es[0]) + [COMMA] + EntriesText(es[1..])
  }

  /** How deep a text nests. */
  function Levels(x: Syntax): nat
    decreases x, 0
  {
    match x
    case List(_, elements) => 1 + ElementsLevels(elements)
    case Record(_, entries) => 1 + EntriesLevels(entries)
    case _ => 0
  }

  function ElementsLevels(es: seq<Element>): nat
    decreases es, 1
  {
    if es == [] then 0 else MaxOf(Levels(es[0].value), ElementsLevels(es[1..]))
  }

  function EntriesLevels(es: seq<Entry>): nat
    decreases es, 1
  {
    if es == [] then 0 else MaxOf(Levels(es[0].element.value), EntriesLevels(es[1..]))
  }

  /** The value that a text denotes, each string up to the first NUL in it. */
  ghost function Value(x: Syntax): Json
    requires Ok(x)
    decreases x, 0
  {
    match x
    case NullWord => Null
    case FalseWord => False
    case TrueWord => True
    case Figure(n) => Number(n.value)
    case Quotation(q) => String(q.value)
    case List(_, elements) => Array(Values(elements))
    case Record(_, entries) => Object(Members(entries))
  }

  ghost function Values(es: seq<Element>): (r: seq<Json>)
    requires ElementsOk(es)
    ensures |r| == |es|
    decreases es, 1
  {
    if es == [] then [] else [Value(es[0].value)] + Values(es[1..])
  }

  ghost function Members(es: seq<Entry>): (r: seq<Member>)
    requires EntriesOk(es)
    ensures |r| == |es|
    decreases es, 1
  {
    if es == [] then []
    else [Member(es[0].key.value, Value(es[0].element.value))] + Members(es[1..])
  }

  /** A text nests as deep as its value. */
  lemma {:induction false} LevelsAre(x: Syntax)
    requires Ok(x)
    ensures Levels(x) == Nesting(Value(x))
    decreases x, 0
  {
    if x.List? {
      ElementsLevelsAre(x.elements);
    } else if x.Record? {
      EntriesLevelsAre(x.entries);
    }
  }

  lemma {:induction false} ElementsLevelsAre(es: seq<Element>)
    requires ElementsOk(es)
    ensures ElementsLevels(es) == ItemsNesting(Values(es))
    decreases es, 1
  {
    if es != [] {
      LevelsAre(es[0].value);
      ElementsLevelsAre(es[1..]);
      assert Values(es)[1..] == Values(es[1..]);
    }
  }

  lemma {:induction false} EntriesLevelsAre(es: seq<Entry>)
    requires EntriesOk(es)
    ensures EntriesLevels(es) == MembersNesting(Members(es))
    decreases es, 1
  {
    if es != [] {
      LevelsAre(es[0].element.value);
      EntriesLevelsAre(es[1..]);
      assert Members(es)[1..] == Members(es[1..]);
    }
  }
}
