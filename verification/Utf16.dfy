/**
 `parse_hex4` and `utf16_literal_to_utf8` of `src/cJSON.c`: a `\uXXXX` escape, or a surrogate
 pair of them, turned into UTF-8. UTF-8 is section 3 of RFC 3629, surrogates section 2.2 of
 RFC 2781.
 */
module Utf16 {
  import opened Wrappers
  import opened Bytes

  predicate IsHex(c: byte) {
    ZERO <= c <= NINE || 0x41 <= c <= 0x46 || 0x61 <= c <= 0x66
  }

  function HexValue(c: byte): (v: nat)
    requires IsHex(c)
    ensures v < 16
  {
    if c <= NINE then c - ZERO else if c <= 0x46 then 10 + (c - 0x41) else 10 + (c - 0x61)
  }

  predicate IsQuad(s: bytes, p: nat)
    requires p + 4 <= |s|
  {
    IsHex(s[p]) && IsHex(s[p + 1]) && IsHex(s[p + 2]) && IsHex(s[p + 3])
  }

  /** The value of four hexadecimal digits, 0 if one of them is not a digit. */
  function Hex4(s: bytes, p: nat): (h: nat)
    requires p + 4 <= |s|
    ensures h < 0x10000
  {
    if IsQuad(s, p)
    then ((HexValue(s[p]) * 16 + HexValue(s[p + 1])) * 16 + HexValue(s[p + 2])) * 16 + HexValue(s[p + 3])
    else 0
  }

  /** The digit `d` in base 16, in either case. */
  predicate Writes(c: byte, d: int) {
    (0 <= d <= 9 && c == 0x30 + d) || (10 <= d <= 15 && (c == 0x41 + (d - 10) || c == 0x61 + (d - 10)))
  }

  /** Four such digits, the highest first. */
  predicate WritesQuad(s: bytes, p: nat, n: int)
    requires p + 4 <= |s|
  {
    && Writes(s[p], n / 0x1000) && Writes(s[p + 1], n / 0x100 % 0x10)
    && Writes(s[p + 2], n / 0x10 % 0x10) && Writes(s[p + 3], n % 0x10)
  }

  lemma {:induction false} DigitIs(c: byte, d: int)
    ensures IsHex(c) && HexValue(c) == d <==> Writes(c, d)
  {
  }

  lemma {:induction false} Places(a: int, b: int, c: int, d: int, n: int)
    requires 0 <= b < 16 && 0 <= c < 16 && 0 <= d < 16
    ensures n == ((a * 16 + b) * 16 + c) * 16 + d <==>
              n / 0x1000 == a && n / 0x100 % 0x10 == b && n / 0x10 % 0x10 == c && n % 0x10 == d
  {
    Halves(n);
    LastPlace(n, (a * 16 + b) * 16 + c, d);
    LastPlace(n / 16, a * 16 + b, c);
    LastPlace(n / 16 / 16, a, b);
  }

  lemma {:induction false} LastPlace(n: int, m: int, d: int)
    requires 0 <= d < 16
    ensures n == m * 16 + d <==> n / 16 == m && n % 16 == d
  {
  }

  lemma {:induction false} Halves(n: int)
    ensures n / 0x100 == n / 16 / 16 && n / 0x1000 == n / 16 / 16 / 16
  {
  }

  /** A quad is a number exactly if it is that number in four hexadecimal digits. */
  lemma {:induction false} Hex4Is(s: bytes, p: nat, n: int)
    requires p + 4 <= |s|
    ensures IsQuad(s, p) && Hex4(s, p) == n <==> WritesQuad(s, p, n)
  {
    DigitIs(s[p], n / 0x1000);
    DigitIs(s[p + 1], n / 0x100 % 0x10);
    DigitIs(s[p + 2], n / 0x10 % 0x10);
    DigitIs(s[p + 3], n % 0x10);
    if IsQuad(s, p) {
      Places(HexValue(s[p]), HexValue(s[p + 1]), HexValue(s[p + 2]), HexValue(s[p + 3]), n);
    }
  }

  method ParseHex4(s: bytes, p: nat) returns (h: nat)
    requires p + 4 <= |s|
    ensures h == Hex4(s, p)
  {
    h := 0;
    for i := 0 to 4
      invariant forall j :: p <= j < p + i ==> IsHex(s[j])
      invariant i == 0 ==> h == 0
      invariant i == 1 ==> h == HexValue(s[p]) * 16
      invariant i == 2 ==> h == (HexValue(s[p]) * 16 + HexValue(s[p + 1])) * 16
      invariant i == 3 ==> h == ((HexValue(s[p]) * 16 + HexValue(s[p + 1])) * 16 + HexValue(s[p + 2])) * 16
      invariant i == 4 ==> h == Hex4(s, p)
    {
      var c := s[p + i];
      if !IsHex(c) {
        return 0;
      }
      h := h + HexValue(c);
      if i < 3 {
        h := h * 16;
      }
    }
  }

  // ---------- UTF-8

  predicate IsScalar(cp: int) {
    0 <= cp < 0xD800 || 0xE000 <= cp <= 0x10FFFF
  }

  /** The bytes the encoder stores for a code point. */
  function Utf8(cp: nat): (r: bytes)
    requires cp <= 0x10FFFF
    ensures 1 <= |r| <= 4
  {
    if cp < 0x80 then [cp]
    else if cp < 0x800 then [0xC0 + cp / 0x40, 0x80 + cp % 0x40]
    else if cp < 0x10000 then [0xE0 + cp / 0x1000, 0x80 + cp / 0x40 % 0x40, 0x80 + cp % 0x40]
    else [0xF0 + cp / 0x40000, 0x80 + cp / 0x1000 % 0x40, 0x80 + cp / 0x40 % 0x40, 0x80 + cp % 0x40]
  }

  predicate IsTail(b: byte) {
    0x80 <= b <= 0xBF
  }

  /** Six more bits, from a tail byte. */
  function Six(high: nat, tail: byte): (r: nat)
    requires IsTail(tail)
    ensures r / 0x40 == high && 0x80 + r % 0x40 == tail
  {
    high * 0x40 + (tail - 0x80)
  }

  /** Decoding by the syntax of RFC 3629 section 4: one well-formed sequence, nothing shorter or longer. */
  function DecodeUtf8(b: bytes): Option<nat> {
    if |b| == 1 && b[0] <= 0x7F then Some(b[0])
    else if |b| == 2 && 0xC2 <= b[0] <= 0xDF && IsTail(b[1]) then
      Some(Six(b[0] - 0xC0, b[1]))
    else if |b| == 3 && IsTail(b[1]) && IsTail(b[2]) &&
            ((b[0] == 0xE0 && 0xA0 <= b[1]) || 0xE1 <= b[0] <= 0xEC || (b[0] == 0xED && b[1] <= 0x9F)
             || 0xEE <= b[0] <= 0xEF) then
      Some(Six(Six(b[0] - 0xE0, b[1]), b[2]))
    else if |b| == 4 && IsTail(b[1]) && IsTail(b[2]) && IsTail(b[3]) &&
            ((b[0] == 0xF0 && 0x90 <= b[1]) || 0xF1 <= b[0] <= 0xF3 || (b[0] == 0xF4 && b[1] <= 0x8F)) then
      Some(Six(Six(Six(b[0] - 0xF0, b[1]), b[2]), b[3]))
    else None
  }

  /** Splitting a code point into six-bit groups, from the low end. */
  lemma Groups(cp: nat)
    ensures cp / 0x1000 == cp / 0x40 / 0x40 && cp / 0x40000 == cp / 0x40 / 0x40 / 0x40
  {
  }

  lemma {:induction false} EncodingDecodes(cp: nat)
    requires IsScalar(cp)
    ensures DecodeUtf8(Utf8(cp)) == Some(cp)
  {
    Groups(cp);
  }

  lemma {:induction false} OnlyEncodingDecodes(cp: nat, b: bytes)
    requires IsScalar(cp) && DecodeUtf8(b) == Some(cp)
    ensures b == Utf8(cp)
  {
    Groups(cp);
    if |b| == 3 {
      assert Six(b[0] - 0xE0, b[1]) == cp / 0x40;
    } else if |b| == 4 {
      assert Six(Six(b[0] - 0xF0, b[1]), b[2]) == cp / 0x40;
      assert Six(b[0] - 0xF0, b[1]) == cp / 0x1000;
    }
  }

  /** What is encoded for a scalar value decodes to it, and nothing else does. */
  lemma {:induction false} Utf8IsTheEncoding(cp: nat, b: bytes)
    requires IsScalar(cp)
    ensures DecodeUtf8(b) == Some(cp) <==> b == Utf8(cp)
  {
    EncodingDecodes(cp);
    if DecodeUtf8(b) == Some(cp) {
      OnlyEncodingDecodes(cp, b);
    }
  }

  /** The encoder's loop: low six bits last, what is left in the first byte under its mark. */
  method EncodeUtf8(codepoint: nat, output: array<byte>, at: nat) returns (length: nat)
    requires codepoint <= 0x10FFFF && at + |Utf8(codepoint)| <= output.Length
    modifies output
    ensures length == |Utf8(codepoint)|
    ensures output[..at + length] == old(output[..at]) + Utf8(codepoint)
    ensures output[at + length..] == old(output[at + length..])
  {
    var mark;
    if codepoint < 0x80 {
      length, mark := 1, 0;
    } else if codepoint < 0x800 {
      length, mark := 2, 0xC0;
    } else if codepoint < 0x10000 {
      length, mark := 3, 0xE0;
    } else {
      length, mark := 4, 0xF0;
    }
    var cp, position := codepoint, length - 1;
    Groups(codepoint);
    while position > 0
      invariant 0 <= position < length
      invariant cp == if position == length - 1 then codepoint
                      else if position == length - 2 then codepoint / 0x40
                      else if position == length - 3 then codepoint / 0x1000
                      else codepoint / 0x40000
      invariant output[..at] == old(output[..at]) && output[at + length..] == old(output[at + length..])
      invariant forall j :: position < j < length ==> output[at + j] == Utf8(codepoint)[j]
    {
      output[at + position] := 0x80 + cp % 0x40;
      cp := cp / 0x40;
      position := position - 1;
    }
    output[at] := mark + cp;
    assert output[at..at + length] == Utf8(codepoint);
  }

  // ---------- escapes

  predicate IsHighSurrogate(h: int) {
    0xD800 <= h <= 0xDBFF
  }

  predicate IsLowSurrogate(h: int) {
    0xDC00 <= h <= 0xDFFF
  }

  /** `0x10000 + (((first_code & 0x3FF) << 10) | (second_code & 0x3FF))` */
  function Combine(high: nat, low: nat): nat {
    0x10000 + high % 0x400 * 0x400 + low % 0x400
  }

  /** The code point of a pair, as section 2.2 of RFC 2781 has it. */
  lemma CombineIs(high: nat, low: nat)
    requires IsHighSurrogate(high) && IsLowSurrogate(low)
    ensures Combine(high, low) == 0x10000 + (high - 0xD800) * 0x400 + (low - 0xDC00)
  {
    assert high % 0x400 == high - 0xD800 && low % 0x400 == low - 0xDC00;
  }

  /** Surrogate pairs stand for exactly the code points from 0x10000 to 0x10FFFF, each for one. */
  lemma PairsCoverTheRest(cp: int)
    ensures 0x10000 <= cp <= 0x10FFFF <==>
            exists high: nat, low: nat :: IsHighSurrogate(high) && IsLowSurrogate(low) && Combine(high, low) == cp
  {
    if 0x10000 <= cp <= 0x10FFFF {
      var high, low := 0xD800 + (cp - 0x10000) / 0x400, 0xDC00 + (cp - 0x10000) % 0x400;
      assert high % 0x400 == (cp - 0x10000) / 0x400 && low % 0x400 == (cp - 0x10000) % 0x400;
      assert IsHighSurrogate(high) && IsLowSurrogate(low) && Combine(high, low) == cp;
    }
  }

  lemma PairsAreUnique(high: nat, low: nat, high': nat, low': nat)
    requires IsHighSurrogate(high) && IsLowSurrogate(low) && IsHighSurrogate(high') && IsLowSurrogate(low')
    requires Combine(high, low) == Combine(high', low')
    ensures high == high' && low == low'
  {
    assert high % 0x400 == high - 0xD800 && high' % 0x400 == high' - 0xD800;
    assert low % 0x400 == low - 0xDC00 && low' % 0x400 == low' - 0xDC00;
  }

  /** How many input bytes an escape takes and what it becomes. */
  datatype Piece = Piece(length: nat, output: bytes)

  /** `utf16_literal_to_utf8` on the escape at `p`, in a string literal that ends at `end`. */
  function Literal(s: bytes, p: nat, end: nat): (r: Option<Piece>)
    requires p <= end <= |s|
    ensures r.Some? ==> p + r.value.length <= end && 1 <= |r.value.output| <= 4
  {
    if end - p < 6 then None
    else
      var first := Hex4(s, p + 2);
      if IsLowSurrogate(first) then None
      else if IsHighSurrogate(first) then
        if end - (p + 6) < 6 || s[p + 6] != BACKSLASH || s[p + 7] != LOWER_U then None
        else
          var second := Hex4(s, p + 8);
          if !IsLowSurrogate(second) then None
          else Some(Piece(12, Utf8(Combine(first, second))))
      else Some(Piece(6, Utf8(first)))
  }

  /**
   An escape whose four digits are hexadecimal is accepted exactly when it is no surrogate, or a
   high one followed by an escaped low one; its output is then the one encoding of the scalar
   value it stands for.
   */
  lemma {:induction false} LiteralLaws(s: bytes, p: nat, end: nat)
    requires p + 6 <= end <= |s| && IsQuad(s, p + 2)
    ensures var first := Hex4(s, p + 2);
      && (IsScalar(first) ==>
            Literal(s, p, end) == Some(Piece(6, Utf8(first))) && DecodeUtf8(Utf8(first)) == Some(first))
      && (IsLowSurrogate(first) ==> Literal(s, p, end).None?)
      && (IsHighSurrogate(first) ==>
            (Literal(s, p, end).Some? <==>
               p + 12 <= end && s[p + 6] == BACKSLASH && s[p + 7] == LOWER_U && IsLowSurrogate(Hex4(s, p + 8)))
            && (Literal(s, p, end).Some? ==>
                  Literal(s, p, end).value.length == 12
                  && DecodeUtf8(Literal(s, p, end).value.output)
                     == Some(0x10000 + (first - 0xD800) * 0x400 + (Hex4(s, p + 8) - 0xDC00))))
  {
    var first := Hex4(s, p + 2);
    if IsScalar(first) {
      Utf8IsTheEncoding(first, Utf8(first));
    } else if IsHighSurrogate(first) && Literal(s, p, end).Some? {
      var cp := Combine(first, Hex4(s, p + 8));
      CombineIs(first, Hex4(s, p + 8));
      PairsCoverTheRest(cp);
      Utf8IsTheEncoding(cp, Utf8(cp));
    }
  }

  /**
   A code point beyond 0xFFFF is read exactly where its two surrogates stand, as section 2.1 of RFC 2781
   gives them, each behind a backslash and a `u`.
   */
  lemma {:induction false} PairReadIff(s: bytes, p: nat, end: nat, cp: int)
    requires p + 12 <= end <= |s| && 0x10000 <= cp <= 0x10FFFF
    ensures Literal(s, p, end).Some? && DecodeUtf8(Literal(s, p, end).value.output) == Some(cp) <==>
              && WritesQuad(s, p + 2, 0xD800 + (cp - 0x10000) / 0x400) && s[p + 6] == 0x5C && s[p + 7] == 0x75
              && WritesQuad(s, p + 8, 0xDC00 + (cp - 0x10000) % 0x400)
  {
    Hex4Is(s, p + 2, 0xD800 + (cp - 0x10000) / 0x400);
    Hex4Is(s, p + 8, 0xDC00 + (cp - 0x10000) % 0x400);
    PairIs(Hex4(s, p + 2), Hex4(s, p + 8), cp);
    BeyondIsPair(s, p, end, cp);
  }

  /** Only a pair of surrogates is read as a code point beyond 0xFFFF. */
  lemma {:induction false} BeyondIsPair(s: bytes, p: nat, end: nat, cp: int)
    requires p + 12 <= end <= |s| && 0x10000 <= cp <= 0x10FFFF
    ensures Literal(s, p, end).Some? && DecodeUtf8(Literal(s, p, end).value.output) == Some(cp) <==>
              && IsQuad(s, p + 2) && IsQuad(s, p + 8) && s[p + 6] == 0x5C && s[p + 7] == 0x75
              && IsHighSurrogate(Hex4(s, p + 2)) && IsLowSurrogate(Hex4(s, p + 8))
              && cp == 0x10000 + (Hex4(s, p + 2) - 0xD800) * 0x400 + (Hex4(s, p + 8) - 0xDC00)
  {
    if IsQuad(s, p + 2) {
      LiteralLaws(s, p, end);
    } else {
      BadQuadIsNul(s, p, end);
    }
  }

  lemma {:induction false} PairIs(first: nat, second: nat, cp: int)
    requires 0x10000 <= cp <= 0x10FFFF
    ensures IsHighSurrogate(first) && IsLowSurrogate(second)
            && cp == 0x10000 + (first - 0xD800) * 0x400 + (second - 0xDC00)
       <==> first == 0xD800 + (cp - 0x10000) / 0x400 && second == 0xDC00 + (cp - 0x10000) % 0x400
  {
  }

  /** Another one exactly where its four digits stand; code point 0 also where four bytes are no digits. */
  lemma {:induction false} QuadReadIff(s: bytes, p: nat, end: nat, cp: int)
    requires p + 6 <= end <= |s| && 0 <= cp < 0x10000 && IsScalar(cp)
    ensures Literal(s, p, end).Some? && DecodeUtf8(Literal(s, p, end).value.output) == Some(cp) <==>
              WritesQuad(s, p + 2, cp) || (cp == 0 && !IsQuad(s, p + 2))
  {
    Hex4Is(s, p + 2, cp);
    if IsQuad(s, p + 2) {
      LiteralLaws(s, p, end);
    } else {
      BadQuadIsNul(s, p, end);
    }
  }

  /** A bad quad is read as code point 0 and gives one NUL byte. */
  lemma BadQuadIsNul(s: bytes, p: nat, end: nat)
    requires p + 6 <= end <= |s| && !IsQuad(s, p + 2)
    ensures Literal(s, p, end) == Some(Piece(6, [0]))
  {
  }

  method Utf16LiteralToUtf8(s: bytes, p: nat, end: nat, output: array<byte>, at: nat)
    returns (sequenceLength: nat, outputLength: nat)
    requires p <= end <= |s| && at <= output.Length
    requires Literal(s, p, end).Some? ==> at + |Literal(s, p, end).value.output| <= output.Length
    modifies output
    ensures sequenceLength == 0 <==> Literal(s, p, end).None?
    ensures output[..at] == old(output[..at])
    ensures sequenceLength != 0 ==>
      && Literal(s, p, end).value.length == sequenceLength
      && |Literal(s, p, end).value.output| == outputLength
      && output[..at + outputLength] == old(output[..at]) + Literal(s, p, end).value.output
  {
    sequenceLength, outputLength := 0, 0;
    if end - p < 6 {
      return;
    }
    var first := ParseHex4(s, p + 2);
    if 0xDC00 <= first <= 0xDFFF {
      return;
    }
    var codepoint;
    if 0xD800 <= first <= 0xDBFF {
      if end - (p + 6) < 6 || s[p + 6] != BACKSLASH || s[p + 7] != LOWER_U {
        return;
      }
      var second := ParseHex4(s, p + 8);
      if second < 0xDC00 || second > 0xDFFF {
        return;
      }
      sequenceLength, codepoint := 12, Combine(first, second);
    } else {
      sequenceLength, codepoint := 6, first;
    }
    outputLength := EncodeUtf8(codepoint, output, at);
    assert output[..at] == output[..at + outputLength][..at];
  }
}
