/**
 What minifying is, without a scanner: a text is a sequence of pieces, and of these the strings and the
 bytes of other tokens are kept.
 */
module MinifyLexical {
  import opened Bytes
  import opened MinifySpec

  /** A comment or string that is not `ended` goes on to the end of the text. */
  datatype Piece =
    | Blank(c: byte)
    | LineComment(body: bytes, ended: bool)
    | BlockComment(body: bytes, ended: bool)
    | LoneSlash
    | Quoted(body: bytes, ended: bool)
    | Other(c: byte)

  function If(ended: bool, mark: bytes): bytes {
    if ended then mark else []
  }

  function PieceText(p: Piece): bytes {
    match p
    case Blank(c) => [c]
    case LineComment(body, ended) => [0x2F, 0x2F] + body + If(ended, [0x0A])
    case BlockComment(body, ended) => [0x2F, 0x2A] + body + If(ended, [0x2A, 0x2F])
    case LoneSlash => [0x2F]
    case Quoted(body, ended) => [0x22] + body + If(ended, [0x22])
    case Other(c) => [c]
  }

  /** Space, tab, carriage return, line feed. */
  predicate Blanks(c: byte) {
    c == 0x20 || c == 0x09 || c == 0x0D || c == 0x0A
  }

  ghost predicate NoEndMark(body: bytes) {
    forall i :: 0 <= i < |body| - 1 && body[i] == 0x2A ==> body[i + 1] != 0x2F
  }

  /** A quote inside a string stands right behind a backslash; `hidden` if one stands before the bytes. */
  ghost predicate QuotesHidden(body: bytes, hidden: bool) {
    forall i {:trigger body[i]} :: 0 <= i < |body| && body[i] == 0x22 ==>
      if i > 0 then body[i - 1] == 0x5C else hidden
  }

  /** The piece, with this text behind it. */
  ghost predicate PieceOk(p: Piece, rest: bytes) {
    match p
    case Blank(c) => Blanks(c)
    case LineComment(body, ended) => 0x0A !in body && (ended || rest == [])
    case BlockComment(body, ended) => NoEndMark(body) && (ended || rest == [])
    case LoneSlash => rest == [] || (rest[0] != 0x2F && rest[0] != 0x2A)
    case Quoted(body, ended) =>
      QuotesHidden(body, false) && if ended then body == [] || body[|body| - 1] != 0x5C else rest == []
    case Other(c) => !Blanks(c) && c != 0x2F && c != 0x22
  }

  ghost predicate PiecesOk(ps: seq<Piece>) {
    ps != [] ==> PieceOk(ps[0], Text(ps[1..])) && PiecesOk(ps[1..])
  }

  function Text(ps: seq<Piece>): bytes {
    if ps == [] then [] else PieceText(ps[0]) + Text(ps[1..])
  }

  /** The strings and the other bytes. */
  function Kept(ps: seq<Piece>): bytes {
    if ps == [] then []
    else (if ps[0].Quoted? || ps[0].Other? then PieceText(ps[0]) else []) + Kept(ps[1..])
  }

  // ---------- one piece

  lemma {:induction false} LineOf(body: bytes, tail: bytes)
    requires 0x0A !in body && (tail != [] ==> tail[0] == 0x0A)
    ensures Line(body + tail) == if tail == [] then [] else Min(tail[1..])
    decreases |body|
  {
    if body == [] {
      assert [] + tail == tail;
    } else {
      assert (body + tail)[1..] == body[1..] + tail;
      LineOf(body[1..], tail);
    }
  }

  lemma {:induction false} BlockOf(body: bytes, tail: bytes)
    requires NoEndMark(body) && (tail != [] ==> |tail| >= 2 && tail[0] == 0x2A && tail[1] == 0x2F)
    ensures Block(body + tail) == if tail == [] then [] else Min(tail[2..])
    decreases |body|
  {
    if body == [] {
      assert [] + tail == tail;
    } else {
      assert (body + tail)[1..] == body[1..] + tail;
      BlockOf(body[1..], tail);
    }
  }

  lemma {:induction false} HiddenBehind(body: bytes, k: nat)
    requires QuotesHidden(body, false) && 0 < k <= |body| && (k < |body| && body[k] == 0x22 ==> body[k - 1] != 0x5C)
    ensures QuotesHidden(body[k..], false)
  {
    forall i | 0 <= i < |body[k..]| && body[k..][i] == 0x22 ensures if i > 0 then body[k..][i - 1] == 0x5C else false {
      assert body[k + i] == 0x22;
    }
  }

  lemma {:induction false} StrOf(body: bytes, tail: bytes)
    requires QuotesHidden(body, false) && (tail != [] ==> tail[0] == 0x22 && (body == [] || body[|body| - 1] != 0x5C))
    ensures Str(body + tail) == body + if tail == [] then [] else [0x22] + Min(tail[1..])
    decreases |body|
  {
    if body == [] {
      assert [] + tail == tail;
    } else if body[0] == 0x5C && |body| > 1 && body[1] == 0x22 {
      HiddenBehind(body, 2);
      StrOf(body[2..], tail);
      StrSkips(body, tail, 2, if tail == [] then [] else [0x22] + Min(tail[1..]));
    } else {
      assert body[0] != 0x22;
      HiddenBehind(body, 1);
      StrOf(body[1..], tail);
      StrSkips(body, tail, 1, if tail == [] then [] else [0x22] + Min(tail[1..]));
    }
  }

  /** A byte of a string, or a backslash and a quote, is copied. */
  lemma {:induction false} StrSkips(body: bytes, tail: bytes, k: nat, rest: bytes)
    requires body != [] && body[0] != 0x22 && k == if body[0] == 0x5C && |body| > 1 && body[1] == 0x22 then 2 else 1
    requires (tail != [] && |body| == 1 ==> body[0] != 0x5C) && Str(body[k..] + tail) == body[k..] + rest
    ensures Str(body + tail) == body + rest
  {
    var s := body + tail;
    assert s[k..] == body[k..] + tail;
    assert Str(s) == body[..k] + Str(s[k..]);
    assert body == body[..k] + body[k..];
  }

  lemma {:induction false} PieceMinifies(p: Piece, rest: bytes)
    requires PieceOk(p, rest)
    ensures Min(PieceText(p) + rest) == (if p.Quoted? || p.Other? then PieceText(p) else []) + Min(rest)
  {
    var s := PieceText(p) + rest;
    match p
    case Blank(c) => assert s[1..] == rest;
    case Other(c) => assert s[1..] == rest;
    case LoneSlash => assert s[1..] == rest;
    case LineComment(body, ended) => LineMinifies(body, ended, rest);
    case BlockComment(body, ended) => BlockMinifies(body, ended, rest);
    case Quoted(body, ended) => QuotedMinifies(body, ended, rest);
  }

  lemma {:induction false} LineMinifies(body: bytes, ended: bool, rest: bytes)
    requires PieceOk(LineComment(body, ended), rest)
    ensures Min(PieceText(LineComment(body, ended)) + rest) == Min(rest)
  {
    var s, tail := PieceText(LineComment(body, ended)) + rest, If(ended, [0x0A]) + rest;
    assert s[2..] == body + tail;
    LineOf(body, tail);
    assert ended ==> tail[1..] == rest;
  }

  lemma {:induction false} BlockMinifies(body: bytes, ended: bool, rest: bytes)
    requires PieceOk(BlockComment(body, ended), rest)
    ensures Min(PieceText(BlockComment(body, ended)) + rest) == Min(rest)
  {
    var s, tail := PieceText(BlockComment(body, ended)) + rest, If(ended, [0x2A, 0x2F]) + rest;
    assert s[2..] == body + tail;
    BlockOf(body, tail);
    assert ended ==> tail[2..] == rest;
  }

  lemma {:induction false} QuotedMinifies(body: bytes, ended: bool, rest: bytes)
    requires PieceOk(Quoted(body, ended), rest)
    ensures Min(PieceText(Quoted(body, ended)) + rest) == PieceText(Quoted(body, ended)) + Min(rest)
  {
    var s, tail := PieceText(Quoted(body, ended)) + rest, If(ended, [0x22]) + rest;
    assert s[1..] == body + tail;
    StrOf(body, tail);
    assert ended ==> tail[1..] == rest;
    assert [0x22] + (body + ([0x22] + Min(rest))) == ([0x22] + body + [0x22]) + Min(rest);
  }

  /** Minifying keeps the strings and the other bytes of the pieces. */
  lemma {:induction false} PiecesMinify(ps: seq<Piece>)
    requires PiecesOk(ps)
    ensures Min(Text(ps)) == Kept(ps)
  {
    if ps != [] {
      PieceMinifies(ps[0], Text(ps[1..]));
      PiecesMinify(ps[1..]);
    }
  }

  // ---------- every text

  lemma {:induction false} CutLine(s: bytes) returns (body: bytes, ended: bool, rest: bytes)
    ensures s == body + If(ended, [0x0A]) + rest && 0x0A !in body && (ended || rest == [])
  {
    if s == [] {
      body, ended, rest := [], false, [];
    } else if s[0] == 0x0A {
      body, ended, rest := [], true, s[1..];
    } else {
      var b;
      b, ended, rest := CutLine(s[1..]);
      body := [s[0]] + b;
    }
  }

  lemma {:induction false} CutBlock(s: bytes) returns (body: bytes, ended: bool, rest: bytes)
    ensures s == body + If(ended, [0x2A, 0x2F]) + rest && NoEndMark(body) && (ended || rest == [])
  {
    if s == [] {
      body, ended, rest := [], false, [];
    } else if |s| > 1 && s[0] == 0x2A && s[1] == 0x2F {
      body, ended, rest := [], true, s[2..];
    } else {
      var b;
      b, ended, rest := CutBlock(s[1..]);
      body := [s[0]] + b;
      assert |b| > 0 ==> b[0] == s[1];
    }
  }

  lemma {:induction false} CutQuoted(s: bytes, hidden: bool) returns (body: bytes, ended: bool, rest: bytes)
    ensures s == body + If(ended, [0x22]) + rest && (ended || rest == [])
    ensures QuotesHidden(body, hidden)
    ensures ended ==> if body == [] then !hidden else body[|body| - 1] != 0x5C
  {
    if s == [] {
      body, ended, rest := [], false, [];
    } else if s[0] == 0x22 && !hidden {
      body, ended, rest := [], true, s[1..];
    } else {
      var b;
      b, ended, rest := CutQuoted(s[1..], s[0] == 0x5C);
      body := [s[0]] + b;
      forall i | 0 <= i < |body| && body[i] == 0x22 ensures if i > 0 then body[i - 1] == 0x5C else hidden {
        if i > 0 {
          assert b[i - 1] == 0x22;
          assert i > 1 ==> b[i - 2] == 0x5C;
        }
      }
    }
  }

  lemma {:induction false} FirstPiece(s: bytes) returns (p: Piece, rest: bytes)
    requires s != []
    ensures s == PieceText(p) + rest && |rest| < |s| && PieceOk(p, rest)
  {
    assert s == [s[0]] + s[1..];
    if Blanks(s[0]) {
      p, rest := Blank(s[0]), s[1..];
    } else if s[0] == 0x22 {
      var body, ended;
      body, ended, rest := CutQuoted(s[1..], false);
      p := Quoted(body, ended);
      assert s == [0x22] + (body + If(ended, [0x22]) + rest);
    } else if s[0] != 0x2F {
      p, rest := Other(s[0]), s[1..];
    } else {
      p, rest := SlashPiece(s);
    }
  }

  lemma {:induction false} SlashPiece(s: bytes) returns (p: Piece, rest: bytes)
    requires s != [] && s[0] == 0x2F
    ensures s == PieceText(p) + rest && |rest| < |s| && PieceOk(p, rest)
  {
    if |s| > 1 && s[1] == 0x2F {
      var body, ended;
      body, ended, rest := CutLine(s[2..]);
      p := LineComment(body, ended);
      assert s == [0x2F, 0x2F] + (body + If(ended, [0x0A]) + rest);
    } else if |s| > 1 && s[1] == 0x2A {
      var body, ended;
      body, ended, rest := CutBlock(s[2..]);
      p := BlockComment(body, ended);
      assert s == [0x2F, 0x2A] + (body + If(ended, [0x2A, 0x2F]) + rest);
    } else {
      p, rest := LoneSlash, s[1..];
    }
  }

  lemma {:induction false} EveryTextHasPieces(s: bytes) returns (ps: seq<Piece>)
    ensures PiecesOk(ps) && Text(ps) == s
    decreases |s|
  {
    if s == [] {
      ps := [];
    } else {
      var p, rest := FirstPiece(s);
      var more := EveryTextHasPieces(rest);
      ps := [p] + more;
      assert ps[1..] == more;
    }
  }

  /** Minifying a text gives exactly the strings and other bytes of its pieces, however it is cut into them. */
  lemma {:induction false} MinIsLexical(s: bytes, out: bytes)
    ensures out == Min(s) <==> exists ps :: PiecesOk(ps) && Text(ps) == s && Kept(ps) == out
  {
    var ps := EveryTextHasPieces(s);
    PiecesMinify(ps);
    forall qs | PiecesOk(qs) && Text(qs) == s ensures Kept(qs) == Min(s) {
      PiecesMinify(qs);
    }
  }
}
