/** Bytes, C strings and the characters the JSON code compares with. */
module Bytes {
  type byte = b: int | 0 <= b < 0x100
  type bytes = seq<byte>

  /** The bytes of a NUL-terminated string, without the terminator. */
  type cstring = s: bytes | 0 !in s

  const TAB: byte := 0x09
  const NEWLINE: byte := 0x0A
  const RETURN: byte := 0x0D
  const SPACE: byte := 0x20
  const QUOTE: byte := 0x22
  const STAR: byte := 0x2A
  const PLUS: byte := 0x2B
  const COMMA: byte := 0x2C
  const MINUS: byte := 0x2D
  const DOT: byte := 0x2E
  const SLASH: byte := 0x2F
  const ZERO: byte := 0x30
  const NINE: byte := 0x39
  const COLON: byte := 0x3A
  const UPPER_E: byte := 0x45
  const OPEN_BRACKET: byte := 0x5B
  const BACKSLASH: byte := 0x5C
  const CLOSE_BRACKET: byte := 0x5D
  const LOWER_B: byte := 0x62
  const LOWER_E: byte := 0x65
  const LOWER_F: byte := 0x66
  const LOWER_N: byte := 0x6E
  const LOWER_R: byte := 0x72
  const LOWER_T: byte := 0x74
  const LOWER_U: byte := 0x75
  const OPEN_BRACE: byte := 0x7B
  const CLOSE_BRACE: byte := 0x7D

  const NULL_TEXT: bytes := [0x6E, 0x75, 0x6C, 0x6C]
  const TRUE_TEXT: bytes := [0x74, 0x72, 0x75, 0x65]
  const FALSE_TEXT: bytes := [0x66, 0x61, 0x6C, 0x73, 0x65]

  predicate IsDigit(c: byte) {
    ZERO <= c <= NINE
  }

  /** The order of a dictionary: a proper prefix comes first, else the smaller byte where they first differ. */
  ghost predicate Before(a: bytes, b: bytes) {
    (|a| < |b| && a == b[..|a|]) || exists k: nat :: SmallerAt(a, b, k)
  }

  ghost predicate SmallerAt(a: bytes, b: bytes, k: nat) {
    k < |a| && k < |b| && a[..k] == b[..k] && a[k] < b[k]
  }

  lemma {:induction false} BeforeTail(a: bytes, b: bytes)
    requires a != [] && b != []
    ensures Before(a, b) <==> a[0] < b[0] || (a[0] == b[0] && Before(a[1..], b[1..]))
  {
    if a[0] < b[0] {
      assert SmallerAt(a, b, 0);
    } else if Before(a, b) {
      TailBefore(a, b);
    }
    if a[0] == b[0] && Before(a[1..], b[1..]) {
      HeadBefore(a, b);
    }
  }

  /** The first bytes decide, or the rest does. */
  lemma {:induction false} BeforeHeads(x: byte, s: bytes, y: byte, t: bytes)
    ensures Before([x] + s, [y] + t) <==> x < y || (x == y && Before(s, t))
  {
    BeforeTail([x] + s, [y] + t);
    assert ([x] + s)[1..] == s && ([y] + t)[1..] == t;
  }

  lemma {:induction false} BeforeOne(x: byte, y: byte)
    ensures Before([x], [y]) <==> x < y
  {
    BeforeHeads(x, [], y, []);
    assert [x] + [] == [x] && [y] + [] == [y];
  }

  lemma {:induction false} HeadBefore(a: bytes, b: bytes)
    requires a != [] && b != [] && a[0] == b[0] && Before(a[1..], b[1..])
    ensures Before(a, b)
  {
    assert a == [a[0]] + a[1..] && b == [b[0]] + b[1..];
    if |a| < |b| && a[1..] == b[1..][..|a| - 1] {
      assert a == b[..|a|];
    } else {
      var k: nat :| SmallerAt(a[1..], b[1..], k);
      assert a[..k + 1] == [a[0]] + a[1..][..k] && b[..k + 1] == [b[0]] + b[1..][..k];
      assert SmallerAt(a, b, k + 1);
    }
  }

  lemma {:induction false} TailBefore(a: bytes, b: bytes)
    requires a != [] && b != [] && a[0] >= b[0] && Before(a, b)
    ensures a[0] == b[0] && Before(a[1..], b[1..])
  {
    if |a| < |b| && a == b[..|a|] {
      assert a[1..] == b[1..][..|a| - 1];
    } else {
      var k: nat :| SmallerAt(a, b, k);
      assert k > 0 && a[..k][0] == b[..k][0];
      assert a[1..][..k - 1] == a[..k][1..] && b[1..][..k - 1] == b[..k][1..];
      assert SmallerAt(a[1..], b[1..], k - 1);
    }
  }

  /** What C sees of a buffer: the bytes before the first NUL. */
  function CString(s: bytes): (r: cstring)
    ensures r <= s
    ensures 0 !in s ==> r == s
    ensures 0 in s ==> |r| < |s| && s[|r|] == 0
  {
    if s == [] || s[0] == 0 then [] else [s[0]] + CString(s[1..])
  }
}
