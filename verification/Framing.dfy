/** Messages with a length header of two bytes, in network order. */
module Framing {
  import opened Bytes
  import opened Network

  const BUFFER_LENGTH: nat := 1024

  /** Two bytes in network order. */
  function Be16(n: nat): (r: bytes)
    requires n < 0x1_0000
    ensures |r| == 2
  {
    [n / 0x100, n % 0x100]
  }

  function FromBe16(b: bytes): (n: nat)
    requires |b| == 2
    ensures n < 0x1_0000
  {
    b[0] as int * 0x100 + b[1]
  }

  lemma Be16RoundTrip(n: nat)
    requires n < 0x1_0000
    ensures FromBe16(Be16(n)) == n
  {
  }

  /** Network order is the order in which comparing bytes is comparing numbers. */
  lemma Be16IsOrdered(n: nat, m: nat)
    requires n < 0x1_0000 && m < 0x1_0000
    ensures n < m <==> Before(Be16(n), Be16(m))
  {
    BeforeHeads(n / 0x100, [n % 0x100], m / 0x100, [m % 0x100]);
    BeforeOne(n % 0x100, m % 0x100);
    assert Be16(n) == [n / 0x100] + [n % 0x100] && Be16(m) == [m / 0x100] + [m % 0x100];
  }

  /** What `snprintf` leaves in a buffer of `BUFFER_LENGTH` bytes, before the NUL. */
  function Clipped(s: bytes): (r: bytes)
    ensures |r| < BUFFER_LENGTH && r <= s
  {
    if |s| < BUFFER_LENGTH then s else s[..BUFFER_LENGTH - 1]
  }

  function Frame(line: bytes): bytes
    requires |line| < BUFFER_LENGTH
  {
    Be16(|line|) + line
  }

  /** Bytes received off the front of a stream. */
  lemma Took(incoming: bytes, taken: nat, first: bytes, rest: bytes)
    requires taken <= |incoming| && incoming[taken..] == first + rest
    ensures taken + |first| <= |incoming| && Least(|first|, |incoming| - taken) == |first|
    ensures incoming[taken..taken + |first|] == first && incoming[taken + |first|..] == rest
  {
    assert incoming[taken..taken + |first|] == (first + rest)[..|first|];
    assert incoming[taken + |first|..] == (first + rest)[|first|..];
  }
}
