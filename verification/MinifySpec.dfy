/** `cJSON_Minify` as a function on the text before the NUL, one function per scanning state. */
module MinifySpec {
  import opened Bytes

  predicate IsBlank(c: byte) {
    c == SPACE || c == TAB || c == RETURN || c == NEWLINE
  }

  /** Between tokens. A lone slash is dropped. */
  function Min(s: bytes): (r: bytes)
    ensures |r| <= |s|
    decreases |s|
  {
    if s == [] then []
    else if IsBlank(s[0]) then Min(s[1..])
    else if s[0] == SLASH then
      if |s| > 1 && s[1] == SLASH then Line(s[2..])
      else if |s| > 1 && s[1] == STAR then Block(s[2..])
      else Min(s[1..])
    else if s[0] == QUOTE then [QUOTE] + Str(s[1..])
    else [s[0]] + Min(s[1..])
  }

  /** Inside a comment that ends with the line. */
  function Line(s: bytes): (r: bytes)
    ensures |r| <= |s|
    decreases |s|
  {
    if s == [] then []
    else if s[0] == NEWLINE then Min(s[1..])
    else Line(s[1..])
  }

  /** Inside a block comment. */
  function Block(s: bytes): (r: bytes)
    ensures |r| <= |s|
    decreases |s|
  {
    if s == [] then []
    else if s[0] == STAR && |s| > 1 && s[1] == SLASH then Min(s[2..])
    else Block(s[1..])
  }

  /** Inside a string. Of all escapes only an escaped quote is recognised. */
  function Str(s: bytes): (r: bytes)
    ensures |r| <= |s|
    decreases |s|
  {
    if s == [] then []
    else if s[0] == QUOTE then [QUOTE] + Min(s[1..])
    else if s[0] == BACKSLASH && |s| > 1 && s[1] == QUOTE then [BACKSLASH, QUOTE] + Str(s[2..])
    else [s[0]] + Str(s[1..])
  }

  // ---------- the output is a subsequence of the input

  ghost predicate Subsequence(a: bytes, b: bytes)
    decreases |b|
  {
    a == [] || (b != [] && (if a[0] == b[0] then Subsequence(a[1..], b[1..]) else Subsequence(a, b[1..])))
  }

  /** Dropping more from the front of the input keeps a subsequence one. */
  lemma {:induction false} SubsequenceWeaken(a: bytes, b: bytes, k: nat)
    requires k <= |b| && Subsequence(a, b[k..])
    ensures Subsequence(a, b)
    decreases k
  {
    if k > 0 && a != [] {
      assert b[k - 1..][1..] == b[k..];
      DropOne(a, b[k - 1..]);
      SubsequenceWeaken(a, b, k - 1);
    } else if k == 0 {
      assert b[0..] == b;
    }
  }

  lemma {:induction false} DropOne(a: bytes, b: bytes)
    requires b != [] && Subsequence(a, b[1..])
    ensures Subsequence(a, b)
    decreases |b|, 0
  {
    if a != [] && a[0] == b[0] {
      TailOf(a, b[1..]);
    }
  }

  lemma {:induction false} TailOf(a: bytes, b: bytes)
    requires a != [] && Subsequence(a, b)
    ensures Subsequence(a[1..], b)
    decreases |b|, 1
  {
    if a[0] == b[0] {
      DropOne(a[1..], b);
    } else {
      TailOf(a, b[1..]);
      DropOne(a[1..], b);
    }
  }

  lemma {:induction false} MinIsSubsequence(s: bytes)
    ensures Subsequence(Min(s), s)
    decreases |s|
  {
    if s != [] {
      if s[0] == SLASH && |s| > 1 && s[1] == SLASH {
        LineIsSubsequence(s[2..]);
        SubsequenceWeaken(Min(s), s, 2);
      } else if s[0] == SLASH && |s| > 1 && s[1] == STAR {
        BlockIsSubsequence(s[2..]);
        SubsequenceWeaken(Min(s), s, 2);
      } else if s[0] == QUOTE {
        StrIsSubsequence(s[1..]);
      } else {
        MinIsSubsequence(s[1..]);
        if IsBlank(s[0]) || s[0] == SLASH {
          DropOne(Min(s), s);
        }
      }
    }
  }

  lemma {:induction false} LineIsSubsequence(s: bytes)
    ensures Subsequence(Line(s), s)
    decreases |s|
  {
    if s != [] {
      if s[0] == NEWLINE {
        MinIsSubsequence(s[1..]);
      } else {
        LineIsSubsequence(s[1..]);
      }
      DropOne(Line(s), s);
    }
  }

  lemma {:induction false} BlockIsSubsequence(s: bytes)
    ensures Subsequence(Block(s), s)
    decreases |s|
  {
    if s != [] {
      if s[0] == STAR && |s| > 1 && s[1] == SLASH {
        MinIsSubsequence(s[2..]);
        SubsequenceWeaken(Block(s), s, 2);
      } else {
        BlockIsSubsequence(s[1..]);
        DropOne(Block(s), s);
      }
    }
  }

  lemma {:induction false} StrIsSubsequence(s: bytes)
    ensures Subsequence(Str(s), s)
    decreases |s|
  {
    if s != [] {
      if s[0] == QUOTE {
        MinIsSubsequence(s[1..]);
      } else if s[0] == BACKSLASH && |s| > 1 && s[1] == QUOTE {
        StrIsSubsequence(s[2..]);
        assert s[1..][1..] == s[2..];
        assert Str(s)[1..] == [QUOTE] + Str(s[2..]);
        assert Subsequence(Str(s)[1..], s[1..]);
      } else {
        StrIsSubsequence(s[1..]);
      }
    }
  }

  // ---------- minifying twice

  /** Minified text is left alone by a second pass. */
  lemma {:induction false} MinIsIdempotent(s: bytes)
    ensures Min(Min(s)) == Min(s)
    decreases |s|
  {
    if s != [] {
      if s[0] == SLASH && |s| > 1 && s[1] == SLASH {
        LineIsMinified(s[2..]);
      } else if s[0] == SLASH && |s| > 1 && s[1] == STAR {
        BlockIsMinified(s[2..]);
      } else if s[0] == QUOTE {
        StrIsStable(s[1..]);
      } else {
        MinIsIdempotent(s[1..]);
      }
    }
  }

  lemma {:induction false} LineIsMinified(s: bytes)
    ensures Min(Line(s)) == Line(s)
    decreases |s|
  {
    if s != [] {
      if s[0] == NEWLINE {
        MinIsIdempotent(s[1..]);
      } else {
        LineIsMinified(s[1..]);
      }
    }
  }

  lemma {:induction false} BlockIsMinified(s: bytes)
    ensures Min(Block(s)) == Block(s)
    decreases |s|
  {
    if s != [] {
      if s[0] == STAR && |s| > 1 && s[1] == SLASH {
        MinIsIdempotent(s[2..]);
      } else {
        BlockIsMinified(s[1..]);
      }
    }
  }

  lemma {:induction false} StrIsStable(s: bytes)
    ensures Str(Str(s)) == Str(s)
    decreases |s|
  {
    if s != [] {
      if s[0] == QUOTE {
        MinIsIdempotent(s[1..]);
      } else if s[0] == BACKSLASH && |s| > 1 && s[1] == QUOTE {
        StrIsStable(s[2..]);
        assert Str(s)[2..] == Str(s[2..]);
      } else {
        StrIsStable(s[1..]);
        assert Str(s)[1..] == Str(s[1..]);
      }
    }
  }
}
