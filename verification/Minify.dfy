/** `cJSON_Minify` and its helpers, in place: two cursors over one NUL-terminated array. */
module Minify {
  import opened Bytes
  import opened MinifySpec

  // ---------- the same functions by position, with what is written so far

  function MinFrom(s: bytes, i: nat, out: bytes): bytes
    requires i <= |s|
    decreases |s| - i
  {
    if i == |s| then out
    else if IsBlank(s[i]) then MinFrom(s, i + 1, out)
    else if s[i] == SLASH then
      if i + 1 < |s| && s[i + 1] == SLASH then MinFrom(s, LineEnd(s, i + 2), out)
      else if i + 1 < |s| && s[i + 1] == STAR then MinFrom(s, BlockEnd(s, i + 2), out)
      else MinFrom(s, i + 1, out)
    else if s[i] == QUOTE then StrFrom(s, i + 1, out + [s[i]])
    else MinFrom(s, i + 1, out + [s[i]])
  }

  function LineEnd(s: bytes, i: nat): (j: nat)
    requires i <= |s|
    ensures i <= j <= |s|
    decreases |s| - i
  {
    if i == |s| then i else if s[i] == NEWLINE then i + 1 else LineEnd(s, i + 1)
  }

  function BlockEnd(s: bytes, i: nat): (j: nat)
    requires i <= |s|
    ensures i <= j <= |s|
    decreases |s| - i
  {
    if i == |s| then i
    else if s[i] == STAR && i + 1 < |s| && s[i + 1] == SLASH then i + 2
    else BlockEnd(s, i + 1)
  }

  function StrFrom(s: bytes, i: nat, out: bytes): bytes
    requires i <= |s|
    decreases |s| - i
  {
    if i == |s| then out
    else if s[i] == QUOTE then MinFrom(s, i + 1, out + [s[i]])
    else if s[i] == BACKSLASH && i + 1 < |s| && s[i + 1] == QUOTE then
      StrFrom(s, i + 2, out + [s[i]] + [s[i + 1]])
    else StrFrom(s, i + 1, out + [s[i]])
  }

  /** Behind the first line feed from `i` on, or the end of the text if there is none. */
  ghost predicate LineEndsAt(s: bytes, i: nat, j: nat)
    requires i <= |s|
  {
    && i <= j <= |s|
    && if 0x0A in s[i..] then j > i && s[j - 1] == 0x0A && 0x0A !in s[i..j - 1] else j == |s|
  }

  lemma {:induction false} LineEndIff(s: bytes, i: nat, j: nat)
    requires i <= |s|
    ensures j == LineEnd(s, i) <==> LineEndsAt(s, i, j)
    decreases |s| - i
  {
    if i < |s| {
      assert s[i..] == [s[i]] + s[i + 1..];
      if s[i] != NEWLINE {
        LineEndIff(s, i + 1, j);
        assert i < j - 1 <= |s| ==> s[i..j - 1] == [s[i]] + s[i + 1..j - 1];
      } else {
        assert i < j - 1 <= |s| ==> s[i..j - 1][0] == 0x0A;
      }
    }
  }

  ghost predicate EndMark(s: bytes, k: nat) {
    k + 1 < |s| && s[k] == 0x2A && s[k + 1] == 0x2F
  }

  /** Behind the first star and slash from `i` on, or the end of the text if there are none. */
  ghost predicate BlockEndsAt(s: bytes, i: nat, j: nat) {
    && i <= j <= |s|
    && if exists k: nat :: k >= i && EndMark(s, k)
       then j >= i + 2 && EndMark(s, j - 2) && forall k: nat :: i <= k < j - 2 ==> !EndMark(s, k)
       else j == |s|
  }

  lemma {:induction false} BlockEndIff(s: bytes, i: nat, j: nat)
    requires i <= |s|
    ensures j == BlockEnd(s, i) <==> BlockEndsAt(s, i, j)
    decreases |s| - i
  {
    if i < |s| {
      if !EndMark(s, i) {
        BlockEndIff(s, i + 1, j);
      }
    }
  }

  lemma Tail(s: bytes, i: nat, k: nat)
    requires i + k <= |s|
    ensures s[i..][k..] == s[i + k..]
  {
  }

  lemma {:induction false} LineEndIs(s: bytes, i: nat)
    requires i <= |s|
    ensures Min(s[LineEnd(s, i)..]) == Line(s[i..])
    decreases |s| - i
  {
    if i < |s| {
      Tail(s, i, 1);
      if s[i] != NEWLINE {
        LineEndIs(s, i + 1);
      }
    }
  }

  lemma {:induction false} BlockEndIs(s: bytes, i: nat)
    requires i <= |s|
    ensures Min(s[BlockEnd(s, i)..]) == Block(s[i..])
    decreases |s| - i
  {
    if i < |s| {
      Tail(s, i, 1);
      if s[i] == STAR && i + 1 < |s| && s[i + 1] == SLASH {
        Tail(s, i, 2);
      } else {
        BlockEndIs(s, i + 1);
      }
    }
  }

  lemma {:induction false} MinFromIs(s: bytes, i: nat, out: bytes)
    requires i <= |s|
    ensures MinFrom(s, i, out) == out + Min(s[i..])
    decreases |s| - i
  {
    if i < |s| {
      Tail(s, i, 1);
      if IsBlank(s[i]) {
        MinFromIs(s, i + 1, out);
      } else if s[i] == SLASH {
        if i + 1 < |s| && s[i + 1] == SLASH {
          Tail(s, i, 2);
          LineEndIs(s, i + 2);
          MinFromIs(s, LineEnd(s, i + 2), out);
        } else if i + 1 < |s| && s[i + 1] == STAR {
          Tail(s, i, 2);
          BlockEndIs(s, i + 2);
          MinFromIs(s, BlockEnd(s, i + 2), out);
        } else {
          MinFromIs(s, i + 1, out);
        }
      } else if s[i] == QUOTE {
        StrFromIs(s, i + 1, out + [s[i]]);
      } else {
        MinFromIs(s, i + 1, out + [s[i]]);
      }
    }
  }

  lemma {:induction false} StrFromIs(s: bytes, i: nat, out: bytes)
    requires i <= |s|
    ensures StrFrom(s, i, out) == out + Str(s[i..])
    decreases |s| - i
  {
    if i < |s| {
      Tail(s, i, 1);
      if s[i] == QUOTE {
        MinFromIs(s, i + 1, out + [s[i]]);
      } else if s[i] == BACKSLASH && i + 1 < |s| && s[i + 1] == QUOTE {
        Tail(s, i, 2);
        StrFromIs(s, i + 2, out + [s[i]] + [s[i + 1]]);
      } else {
        StrFromIs(s, i + 1, out + [s[i]]);
      }
    }
  }

  // ---------- the methods

  /** From `j` on the array still holds the original text `s` and its terminator. */
  ghost predicate Unread(json: array<byte>, s: bytes, j: nat)
    reads json
  {
    && j <= |s| < json.Length && json[|s|] == 0 && 0 !in s
    && forall i :: j <= i < |s| ==> json[i] == s[i]
  }

  /** What has been written so far. */
  ghost predicate Holds(json: array<byte>, k: nat, out: bytes)
    reads json
  {
    k == |out| <= json.Length && forall i :: 0 <= i < k ==> json[i] == out[i]
  }

  /** `skip_oneline_comment`: past the end of the line, or to the terminator. */
  method SkipOnelineComment(json: array<byte>, j0: nat, ghost s: bytes) returns (j: nat)
    requires Unread(json, s, j0) && j0 + 2 <= |s|
    ensures j == LineEnd(s, j0 + 2) && LineEndsAt(s, j0 + 2, j)
  {
    LineEndIff(s, j0 + 2, LineEnd(s, j0 + 2));
    j := j0 + 2;
    while json[j] != 0
      invariant j0 < j <= |s| && LineEnd(s, j) == LineEnd(s, j0 + 2)
      decreases |s| - j
    {
      if json[j] == NEWLINE {
        j := j + 1;
        return;
      }
      j := j + 1;
    }
  }

  /** `skip_multiline_comment`: past the closing mark, or to the terminator. */
  method SkipMultilineComment(json: array<byte>, j0: nat, ghost s: bytes) returns (j: nat)
    requires Unread(json, s, j0) && j0 + 2 <= |s|
    ensures j == BlockEnd(s, j0 + 2) && BlockEndsAt(s, j0 + 2, j)
  {
    BlockEndIff(s, j0 + 2, BlockEnd(s, j0 + 2));
    j := j0 + 2;
    while json[j] != 0
      invariant j0 < j <= |s| && BlockEnd(s, j) == BlockEnd(s, j0 + 2)
      decreases |s| - j
    {
      if json[j] == STAR && json[j + 1] == SLASH {
        j := j + 2;
        return;
      }
      j := j + 1;
    }
  }

  /** `minify_string`: copies up to and with the quote that ends the string, or to the terminator. */
  method MinifyString(json: array<byte>, j0: nat, k0: nat, ghost s: bytes, ghost out0: bytes)
    returns (j: nat, k: nat, ghost out: bytes)
    requires Unread(json, s, j0) && k0 <= j0 < |s| && json[j0] == QUOTE && Holds(json, k0, out0)
    modifies json
    ensures Unread(json, s, j) && k0 <= k <= j && j0 < j
    ensures Holds(json, k, out) && MinFrom(s, j, out) == MinFrom(s, j0, out0)
    ensures forall i :: k <= i < json.Length ==> json[i] == old(json[i])
  {
    json[k0] := json[j0];
    j, k, out := j0 + 1, k0 + 1, out0 + [QUOTE];
    while json[j] != 0
      invariant Unread(json, s, j) && k0 <= k <= j && j0 < j
      invariant Holds(json, k, out) && StrFrom(s, j, out) == MinFrom(s, j0, out0)
      invariant forall i :: k <= i < json.Length ==> json[i] == old(json[i])
      decreases |s| - j
    {
      json[k] := json[j];
      out := out + [s[j]];
      if json[j] == QUOTE {
        j, k := j + 1, k + 1;
        return;
      } else if json[j] == BACKSLASH && json[j + 1] == QUOTE {
        json[k + 1] := json[j + 1];
        out := out + [s[j + 1]];
        j, k := j + 1, k + 1;
      }
      j, k := j + 1, k + 1;
    }
  }

  /** The loop of `cJSON_Minify`: everything but the new terminator. */
  method MinifyTokens(json: array<byte>, ghost s: bytes) returns (k: nat, ghost out: bytes)
    requires Unread(json, s, 0)
    modifies json
    ensures k <= |s| < json.Length && Holds(json, k, out) && out == MinFrom(s, 0, [])
    ensures forall i :: k <= i < json.Length ==> json[i] == old(json[i])
  {
    var j := 0;
    k, out := 0, [];
    while json[j] != 0
      invariant Unread(json, s, j) && k <= j
      invariant Holds(json, k, out) && MinFrom(s, j, out) == MinFrom(s, 0, [])
      invariant forall i :: k <= i < json.Length ==> json[i] == old(json[i])
      decreases |s| - j
    {
      var c := json[j];
      if c == SPACE || c == TAB || c == RETURN || c == NEWLINE {
        j := j + 1;
      } else if c == SLASH {
        if json[j + 1] == SLASH {
          j := SkipOnelineComment(json, j, s);
        } else if json[j + 1] == STAR {
          j := SkipMultilineComment(json, j, s);
        } else {
          j := j + 1;
        }
      } else if c == QUOTE {
        j, k, out := MinifyString(json, j, k, s, out);
      } else {
        json[k] := json[j];
        out := out + [c];
        j, k := j + 1, k + 1;
      }
    }
  }

  /**
   The text up to the first NUL is replaced by its minified form, terminated; the bytes after
   the new terminator stay what they were.
   */
  method Minify(json: array?<byte>)
    requires json != null ==> 0 in json[..]
    modifies if json == null then {} else {json}
    ensures json != null ==>
              var out := Min(CString(old(json[..])));
              && |out| < json.Length && json[..|out|] == out && json[|out|] == 0
              && forall i :: |out| < i < json.Length ==> json[i] == old(json[i])
  {
    if json == null {
      return;
    }
    ghost var s := CString(json[..]);
    var k;
    ghost var out;
    k, out := MinifyTokens(json, s);
    json[k] := 0;
    MinFromIs(s, 0, []);
    assert s[0..] == s;
  }
}
