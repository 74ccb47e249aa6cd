/** `parse_input` of `src/utils.c`: `strtok` over one delimiter, cutting the text in place. */
module Tokens {
  import opened Wrappers
  import opened Bytes
  import opened JsonText

  function SkipSpaces(s: bytes, i: nat): (p: nat)
    requires i <= |s|
    ensures i <= p <= |s| && (p < |s| ==> s[p] != SPACE)
    decreases |s| - i
  {
    if i < |s| && s[i] == SPACE then SkipSpaces(s, i + 1) else i
  }

  function WordEnd(s: bytes, i: nat): (q: nat)
    requires i <= |s|
    ensures i <= q <= |s| && (i < |s| && s[i] != SPACE ==> q > i) && (q < |s| ==> s[q] == SPACE)
    decreases |s| - i
  {
    if i < |s| && s[i] != SPACE then WordEnd(s, i + 1) else i
  }

  /** Where `strtok` goes on after a word that ends at `q`: past the space it overwrites, if there is one. */
  function After(s: bytes, q: nat): nat {
    if q < |s| then q + 1 else q
  }

  /** `done` and the words from `i` on. */
  function Words(s: bytes, i: nat, done: seq<bytes>): seq<bytes>
    requires i <= |s|
    decreases |s| - i
  {
    var p := SkipSpaces(s, i);
    if p == |s| then done else Words(s, After(s, WordEnd(s, p)), done + [s[p..WordEnd(s, p)]])
  }

  /** The text with a NUL in place of the space after each word from `i` on. */
  function Cut(s: bytes, i: nat, was: bytes): bytes
    requires i <= |s| && |was| == |s|
    decreases |s| - i
  {
    var p := SkipSpaces(s, i);
    if p == |s| then was
    else
      var q := WordEnd(s, p);
      Cut(s, After(s, q), if q < |s| then was[q := 0] else was)
  }

  /** A byte becomes NUL exactly if it is a space right behind a word. */
  lemma {:induction false} CutIs(s: bytes, i: nat, was: bytes, k: nat)
    requires i <= |s| == |was| && k < |s|
    ensures |Cut(s, i, was)| == |s|
    ensures Cut(s, i, was)[k] == if k > i && s[k] == 0x20 && s[k - 1] != 0x20 then 0x00 else was[k]
    decreases |s| - i
  {
    var p := SkipSpaces(s, i);
    SkippedSpaces(s, i, k - 1);
    if p < |s| {
      var q := WordEnd(s, p);
      WordBytes(s, p, k);
      WordBytes(s, p, q - 1);
      CutIs(s, After(s, q), if q < |s| then was[q := 0] else was, k);
    }
  }

  lemma {:induction false} SkippedSpaces(s: bytes, i: nat, k: int)
    requires i <= |s|
    ensures i <= k < SkipSpaces(s, i) ==> s[k] == SPACE
    decreases |s| - i
  {
    if i < |s| && s[i] == SPACE {
      SkippedSpaces(s, i + 1, k);
    }
  }

  lemma {:induction false} WordBytes(s: bytes, i: nat, k: nat)
    requires i <= |s|
    ensures i <= k < WordEnd(s, i) ==> s[k] != SPACE
    decreases |s| - i
  {
    if i < |s| && s[i] != SPACE {
      WordBytes(s, i + 1, k);
    }
  }

  /** The part of `input` that `strtok` has not reached is the original text `s`. */
  ghost predicate Untouched(input: array<byte>, s: bytes, i: nat)
    reads input
  {
    && i <= |s| < input.Length && input[|s|] == 0 && 0 !in s
    && forall k :: i <= k < |s| ==> input[k] == s[k]
  }

  /** `strtok`: the next word from `i` on and where the search goes on, or None at the end of the text. */
  method StrTok(input: array<byte>, i: nat, ghost s: bytes) returns (token: Option<bytes>, next: nat)
    requires Untouched(input, s, i)
    modifies input
    ensures Untouched(input, s, next) && i <= next && input[|s|..] == old(input[|s|..])
    ensures var p := SkipSpaces(s, i);
      if p == |s| then token == None && input[..|s|] == old(input[..|s|])
      else var q := WordEnd(s, p);
        && token == Some(s[p..q]) && next == After(s, q)
        && input[..|s|] == if q < |s| then old(input[..|s|])[q := 0] else old(input[..|s|])
  {
    var p := i;
    while input[p] == SPACE
      invariant i <= p <= |s| && SkipSpaces(s, p) == SkipSpaces(s, i)
      decreases |s| - p
    {
      p := p + 1;
    }
    if input[p] == 0 {
      return None, p;
    }
    var q := p;
    while input[q] != 0 && input[q] != SPACE
      invariant p <= q <= |s| && WordEnd(s, q) == WordEnd(s, p)
      decreases |s| - q
    {
      q := q + 1;
    }
    token := Some(input[p..q]);
    assert input[p..q] == s[p..q];
    if input[q] == 0 {
      next := q;
    } else {
      input[q] := 0;
      next := q + 1;
    }
  }

  /** The words of the text before the first NUL, or None if it has none; each is cut off in place. */
  method ParseInput(input: array<byte>) returns (r: Option<seq<bytes>>)
    requires 0 in input[..]
    modifies input
    ensures var s := CString(old(input[..]));
      && (var words := Words(s, 0, []); r == if words == [] then None else Some(words))
      && input[..|s|] == Cut(s, 0, s)
      && input[|s|..] == old(input[|s|..])
  {
    ghost var s := CString(input[..]);
    ghost var tail := input[|s|..];
    assert input[..|s|] == s;
    var arr: seq<bytes> := [];
    var token, next := StrTok(input, 0, s);
    if token.None? {
      return None;
    }
    while token.Some?
      invariant Untouched(input, s, next) && input[|s|..] == tail
      invariant if token.Some? then Cut(s, next, input[..|s|]) == Cut(s, 0, s) else input[..|s|] == Cut(s, 0, s)
      invariant if token.Some? then Words(s, next, arr + [token.value]) == Words(s, 0, [])
                else arr == Words(s, 0, []) && arr != []
      decreases if token.Some? then 1 + |s| - next else 0
    {
      arr := arr + [token.value];
      token, next := StrTok(input, next, s);
    }
    return Some(arr);
  }

  // ---------- what the words are

  predicate IsWord(w: bytes) {
    w != [] && SPACE !in w
  }

  ghost predicate AllWords(words: seq<bytes>) {
    forall w <- words :: IsWord(w)
  }

  function Flatten(words: seq<bytes>): bytes {
    if words == [] then [] else words[0] + Flatten(words[1..])
  }

  function NoSpaces(s: bytes): bytes {
    if s == [] then [] else (if s[0] == SPACE then [] else [s[0]]) + NoSpaces(s[1..])
  }

  lemma {:induction false} FlattenSnoc(words: seq<bytes>, w: bytes)
    ensures Flatten(words + [w]) == Flatten(words) + w
  {
    if words == [] {
      assert [] + [w] == [w];
      assert [w][1..] == [];
    } else {
      assert (words + [w])[1..] == words[1..] + [w];
      FlattenSnoc(words[1..], w);
    }
  }

  lemma {:induction false} SkippedAreSpaces(s: bytes, i: nat)
    requires i <= |s|
    ensures NoSpaces(s[i..]) == NoSpaces(s[SkipSpaces(s, i)..])
    decreases |s| - i
  {
    if i < |s| && s[i] == SPACE {
      SkippedAreSpaces(s, i + 1);
      assert s[i..][1..] == s[i + 1..];
    }
  }

  lemma {:induction false} WordIsKept(s: bytes, i: nat)
    requires i <= |s|
    ensures SPACE !in s[i..WordEnd(s, i)]
    ensures NoSpaces(s[i..]) == s[i..WordEnd(s, i)] + NoSpaces(s[WordEnd(s, i)..])
    decreases |s| - i
  {
    var q := WordEnd(s, i);
    if i < |s| && s[i] != SPACE {
      WordIsKept(s, i + 1);
      assert s[i..] == [s[i]] + s[i + 1..];
      assert s[i..q] == [s[i]] + s[i + 1..q];
    }
  }

  lemma SpaceIsDropped(s: bytes, q: nat)
    requires q <= |s| && (q < |s| ==> s[q] == SPACE)
    ensures NoSpaces(s[q..]) == NoSpaces(s[After(s, q)..])
  {
    if q < |s| {
      assert s[q..] == [s[q]] + s[q + 1..];
    }
  }

  /** Every word is nonempty and free of spaces, and together they are all of the text but its spaces. */
  lemma {:induction false} WordsAreAll(s: bytes, i: nat, done: seq<bytes>)
    requires i <= |s| && AllWords(done)
    ensures AllWords(Words(s, i, done))
    ensures Flatten(Words(s, i, done)) == Flatten(done) + NoSpaces(s[i..])
    decreases |s| - i
  {
    var p := SkipSpaces(s, i);
    SkippedAreSpaces(s, i);
    if p < |s| {
      var next, w := After(s, WordEnd(s, p)), s[p..WordEnd(s, p)];
      WordIsKept(s, p);
      SpaceIsDropped(s, WordEnd(s, p));
      assert NoSpaces(s[i..]) == w + NoSpaces(s[next..]);
      FlattenSnoc(done, w);
      WordsAreAll(s, next, done + [w]);
      Assoc(Flatten(done), w, NoSpaces(s[next..]));
    }
  }

  /** The words of a C string are C strings. */
  lemma {:induction false} NulFree(s: bytes, i: nat, done: seq<bytes>)
    requires i <= |s| && 0 !in s && forall w <- done :: 0 !in w
    ensures forall w <- Words(s, i, done) :: 0 !in w
    decreases |s| - i
  {
    var p := SkipSpaces(s, i);
    if p < |s| {
      NulFree(s, After(s, WordEnd(s, p)), done + [s[p..WordEnd(s, p)]]);
    }
  }

  /** The text from `n` on. */
  ghost predicate Behind(s: bytes, n: nat, b: bytes) {
    |s| == n + |b| && forall k {:trigger b[k]} :: 0 <= k < |b| ==> s[n + k] == b[k]
  }

  /** Words behind a space do not depend on what comes before it. */
  lemma {:induction false} WordsBehind(s: bytes, n: nat, b: bytes, i: nat, done: seq<bytes>)
    requires Behind(s, n, b) && i <= |b|
    ensures Words(s, n + i, done) == Words(b, i, done)
    decreases |b| - i
  {
    SkipsBehind(s, n, b, i);
    var p := SkipSpaces(b, i);
    if p < |b| {
      EndsBehind(s, n, b, p);
      var q := WordEnd(b, p);
      SliceBehind(s, n, b, p, q);
      WordsBehind(s, n, b, After(b, q), done + [b[p..q]]);
    }
  }

  lemma SliceBehind(s: bytes, n: nat, b: bytes, x: nat, y: nat)
    requires Behind(s, n, b) && x <= y <= |b|
    ensures s[n + x..n + y] == b[x..y]
  {
    forall k | 0 <= k < y - x ensures s[n + x..n + y][k] == b[x..y][k] {
      assert b[x + k] == b[x..y][k];
    }
  }

  lemma {:induction false} SkipsBehind(s: bytes, n: nat, b: bytes, i: nat)
    requires Behind(s, n, b) && i <= |b|
    ensures SkipSpaces(s, n + i) == n + SkipSpaces(b, i)
    decreases |b| - i
  {
    if i < |b| && b[i] == SPACE {
      SkipsBehind(s, n, b, i + 1);
    }
  }

  lemma {:induction false} EndsBehind(s: bytes, n: nat, b: bytes, i: nat)
    requires Behind(s, n, b) && i <= |b|
    ensures WordEnd(s, n + i) == n + WordEnd(b, i)
    decreases |b| - i
  {
    if i < |b| && b[i] != SPACE {
      EndsBehind(s, n, b, i + 1);
    }
  }

  /** `a`, a space, and more. */
  ghost predicate Divided(s: bytes, a: bytes) {
    |s| > |a| && s[|a|] == SPACE && forall k {:trigger a[k]} :: 0 <= k < |a| ==> s[k] == a[k]
  }

  lemma {:induction false} EndsSplit(s: bytes, a: bytes, i: nat)
    requires Divided(s, a) && i <= |a|
    ensures WordEnd(s, i) == WordEnd(a, i)
    decreases |a| - i
  {
    if i < |a| && a[i] != SPACE {
      EndsSplit(s, a, i + 1);
    }
  }

  lemma FrontSlice(s: bytes, a: bytes, x: nat, y: nat)
    requires Divided(s, a) && x <= y <= |a|
    ensures s[x..y] == a[x..y]
  {
    forall k | 0 <= k < y - x ensures s[x..y][k] == a[x..y][k] {
      assert a[x + k] == a[x..y][k];
    }
  }

  lemma {:induction false} SplitFrom(s: bytes, a: bytes, b: bytes, i: nat, done: seq<bytes>)
    requires Divided(s, a) && Behind(s, |a| + 1, b) && i <= |a|
    ensures Words(s, i, done) == Words(b, 0, Words(a, i, done))
    decreases |a| - i
  {
    if i == |a| {
      WordsBehind(s, |a| + 1, b, 0, done);
    } else if a[i] == SPACE {
      SplitFrom(s, a, b, i + 1, done);
    } else {
      var q := WordEnd(a, i);
      EndsSplit(s, a, i);
      FrontSlice(s, a, i, q);
      if q < |a| {
        SplitFrom(s, a, b, q + 1, done + [a[i..q]]);
      } else {
        WordsBehind(s, |a| + 1, b, 0, done + [a[i..q]]);
      }
    }
  }

  lemma {:induction false} DoneFirst(s: bytes, i: nat, done: seq<bytes>)
    requires i <= |s|
    ensures Words(s, i, done) == done + Words(s, i, [])
    decreases |s| - i
  {
    var p := SkipSpaces(s, i);
    if p < |s| {
      var next, w := After(s, WordEnd(s, p)), s[p..WordEnd(s, p)];
      DoneFirst(s, next, done + [w]);
      DoneFirst(s, next, [] + [w]);
      assert (done + [w]) + Words(s, next, []) == done + (([] + [w]) + Words(s, next, []));
    }
  }

  /** Spaces separate: the words of a text are those before a space, then those behind it; a word is one word. */
  lemma {:induction false} WordsSplit(a: bytes, b: bytes, w: bytes)
    ensures Words(a + [SPACE] + b, 0, []) == Words(a, 0, []) + Words(b, 0, [])
    ensures Words([], 0, []) == [] && (IsWord(w) ==> Words(w, 0, []) == [w])
  {
    SplitFrom(a + [SPACE] + b, a, b, 0, []);
    DoneFirst(b, 0, Words(a, 0, []));
    if IsWord(w) {
      assert w[0..] == w && [] + [w] == [w];
      JoinedTokenises([w], w, 0, []);
    }
  }

  // ---------- fields joined by single spaces

  function Joined(fields: seq<bytes>): bytes {
    if fields == [] then []
    else if |fields| == 1 then fields[0]
    else fields[0] + [SPACE] + Joined(fields[1..])
  }

  lemma {:induction false} WordEndsAt(s: bytes, i: nat, w: bytes)
    requires i + |w| <= |s| && s[i..i + |w|] == w && SPACE !in w && (i + |w| < |s| ==> s[i + |w|] == SPACE)
    ensures WordEnd(s, i) == i + |w|
    decreases |w|
  {
    if w != [] {
      assert s[i] == w[0];
      assert s[i + 1..i + 1 + |w[1..]|] == w[1..];
      WordEndsAt(s, i + 1, w[1..]);
    }
  }

  /** The first field is the next word, and the other fields come after it. */
  lemma {:induction false} FirstField(fields: seq<bytes>, s: bytes, i: nat)
    requires fields != [] && AllWords(fields) && i <= |s| && s[i..] == Joined(fields)
    ensures i < |s| && SkipSpaces(s, i) == i && s[i..WordEnd(s, i)] == fields[0]
    ensures s[After(s, WordEnd(s, i))..] == Joined(fields[1..])
  {
    var w := fields[0];
    assert IsWord(w);
    assert s[i..][..|w|] == w;
    assert s[i..i + |w|] == w;
    assert s[i] == w[0];
    if |fields| > 1 {
      assert s[i..][|w|] == SPACE;
    }
    WordEndsAt(s, i, w);
    var next := After(s, i + |w|);
    assert s[next..] == s[i..][next - i..];
  }

  /** Space-free nonempty fields, joined by single spaces, tokenise back to themselves. */
  lemma {:induction false} JoinedTokenises(fields: seq<bytes>, s: bytes, i: nat, done: seq<bytes>)
    requires AllWords(fields) && i <= |s| && s[i..] == Joined(fields)
    ensures Words(s, i, done) == done + fields
    decreases |fields|
  {
    if fields != [] {
      FirstField(fields, s, i);
      JoinedTokenises(fields[1..], s, After(s, WordEnd(s, i)), done + [fields[0]]);
      assert (done + [fields[0]]) + fields[1..] == done + fields;
    }
  }

  lemma NumberIsWord(n: int)
    ensures IsWord(IntText(n)) && 0 !in IntText(n)
  {
    var d := Digits(if n < 0 then -n else n);
    forall i | 0 <= i < |d| ensures d[i] != SPACE && d[i] != 0 {
      assert IsDigit(d[i]);
    }
  }

  // ---------- fields of which the end may be cut off

  lemma {:induction false} NoSpacesJoin(a: bytes, b: bytes)
    ensures NoSpaces(a + b) == NoSpaces(a) + NoSpaces(b)
  {
    if a == [] {
      assert [] + b == b;
    } else {
      assert (a + b)[1..] == a[1..] + b;
      NoSpacesJoin(a[1..], b);
    }
  }

  lemma {:induction false} JoinedFlat(fields: seq<bytes>)
    requires AllWords(fields)
    ensures NoSpaces(Joined(fields)) == Flatten(fields)
  {
    var s := Joined(fields);
    assert s[0..] == s && [] + fields == fields;
    JoinedTokenises(fields, s, 0, []);
    WordsAreAll(s, 0, []);
  }

  lemma {:induction false} JoinedLast(fields: seq<bytes>)
    requires fields != [] && AllWords(fields)
    ensures Joined(fields) != [] && Joined(fields)[|Joined(fields)| - 1] != SPACE
  {
    assert IsWord(fields[0]);
    if |fields| > 1 {
      JoinedLast(fields[1..]);
    }
  }

  /** The words of a prefix are the words of the whole without what the rest adds, which is something. */
  lemma {:induction false} PrefixWords(fields: seq<bytes>, s: bytes)
    requires fields != [] && AllWords(fields) && s <= Joined(fields)
    ensures AllWords(Words(s, 0, [])) && Flatten(Words(s, 0, [])) <= Flatten(fields)
    ensures Flatten(Words(s, 0, [])) == Flatten(fields) ==> s == Joined(fields)
  {
    var all := Joined(fields);
    var rest := all[|s|..];
    WordsAreAll(s, 0, []);
    assert s[0..] == s && all == s + rest;
    JoinedFlat(fields);
    NoSpacesJoin(s, rest);
    if s != all {
      JoinedLast(fields);
      var init, last := rest[..|rest| - 1], [rest[|rest| - 1]];
      assert rest == init + last;
      NoSpacesJoin(init, last);
      assert last[0] != SPACE && last[1..] == [];
      assert NoSpaces(last) == last;
    }
  }

  /** Fields joined by single spaces and cut off somewhere tokenise back exactly if they are words and whole. */
  lemma {:induction false} PrefixTokenisesIff(fields: seq<bytes>, s: bytes)
    requires fields != [] && s <= Joined(fields)
    ensures Words(s, 0, []) == fields <==> AllWords(fields) && s == Joined(fields)
  {
    if AllWords(fields) {
      assert s[0..] == s && [] + fields == fields;
      PrefixWords(fields, s);
      if s == Joined(fields) {
        JoinedTokenises(fields, s, 0, []);
      }
    } else {
      WordsAreAll(s, 0, []);
    }
  }
}
