/**
 What the parser does at a position of a buffer that shows a text: single steps, whatever the text is,
 from which the readings of whole values are put together.
 */
module JsonSteps {
  import opened Wrappers
  import opened Bytes
  import opened Sequences
  import opened Json
  import opened JsonReading
  import opened Utf16

  // ---------- texts at a position

  /** A name for the bytes of a text, so that a proof only looks at those that it mentions. */
  function ByteOf(a: bytes, i: nat): byte
    requires i < |a|
  {
    a[i]
  }

  /** The buffer shows these bytes from position `p` on. */
  ghost predicate Shows(s: bytes, p: nat, a: bytes) {
    p + |a| <= |s| && forall i: nat {:trigger ByteOf(a, i)} :: i < |a| ==> s[p + i] == ByteOf(a, i)
  }

  lemma {:induction false} ShowsItself(r: bytes)
    ensures Shows(r, 0, r)
  {
  }

  ghost predicate EndsWith(r: bytes, i: nat, a: bytes) {
    Shows(r, i, a) && i + |a| == |r|
  }

  lemma {:induction false} SplitWord(s: bytes, p: nat, a: bytes, b: bytes)
    requires Shows(s, p, a + b)
    ensures Shows(s, p, a) && Shows(s, p + |a|, b)
  {
    forall i: nat | i < |a| ensures s[p + i] == ByteOf(a, i) {
      assert ByteOf(a + b, i) == a[i];
    }
    forall i: nat | i < |b| ensures s[p + |a| + i] == ByteOf(b, i) {
      assert ByteOf(a + b, |a| + i) == b[i];
    }
  }

  lemma {:induction false} SplitThree(s: bytes, w: nat, a: bytes, b: bytes, c: bytes)
    requires Shows(s, w, (a + b) + c)
    ensures Shows(s, w, a) && Shows(s, w + |a|, b) && Shows(s, w + |a| + |b|, c)
  {
    SplitWord(s, w, a + b, c);
    SplitWord(s, w, a, b);
  }

  lemma {:induction false} WordAt(s: bytes, p: nat, a: bytes, i: nat)
    requires Shows(s, p, a) && i < |a|
    ensures p + |a| <= |s| && s[p + i] == a[i]
  {
    assert ByteOf(a, i) == a[i];
  }

  lemma {:induction false} WordShows(s: bytes, p: nat, a: bytes)
    ensures Shows(s, p, a) <==> HasWord(s, p, a)
  {
    if Shows(s, p, a) {
      forall i | 0 <= i < |a| ensures s[p + i] == a[i] {
        WordAt(s, p, a, i);
      }
    }
  }

  /** Showing a text is having it as a slice. */
  lemma {:induction false} ShowsIff(s: bytes, p: nat, a: bytes)
    ensures Shows(s, p, a) <==> p + |a| <= |s| && s[p..p + |a|] == a
  {
    if p + |a| <= |s| && s[p..p + |a|] == a {
      forall i: nat | i < |a| ensures s[p + i] == ByteOf(a, i) {
        assert s[p..p + |a|][i] == s[p + i];
      }
    } else if Shows(s, p, a) {
      forall i | 0 <= i < |a| ensures s[p..p + |a|][i] == a[i] {
        WordAt(s, p, a, i);
      }
    }
  }

  /** Only white space from `p` to `q`. */
  ghost predicate Blank(s: bytes, p: nat, q: nat) {
    p <= q <= |s| && forall i :: p <= i < q ==> s[i] <= 32
  }

  lemma {:induction false} BlankRun(s: bytes, p: nat, q: nat)
    requires Blank(s, p, q) && q < |s| && s[q] > 32
    ensures Skip(s, p) == q
  {
    NextAfterBlanks(s, p, q);
  }

  lemma {:induction false} NextAfterBlanks(s: bytes, p: nat, q: nat)
    requires Blank(s, p, q) && q < |s| && s[q] > 32
    ensures NextNonBlank(s, p) == q
    decreases q - p
  {
    if p < q {
      NextAfterBlanks(s, p + 1, q);
    }
  }

  lemma {:induction false} AllBlank(s: bytes, p: nat)
    requires Blank(s, p, |s|)
    ensures NextNonBlank(s, p) == |s|
    decreases |s| - p
  {
    if p < |s| {
      AllBlank(s, p + 1);
    }
  }

  /** A byte that cannot continue a number. */
  ghost predicate Ends(s: bytes, p: nat) {
    p < |s| && !IsNumberByte(s[p])
  }

  lemma {:induction false} BlankEnds(s: bytes, p: nat, q: nat)
    requires Blank(s, p, q) && Ends(s, q)
    ensures Ends(s, p)
  {
  }

  // ---------- strings and numbers

  lemma {:induction false} OneTurn(s: bytes, i: nat, end: nat, done: bytes, output: bytes, next: nat)
    requires i < end < |s| && i < next && Chunk(s, i, end) == Some(Piece(next - i, output))
    ensures next <= end + 1 && Unescape(s, i, end, done) == Unescape(s, next, end, done + output)
  {
  }

  lemma {:induction false} StringAt(s: bytes, p: nat, end: nat, out: bytes)
    requires LooksAt(s, p, QUOTE) && p < end < |s| && ScanEnd(s, p + 1) == Some(end)
    requires Unescape(s, p + 1, end, []) == Some(out)
    ensures ReadString(s, p) == Some(Read(CString(out), end + 1))
  {
  }

  lemma {:induction false} RunEndAt(s: bytes, p: nat, q: nat)
    requires p <= q < |s| && !IsNumberByte(s[q]) && forall i :: p <= i < q ==> IsNumberByte(s[i])
    ensures RunEnd(s, p) == q
    decreases q - p
  {
    if p < q {
      RunEndAt(s, p + 1, q);
    }
  }

  lemma {:induction false} NumberAt(s: bytes, p: nat, text: bytes, v: real)
    requires p + |text| <= |s| && s[p..p + |text|] == text && text != [] && RunEnd(s, p) == p + |text|
    requires Strtod(text) == Read(v, |text|)
    ensures ReadNumber(s, p) == Some(Read(Number(v), p + |text|))
  {
  }

  // ---------- values and arrays

  /** The bytes that a value can start with. */
  predicate Starts(c: byte) {
    c == 0x6E || c == 0x66 || c == 0x74 || c == QUOTE || c == MINUS || IsDigit(c)
    || c == OPEN_BRACKET || c == OPEN_BRACE
  }

  lemma {:induction false} NotAWord(s: bytes, p: nat, word: bytes)
    requires p < |s| && |word| > 0 && s[p] != word[0]
    ensures !HasWord(s, p, word)
  {
    assert word[0] == word[0];
  }

  lemma {:induction false} NoWord(s: bytes, p: nat)
    requires p < |s| && s[p] != 0x6E && s[p] != 0x66 && s[p] != 0x74
    ensures !HasWord(s, p, NULL_TEXT) && !HasWord(s, p, FALSE_TEXT) && !HasWord(s, p, TRUE_TEXT)
  {
    NotAWord(s, p, NULL_TEXT);
    NotAWord(s, p, FALSE_TEXT);
    NotAWord(s, p, TRUE_TEXT);
  }

  lemma {:induction false} ItemAt(s: bytes, p: nat, depth: nat, q: nat, v: Json, after: nat, close: nat)
    requires p <= q <= |s| && Skip(s, p) == q && ReadValue(s, q, depth) == Some(Read(v, after))
    requires after <= |s| && Skip(s, after) == close
    ensures ItemGives(s, p, depth, v, close)
  {
  }

  ghost predicate ItemsGive(s: bytes, p: nat, depth: nat, done: seq<Json>, all: seq<Json>, next: nat) {
    p <= |s| && ReadItems(s, p, depth, done) == Some(Read(all, next))
  }

  ghost predicate ItemGives(s: bytes, p: nat, depth: nat, v: Json, next: nat) {
    p <= |s| && ReadItem(s, p, depth) == Some(Read(v, next))
  }

  lemma {:induction false} ItemsStep(s: bytes, p: nat, depth: nat, done: seq<Json>, v: Json,
                                     after: nat, all: seq<Json>, next: nat)
    requires ItemGives(s, p, depth, v, after) && LooksAt(s, after, COMMA)
    ensures ItemsGive(s, after + 1, depth, done + [v], all, next) ==> ItemsGive(s, p, depth, done, all, next)
  {
  }

  lemma {:induction false} ItemsStop(s: bytes, p: nat, depth: nat, done: seq<Json>, v: Json, after: nat)
    requires ItemGives(s, p, depth, v, after) && LooksAt(s, after, CLOSE_BRACKET)
    ensures ItemsGive(s, p, depth, done, done + [v], after + 1)
  {
  }

  /** Reading these elements one after the other leads from `p` to the bracket at `close`. */
  ghost predicate ItemsLead(s: bytes, p: nat, depth: nat, items: seq<Json>, close: nat)
    decreases |items|
  {
    && items != []
    && exists after: nat :: FirstItemLeads(s, p, depth, items, after)
         && if |items| == 1 then after == close && LooksAt(s, close, CLOSE_BRACKET)
            else LooksAt(s, after, COMMA) && ItemsLead(s, after + 1, depth, items[1..], close)
  }

  ghost predicate FirstItemLeads(s: bytes, p: nat, depth: nat, items: seq<Json>, after: nat)
    requires items != []
  {
    ItemGives(s, p, depth, items[0], after)
  }

  lemma {:induction false} OneItemLeads(s: bytes, p: nat, depth: nat, items: seq<Json>, close: nat)
    requires |items| == 1 && FirstItemLeads(s, p, depth, items, close) && LooksAt(s, close, CLOSE_BRACKET)
    ensures ItemsLead(s, p, depth, items, close)
  {
  }

  lemma {:induction false} MoreItemsLead(s: bytes, p: nat, depth: nat, items: seq<Json>, after: nat, close: nat)
    requires |items| > 1 && FirstItemLeads(s, p, depth, items, after) && LooksAt(s, after, COMMA)
    ensures ItemsLead(s, after + 1, depth, items[1..], close) ==> ItemsLead(s, p, depth, items, close)
  {
  }

  lemma {:induction false} ItemsLeadStep(s: bytes, p: nat, depth: nat, items: seq<Json>, close: nat)
    returns (after: nat)
    requires ItemsLead(s, p, depth, items, close)
    ensures items != [] && ItemGives(s, p, depth, items[0], after)
    ensures if |items| == 1 then after == close && LooksAt(s, close, CLOSE_BRACKET)
            else LooksAt(s, after, COMMA) && ItemsLead(s, after + 1, depth, items[1..], close)
  {
    after :| FirstItemLeads(s, p, depth, items, after)
             && if |items| == 1 then after == close && LooksAt(s, close, CLOSE_BRACKET)
                else LooksAt(s, after, COMMA) && ItemsLead(s, after + 1, depth, items[1..], close);
  }

  lemma {:induction false} ItemsLeadRead(s: bytes, p: nat, depth: nat, items: seq<Json>, close: nat, done: seq<Json>,
                                         all: seq<Json>)
    requires ItemsLead(s, p, depth, items, close) && Joins(done, items, all)
    ensures ItemsGive(s, p, depth, done, all, close + 1)
    decreases |items|
  {
    var after := ItemsLeadStep(s, p, depth, items, close);
    if |items| > 1 {
      ItemsStep(s, p, depth, done, items[0], after, all, close + 1);
      ItemsLeadRead(s, after + 1, depth, items[1..], close, done + [items[0]], all);
    } else {
      ItemsStop(s, p, depth, done, items[0], close);
    }
  }

  /** Between the brackets of an array at `p` and `close`: white space, then its elements if it has any. */
  ghost predicate ArrayLeads(s: bytes, p: nat, depth: nat, first: nat, items: seq<Json>, close: nat) {
    && p < first && Blank(s, p + 1, first)
    && if items == [] then first == close && LooksAt(s, close, CLOSE_BRACKET)
       else first < |s| && Starts(s[first]) && ItemsLead(s, first, depth, items, close)
  }

  lemma {:induction false} ListFrom(s: bytes, p: nat, depth: nat, first: nat, items: seq<Json>, close: nat)
    requires p < first < |s| && Blank(s, p + 1, first) && items != [] && Starts(s[first])
    ensures ItemsLead(s, first, depth, items, close) ==> ArrayLeads(s, p, depth, first, items, close)
  {
  }

  lemma {:induction false} ArrayFrom(s: bytes, p: nat, depth: nat, first: nat, items: seq<Json>, close: nat)
    requires depth < NESTING_LIMIT && ArrayLeads(s, p, depth + 1, first, items, close)
    ensures p < |s| && ReadArray(s, p, depth) == Some(Read(Array(items), close + 1))
  {
    BlankRun(s, p + 1, first);
    if items != [] {
      JoinsSelf(items);
      ItemsLeadRead(s, first, depth + 1, items, close, [], items);
    }
  }

  lemma {:induction false} ArrayValue(s: bytes, p: nat, depth: nat, first: nat, items: seq<Json>, next: nat)
    requires LooksAt(s, p, OPEN_BRACKET) && depth < NESTING_LIMIT && next > 0
    requires ArrayLeads(s, p, depth + 1, first, items, next - 1)
    ensures ReadValue(s, p, depth) == Some(Read(Array(items), next))
  {
    NoWord(s, p);
    ArrayFrom(s, p, depth, first, items, next - 1);
  }

  // ---------- objects

  lemma {:induction false} MembersStep(s: bytes, p: nat, depth: nat, done: seq<Member>, m: Member,
                                       after: nat, all: seq<Member>, next: nat)
    requires MemberGives(s, p, depth, m, after) && LooksAt(s, after, COMMA)
    ensures MembersGive(s, after + 1, depth, done + [m], all, next) ==> MembersGive(s, p, depth, done, all, next)
  {
  }

  lemma {:induction false} MembersStop(s: bytes, p: nat, depth: nat, done: seq<Member>, m: Member, after: nat)
    requires MemberGives(s, p, depth, m, after) && LooksAt(s, after, CLOSE_BRACE)
    ensures MembersGive(s, p, depth, done, done + [m], after + 1)
  {
  }

  ghost predicate MembersGive(s: bytes, p: nat, depth: nat, done: seq<Member>, all: seq<Member>, next: nat) {
    p <= |s| && ReadMembers(s, p, depth, done) == Some(Read(all, next))
  }

  ghost predicate MemberGives(s: bytes, p: nat, depth: nat, m: Member, next: nat) {
    p <= |s| && ReadMember(s, p, depth) == Some(Read(m, next))
  }

  /** Reading these members one after the other leads from `p` to the brace at `close`. */
  ghost predicate MembersLead(s: bytes, p: nat, depth: nat, members: seq<Member>, close: nat)
    decreases |members|
  {
    && members != []
    && exists after: nat :: FirstLeads(s, p, depth, members, after)
         && if |members| == 1 then after == close && LooksAt(s, close, CLOSE_BRACE)
            else LooksAt(s, after, COMMA) && MembersLead(s, after + 1, depth, members[1..], close)
  }

  ghost predicate FirstLeads(s: bytes, p: nat, depth: nat, members: seq<Member>, after: nat)
    requires members != []
  {
    MemberGives(s, p, depth, members[0], after)
  }

  lemma {:induction false} OneLeads(s: bytes, p: nat, depth: nat, members: seq<Member>, close: nat)
    requires |members| == 1 && FirstLeads(s, p, depth, members, close) && LooksAt(s, close, CLOSE_BRACE)
    ensures MembersLead(s, p, depth, members, close)
  {
  }

  lemma {:induction false} MoreLead(s: bytes, p: nat, depth: nat, members: seq<Member>, after: nat, close: nat)
    requires |members| > 1 && FirstLeads(s, p, depth, members, after) && LooksAt(s, after, COMMA)
    ensures MembersLead(s, after + 1, depth, members[1..], close) ==> MembersLead(s, p, depth, members, close)
  {
  }

  lemma {:induction false} LeadStep(s: bytes, p: nat, depth: nat, members: seq<Member>, close: nat) returns (after: nat)
    requires MembersLead(s, p, depth, members, close)
    ensures members != [] && MemberGives(s, p, depth, members[0], after)
    ensures if |members| == 1 then after == close && LooksAt(s, close, CLOSE_BRACE)
            else LooksAt(s, after, COMMA) && MembersLead(s, after + 1, depth, members[1..], close)
  {
    after :| FirstLeads(s, p, depth, members, after)
             && if |members| == 1 then after == close && LooksAt(s, close, CLOSE_BRACE)
                else LooksAt(s, after, COMMA) && MembersLead(s, after + 1, depth, members[1..], close);
  }

  lemma {:induction false} LeadReads(s: bytes, p: nat, depth: nat, members: seq<Member>, close: nat, done: seq<Member>,
                                     all: seq<Member>)
    requires MembersLead(s, p, depth, members, close) && Joins(done, members, all)
    ensures MembersGive(s, p, depth, done, all, close + 1)
    decreases |members|
  {
    var after := LeadStep(s, p, depth, members, close);
    if |members| > 1 {
      MembersStep(s, p, depth, done, members[0], after, all, close + 1);
      LeadReads(s, after + 1, depth, members[1..], close, done + [members[0]], all);
    } else {
      MembersStop(s, p, depth, done, members[0], close);
    }
  }

  /** Between the braces of an object at `p` and `close`: white space, then its members if it has any. */
  ghost predicate ObjectLeads(s: bytes, p: nat, depth: nat, first: nat, members: seq<Member>, close: nat) {
    && p < first && Blank(s, p + 1, first)
    && if members == [] then first == close && LooksAt(s, close, CLOSE_BRACE)
       else LooksAt(s, first, QUOTE) && MembersLead(s, first, depth, members, close)
  }

  lemma {:induction false} RecordFrom(s: bytes, p: nat, depth: nat, first: nat, members: seq<Member>, close: nat)
    requires p < first && Blank(s, p + 1, first) && members != [] && LooksAt(s, first, QUOTE)
    ensures MembersLead(s, first, depth, members, close) ==> ObjectLeads(s, p, depth, first, members, close)
  {
  }

  lemma {:induction false} ObjectFrom(s: bytes, p: nat, depth: nat, first: nat, members: seq<Member>, close: nat)
    requires depth < NESTING_LIMIT && ObjectLeads(s, p, depth + 1, first, members, close)
    ensures p < |s| && ReadObject(s, p, depth) == Some(Read(Object(members), close + 1))
  {
    BlankRun(s, p + 1, first);
    if members != [] {
      JoinsSelf(members);
      LeadReads(s, first, depth + 1, members, close, [], members);
    }
  }

  lemma {:induction false} ObjectValue(s: bytes, p: nat, depth: nat, first: nat, members: seq<Member>, next: nat)
    requires LooksAt(s, p, OPEN_BRACE) && depth < NESTING_LIMIT && next > 0
    requires ObjectLeads(s, p, depth + 1, first, members, next - 1)
    ensures ReadValue(s, p, depth) == Some(Read(Object(members), next))
  {
    NoWord(s, p);
    ObjectFrom(s, p, depth, first, members, next - 1);
  }

  lemma {:induction false} KeyFrom(s: bytes, p: nat, name: nat, key: cstring, end: nat, colon: nat)
    requires Blank(s, p, name) && LooksAt(s, name, QUOTE) && ReadString(s, name) == Some(Read(key, end))
    requires Blank(s, end, colon) && LooksAt(s, colon, COLON)
    ensures ReadKey(s, p) == Some(Read(key, colon + 1))
  {
    BlankRun(s, p, name);
    BlankRun(s, end, colon);
    KeyBefore(s, p, name, key, end, colon);
  }

  lemma {:induction false} KeyBefore(s: bytes, p: nat, name: nat, key: cstring, end: nat, colon: nat)
    requires p <= name < end <= |s| && Skip(s, p) == name && ReadString(s, name) == Some(Read(key, end))
    requires Skip(s, end) == colon && LooksAt(s, colon, COLON)
    ensures ReadKey(s, p) == Some(Read(key, colon + 1))
  {
  }

  lemma {:induction false} MemberAt(s: bytes, p: nat, depth: nat, key: cstring, middle: nat, v: Json, close: nat)
    requires p <= middle <= |s| && ReadKey(s, p) == Some(Read(key, middle))
    requires ItemGives(s, middle, depth, v, close)
    ensures MemberGives(s, p, depth, Member(key, v), close)
  {
  }

  // ---------- failures

  /** Reading goes through `k` items, each with a comma behind it, and the next one cannot be read. */
  ghost predicate ItemsStick(s: bytes, p: nat, depth: nat, k: nat)
    decreases k
  {
    if k == 0 then NoItem(s, p, depth)
    else exists after: nat :: ItemPasses(s, p, depth, after) && ItemsStick(s, after + 1, depth, k - 1)
  }

  ghost predicate ItemsFail(s: bytes, p: nat, depth: nat) {
    exists k: nat :: ItemsStick(s, p, depth, k)
  }

  lemma {:induction false} FirstItemFails(s: bytes, p: nat, depth: nat)
    requires NoItem(s, p, depth)
    ensures ItemsFail(s, p, depth)
  {
    assert ItemsStick(s, p, depth, 0);
  }

  ghost predicate NoItem(s: bytes, p: nat, depth: nat) {
    p <= |s| && ReadItem(s, p, depth).None?
  }

  ghost predicate ItemPasses(s: bytes, p: nat, depth: nat, after: nat) {
    LooksAt(s, after, COMMA) && p <= |s| && ReadItem(s, p, depth).Some? && ReadItem(s, p, depth).value.next == after
  }

  lemma {:induction false} ItemFails(s: bytes, p: nat, depth: nat, q: nat)
    requires p <= q <= |s| && Skip(s, p) == q && ReadValue(s, q, depth).None?
    ensures NoItem(s, p, depth)
  {
  }

  lemma {:induction false} LaterItemFails(s: bytes, p: nat, depth: nat, v: Json, after: nat)
    requires ItemGives(s, p, depth, v, after) && LooksAt(s, after, COMMA)
    ensures ItemsFail(s, after + 1, depth) ==> ItemsFail(s, p, depth)
  {
    if ItemsFail(s, after + 1, depth) {
      var k: nat :| ItemsStick(s, after + 1, depth, k);
      assert ItemPasses(s, p, depth, after);
      assert ItemsStick(s, p, depth, k + 1);
    }
  }

  ghost predicate ItemsLost(s: bytes, p: nat, depth: nat) {
    p <= |s| && forall done: seq<Json> :: ReadItems(s, p, depth, done).None?
  }

  lemma {:induction false} ItemMissing(s: bytes, p: nat, depth: nat)
    requires NoItem(s, p, depth)
    ensures ItemsLost(s, p, depth)
  {
  }

  lemma {:induction false} ItemPassed(s: bytes, p: nat, depth: nat, after: nat)
    requires ItemPasses(s, p, depth, after) && ItemsLost(s, after + 1, depth)
    ensures ItemsLost(s, p, depth)
  {
    forall done: seq<Json> ensures ReadItems(s, p, depth, done).None? {
      var list := done + [ReadItem(s, p, depth).value.value];
      assert ReadItems(s, after + 1, depth, list).None?;
    }
  }

  lemma {:induction false} ItemsStickStep(s: bytes, p: nat, depth: nat, k: nat) returns (after: nat)
    requires k > 0 && ItemsStick(s, p, depth, k)
    ensures ItemPasses(s, p, depth, after) && ItemsStick(s, after + 1, depth, k - 1)
  {
    after :| ItemPasses(s, p, depth, after) && ItemsStick(s, after + 1, depth, k - 1);
  }

  lemma {:induction false} StuckItems(s: bytes, p: nat, depth: nat, k: nat)
    requires ItemsStick(s, p, depth, k)
    ensures ItemsLost(s, p, depth)
    decreases k
  {
    if k == 0 {
      ItemMissing(s, p, depth);
    } else {
      var after := ItemsStickStep(s, p, depth, k);
      StuckItems(s, after + 1, depth, k - 1);
      ItemPassed(s, p, depth, after);
    }
  }

  /** An array too deep, or one whose elements cannot be read. */
  lemma {:induction false} ArrayFails(s: bytes, p: nat, depth: nat, first: nat)
    requires LooksAt(s, p, OPEN_BRACKET)
    requires depth < NESTING_LIMIT ==>
      p < first < |s| && Blank(s, p + 1, first) && Starts(s[first]) && ItemsFail(s, first, depth + 1)
    ensures ReadValue(s, p, depth).None?
  {
    NoWord(s, p);
    if depth < NESTING_LIMIT {
      BlankRun(s, p + 1, first);
      var k: nat :| ItemsStick(s, first, depth + 1, k);
      StuckItems(s, first, depth + 1, k);
      assert ReadItems(s, first, depth + 1, []).None?;
    }
  }

  /** Reading goes through `k` members, each with a comma behind it, and the next one cannot be read. */
  ghost predicate MembersStick(s: bytes, p: nat, depth: nat, k: nat)
    decreases k
  {
    if k == 0 then NoMember(s, p, depth)
    else exists after: nat :: MemberPasses(s, p, depth, after) && MembersStick(s, after + 1, depth, k - 1)
  }

  ghost predicate MembersFail(s: bytes, p: nat, depth: nat) {
    exists k: nat :: MembersStick(s, p, depth, k)
  }

  ghost predicate NoMember(s: bytes, p: nat, depth: nat) {
    p <= |s| && ReadMember(s, p, depth).None?
  }

  ghost predicate MemberPasses(s: bytes, p: nat, depth: nat, after: nat) {
    LooksAt(s, after, COMMA) && p <= |s| && ReadMember(s, p, depth).Some? && ReadMember(s, p, depth).value.next == after
  }

  lemma {:induction false} MemberFails(s: bytes, p: nat, depth: nat, key: cstring, middle: nat)
    requires p <= middle <= |s| && ReadKey(s, p) == Some(Read(key, middle)) && NoItem(s, middle, depth)
    ensures MembersFail(s, p, depth)
  {
    assert MembersStick(s, p, depth, 0);
  }

  lemma {:induction false} LaterMemberFails(s: bytes, p: nat, depth: nat, m: Member, after: nat)
    requires MemberGives(s, p, depth, m, after) && LooksAt(s, after, COMMA)
    ensures MembersFail(s, after + 1, depth) ==> MembersFail(s, p, depth)
  {
    if MembersFail(s, after + 1, depth) {
      var k: nat :| MembersStick(s, after + 1, depth, k);
      assert MemberPasses(s, p, depth, after);
      assert MembersStick(s, p, depth, k + 1);
    }
  }

  ghost predicate MembersLost(s: bytes, p: nat, depth: nat) {
    p <= |s| && forall done: seq<Member> :: ReadMembers(s, p, depth, done).None?
  }

  lemma {:induction false} MemberMissing(s: bytes, p: nat, depth: nat)
    requires NoMember(s, p, depth)
    ensures MembersLost(s, p, depth)
  {
  }

  lemma {:induction false} MemberPassed(s: bytes, p: nat, depth: nat, after: nat)
    requires MemberPasses(s, p, depth, after) && MembersLost(s, after + 1, depth)
    ensures MembersLost(s, p, depth)
  {
    forall done: seq<Member> ensures ReadMembers(s, p, depth, done).None? {
      var list := done + [ReadMember(s, p, depth).value.value];
      assert ReadMembers(s, after + 1, depth, list).None?;
    }
  }

  lemma {:induction false} MembersStickStep(s: bytes, p: nat, depth: nat, k: nat) returns (after: nat)
    requires k > 0 && MembersStick(s, p, depth, k)
    ensures MemberPasses(s, p, depth, after) && MembersStick(s, after + 1, depth, k - 1)
  {
    after :| MemberPasses(s, p, depth, after) && MembersStick(s, after + 1, depth, k - 1);
  }

  lemma {:induction false} StuckMembers(s: bytes, p: nat, depth: nat, k: nat)
    requires MembersStick(s, p, depth, k)
    ensures MembersLost(s, p, depth)
    decreases k
  {
    if k == 0 {
      MemberMissing(s, p, depth);
    } else {
      var after := MembersStickStep(s, p, depth, k);
      StuckMembers(s, after + 1, depth, k - 1);
      MemberPassed(s, p, depth, after);
    }
  }

  lemma {:induction false} ObjectFails(s: bytes, p: nat, depth: nat, first: nat)
    requires LooksAt(s, p, OPEN_BRACE)
    requires depth < NESTING_LIMIT ==>
      p < first && Blank(s, p + 1, first) && LooksAt(s, first, QUOTE) && MembersFail(s, first, depth + 1)
    ensures ReadValue(s, p, depth).None?
  {
    NoWord(s, p);
    if depth < NESTING_LIMIT {
      BlankRun(s, p + 1, first);
      var k: nat :| MembersStick(s, first, depth + 1, k);
      StuckMembers(s, first, depth + 1, k);
      assert ReadMembers(s, first, depth + 1, []).None?;
    }
  }
}
