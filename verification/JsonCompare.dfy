/** `cJSON_Compare`, case-sensitive, on two separate trees, and what it decides. */
module JsonCompare {
  import opened Wrappers
  import opened Bytes
  import opened Json

  const TWO_52: int := 0x10_0000_0000_0000

  function Abs(d: real): real {
    if d < 0.0 then -d else d
  }

  /** `compare_double`: equal up to a relative error of one DBL_EPSILON. */
  predicate CompareDouble(a: real, b: real) {
    var largest := if Abs(a) > Abs(b) then Abs(a) else Abs(b);
    Abs(a - b) <= largest / TWO_52 as real
  }

  /** Two numbers compare equal exactly if they differ by at most the 2^52nd part of one of them. */
  lemma CompareDoubleIff(a: real, b: real)
    ensures CompareDouble(a, b) <==>
              var apart := if a > b then a - b else b - a;
              || apart * 0x10_0000_0000_0000 as real <= (if a < 0.0 then -a else a)
              || apart * 0x10_0000_0000_0000 as real <= (if b < 0.0 then -b else b)
  {
  }

  /** `get_object_item`: the value of the first member with that key. */
  function FindKey(members: seq<Member>, key: cstring): (r: Option<Json>) {
    if members == [] then None
    else if members[0].key == key then Some(members[0].value)
    else FindKey(members[1..], key)
  }

  lemma {:induction false} FoundIsSmaller(members: seq<Member>, key: cstring)
    requires FindKey(members, key).Some?
    ensures Nodes(FindKey(members, key).value) <= MembersNodes(members)
  {
    if members[0].key != key {
      FoundIsSmaller(members[1..], key);
    }
  }

  predicate Compare(a: Json, b: Json)
    decreases Nodes(a) + Nodes(b), 0
  {
    match a
    case Number(d) => b.Number? && CompareDouble(d, b.value)
    case String(s) => b.String? && s == b.s
    case Array(items) => b.Array? && CompareItems(items, b.items)
    case Object(members) =>
      b.Object? && CompareMembers(members, b.members) && CompareMembers(b.members, members)
    case _ => a == b
  }

  predicate CompareItems(xs: seq<Json>, ys: seq<Json>)
    decreases ItemsNodes(xs) + ItemsNodes(ys), 1
  {
    if xs == [] || ys == [] then xs == [] && ys == []
    else Compare(xs[0], ys[0]) && CompareItems(xs[1..], ys[1..])
  }

  /** Every one of these members compares equal to the first one of that key among the others. */
  predicate CompareMembers(members: seq<Member>, others: seq<Member>)
    decreases MembersNodes(members) + MembersNodes(others), 1
  {
    if members == [] then true
    else
      match FindKey(others, members[0].key)
      case None => false
      case Some(other) =>
        FoundIsSmaller(others, members[0].key);
        Compare(members[0].value, other) && CompareMembers(members[1..], others)
  }

  // ---------- the methods

  method GetObjectItem(members: seq<Member>, key: cstring) returns (r: Option<Json>)
    ensures r == FindKey(members, key)
  {
    var i := 0;
    while i < |members| && members[i].key != key
      invariant i <= |members| && FindKey(members[i..], key) == FindKey(members, key)
    {
      i := i + 1;
    }
    r := if i == |members| then None else Some(members[i].value);
  }

  method CompareItem(a: Json, b: Json) returns (equal: bool)
    ensures equal == Compare(a, b)
    decreases Nodes(a) + Nodes(b), 0
  {
    match a {
      case Number(d) =>
        equal := b.Number? && CompareDouble(d, b.value);
      case String(s) =>
        equal := b.String? && s == b.s;
      case Array(items) =>
        if !b.Array? {
          return false;
        }
        var xs, ys := items, b.items;
        while xs != [] && ys != []
          invariant CompareItems(xs, ys) == CompareItems(items, b.items)
          invariant ItemsNodes(xs) + ItemsNodes(ys) <= ItemsNodes(items) + ItemsNodes(b.items)
          decreases |xs|
        {
          var same := CompareItem(xs[0], ys[0]);
          if !same {
            return false;
          }
          xs, ys := xs[1..], ys[1..];
        }
        equal := xs == [] && ys == [];
      case Object(members) =>
        if !b.Object? {
          return false;
        }
        equal := CompareAll(members, b.members);
        if equal {
          equal := CompareAll(b.members, members);
        }
      case _ =>
        equal := a == b;
    }
  }

  /** The loop over the members of one object, looking each one up in the other. */
  method CompareAll(members: seq<Member>, others: seq<Member>) returns (equal: bool)
    ensures equal == CompareMembers(members, others)
    decreases MembersNodes(members) + MembersNodes(others), 1
  {
    var rest := members;
    while rest != []
      invariant CompareMembers(rest, others) == CompareMembers(members, others)
      invariant MembersNodes(rest) <= MembersNodes(members)
      decreases |rest|
    {
      var other := GetObjectItem(others, rest[0].key);
      if other.None? {
        return false;
      }
      FoundIsSmaller(others, rest[0].key);
      var same := CompareItem(rest[0].value, other.value);
      if !same {
        return false;
      }
      rest := rest[1..];
    }
    equal := true;
  }

  // ---------- the value a tree stands for

  datatype Value =
    | Nothing
    | Truth(b: bool)
    | Amount(d: real)
    | Chars(s: cstring)
    | List(items: seq<Value>)
    | Table(entries: map<cstring, Value>)

  function Denote(t: Json): Value
    decreases t, 0
  {
    match t
    case Null => Nothing
    case False => Truth(false)
    case True => Truth(true)
    case Number(d) => Amount(d)
    case String(s) => Chars(s)
    case Array(items) => List(DenoteItems(items))
    case Object(members) => Table(DenoteMembers(members))
  }

  function DenoteItems(items: seq<Json>): (r: seq<Value>)
    ensures |r| == |items|
    decreases items, 1
  {
    if items == [] then [] else [Denote(items[0])] + DenoteItems(items[1..])
  }

  /** An object as an unordered map; the first member of a key is the one that counts. */
  function DenoteMembers(members: seq<Member>): map<cstring, Value>
    decreases members, 1
  {
    if members == [] then map[]
    else DenoteMembers(members[1..])[members[0].key := Denote(members[0].value)]
  }

  /** Members that repeat a key stand for the same value as the first one. */
  predicate Consistent(t: Json)
    decreases t, 0
  {
    match t
    case Array(items) => ItemsConsistent(items)
    case Object(members) => MembersConsistent(members, DenoteMembers(members))
    case _ => true
  }

  predicate ItemsConsistent(items: seq<Json>)
    decreases items, 1
  {
    items != [] ==> Consistent(items[0]) && ItemsConsistent(items[1..])
  }

  predicate MembersConsistent(members: seq<Member>, entries: map<cstring, Value>)
    decreases members, 1
  {
    members != [] ==>
      && Consistent(members[0].value)
      && members[0].key in entries && entries[members[0].key] == Denote(members[0].value)
      && MembersConsistent(members[1..], entries)
  }

  /** Every number is an integer below 2^52 in magnitude. */
  predicate SmallInts(t: Json)
    decreases t, 0
  {
    match t
    case Number(d) => d == d.Floor as real && -TWO_52 < d.Floor < TWO_52
    case Array(items) => ItemsSmallInts(items)
    case Object(members) => MembersSmallInts(members)
    case _ => true
  }

  predicate ItemsSmallInts(items: seq<Json>)
    decreases items, 1
  {
    items != [] ==> SmallInts(items[0]) && ItemsSmallInts(items[1..])
  }

  predicate MembersSmallInts(members: seq<Member>)
    decreases members, 1
  {
    members != [] ==> SmallInts(members[0].value) && MembersSmallInts(members[1..])
  }

  // ---------- numbers

  /** Between integers below 2^52 the tolerance never bridges a difference. */
  lemma {:induction false} SmallIntsCompare(a: real, b: real)
    requires a == a.Floor as real && -TWO_52 < a.Floor < TWO_52
    requires b == b.Floor as real && -TWO_52 < b.Floor < TWO_52
    ensures CompareDouble(a, b) <==> a == b
  {
    var largest := if Abs(a) > Abs(b) then Abs(a) else Abs(b);
    assert largest < TWO_52 as real;
    assert largest / TWO_52 as real < 1.0;
    if a != b {
      var difference := a.Floor - b.Floor;
      assert a - b == difference as real;
      assert Abs(a - b) >= 1.0;
    } else {
      assert Abs(a - b) == 0.0;
      assert largest / TWO_52 as real >= 0.0;
    }
  }

  /** At 2^52 it does. */
  lemma LargeIntsBlur()
    ensures CompareDouble(TWO_52 as real, (TWO_52 - 1) as real)
  {
  }

  // ---------- the theorem

  lemma {:induction false} FindDenotes(members: seq<Member>, key: cstring)
    ensures FindKey(members, key).Some? <==> key in DenoteMembers(members)
    ensures FindKey(members, key).Some? ==> Denote(FindKey(members, key).value) == DenoteMembers(members)[key]
  {
    if members != [] && members[0].key != key {
      FindDenotes(members[1..], key);
    }
  }

  lemma {:induction false} FoundIsConsistent(members: seq<Member>, key: cstring, entries: map<cstring, Value>)
    requires FindKey(members, key).Some? && MembersConsistent(members, entries)
    ensures Consistent(FindKey(members, key).value)
  {
    if members[0].key != key {
      FoundIsConsistent(members[1..], key, entries);
    }
  }

  lemma {:induction false} FoundIsSmallInts(members: seq<Member>, key: cstring)
    requires FindKey(members, key).Some? && MembersSmallInts(members)
    ensures SmallInts(FindKey(members, key).value)
  {
    if members[0].key != key {
      FoundIsSmallInts(members[1..], key);
    }
  }

  /** Consistent trees that stand for the same value compare equal, whatever their numbers. */
  lemma {:induction false} SameCompare(a: Json, b: Json)
    requires Denote(a) == Denote(b) && Consistent(a) && Consistent(b)
    ensures Compare(a, b)
    decreases Nodes(a) + Nodes(b), 0
  {
    if a.Array? && b.Array? {
      SameItemsCompare(a.items, b.items);
    } else if a.Object? && b.Object? {
      SameMembersCompare(a.members, b.members);
      SameMembersCompare(b.members, a.members);
    }
  }

  lemma {:induction false} SameItemsCompare(xs: seq<Json>, ys: seq<Json>)
    requires DenoteItems(xs) == DenoteItems(ys) && ItemsConsistent(xs) && ItemsConsistent(ys)
    ensures CompareItems(xs, ys)
    decreases ItemsNodes(xs) + ItemsNodes(ys), 1
  {
    if xs != [] && ys != [] {
      HeadAndRest(xs);
      HeadAndRest(ys);
      SameCompare(xs[0], ys[0]);
      SameItemsCompare(xs[1..], ys[1..]);
    }
  }

  lemma HeadAndRest(items: seq<Json>)
    requires items != []
    ensures DenoteItems(items)[0] == Denote(items[0]) && DenoteItems(items)[1..] == DenoteItems(items[1..])
  {
  }

  lemma {:induction false} SameMembersCompare(xs: seq<Member>, ys: seq<Member>)
    requires MembersConsistent(xs, DenoteMembers(ys)) && MembersConsistent(ys, DenoteMembers(ys))
    ensures CompareMembers(xs, ys)
    decreases MembersNodes(xs) + MembersNodes(ys), 1
  {
    if xs != [] {
      FindDenotes(ys, xs[0].key);
      FoundIsSmaller(ys, xs[0].key);
      FoundIsConsistent(ys, xs[0].key, DenoteMembers(ys));
      SameCompare(xs[0].value, FindKey(ys, xs[0].key).value);
      SameMembersCompare(xs[1..], ys);
    }
  }

  /** Trees of small integers that compare equal are consistent and stand for the same value. */
  lemma {:induction false} CompareSame(a: Json, b: Json)
    requires SmallInts(a) && SmallInts(b) && Compare(a, b)
    ensures Denote(a) == Denote(b) && Consistent(a) && Consistent(b)
    decreases Nodes(a) + Nodes(b), 0
  {
    if a.Number? {
      SmallIntsCompare(a.value, b.value);
    } else if a.Array? {
      CompareSameItems(a.items, b.items);
    } else if a.Object? {
      CompareSameMembers(a.members, b.members);
      CompareSameMembers(b.members, a.members);
      SameEntries(a.members, b.members);
    }
  }

  lemma {:induction false} CompareSameItems(xs: seq<Json>, ys: seq<Json>)
    requires ItemsSmallInts(xs) && ItemsSmallInts(ys) && CompareItems(xs, ys)
    ensures DenoteItems(xs) == DenoteItems(ys) && ItemsConsistent(xs) && ItemsConsistent(ys)
    decreases ItemsNodes(xs) + ItemsNodes(ys), 1
  {
    if xs != [] {
      CompareSame(xs[0], ys[0]);
      CompareSameItems(xs[1..], ys[1..]);
    }
  }

  lemma {:induction false} CompareSameMembers(xs: seq<Member>, ys: seq<Member>)
    requires MembersSmallInts(xs) && MembersSmallInts(ys) && CompareMembers(xs, ys)
    ensures MembersConsistent(xs, DenoteMembers(ys))
    decreases MembersNodes(xs) + MembersNodes(ys), 1
  {
    if xs != [] {
      FindDenotes(ys, xs[0].key);
      FoundIsSmaller(ys, xs[0].key);
      FoundIsSmallInts(ys, xs[0].key);
      CompareSame(xs[0].value, FindKey(ys, xs[0].key).value);
      CompareSameMembers(xs[1..], ys);
    }
  }

  /** Members that all agree with a map denote a part of it. */
  lemma {:induction false} ConsistentIsSubmap(members: seq<Member>, entries: map<cstring, Value>)
    requires MembersConsistent(members, entries)
    ensures forall k :: k in DenoteMembers(members) ==> k in entries && entries[k] == DenoteMembers(members)[k]
  {
    if members != [] {
      ConsistentIsSubmap(members[1..], entries);
    }
  }

  lemma SameEntries(xs: seq<Member>, ys: seq<Member>)
    requires MembersConsistent(xs, DenoteMembers(ys)) && MembersConsistent(ys, DenoteMembers(xs))
    ensures DenoteMembers(xs) == DenoteMembers(ys)
  {
    ConsistentIsSubmap(xs, DenoteMembers(ys));
    ConsistentIsSubmap(ys, DenoteMembers(xs));
  }

  /**
   The comparison of trees of small integers holds exactly when they stand for the same value
   and neither repeats a key with another value.
   */
  lemma {:induction false} CompareDecides(a: Json, b: Json)
    requires SmallInts(a) && SmallInts(b)
    ensures Compare(a, b) <==> Denote(a) == Denote(b) && Consistent(a) && Consistent(b)
  {
    if Compare(a, b) {
      CompareSame(a, b);
    } else if Denote(a) == Denote(b) && Consistent(a) && Consistent(b) {
      SameCompare(a, b);
    }
  }

  // ---------- consequences

  predicate DistinctKeys(t: Json)
    decreases t, 0
  {
    match t
    case Array(items) => ItemsDistinctKeys(items)
    case Object(members) => MembersDistinctKeys(members)
    case _ => true
  }

  predicate ItemsDistinctKeys(items: seq<Json>)
    decreases items, 1
  {
    items != [] ==> DistinctKeys(items[0]) && ItemsDistinctKeys(items[1..])
  }

  predicate MembersDistinctKeys(members: seq<Member>)
    decreases members, 1
  {
    members != [] ==>
      && DistinctKeys(members[0].value) && FindKey(members[1..], members[0].key).None?
      && MembersDistinctKeys(members[1..])
  }

  lemma {:induction false} DistinctIsConsistent(t: Json)
    requires DistinctKeys(t)
    ensures Consistent(t)
    decreases t, 0
  {
    match t
    case Array(items) => DistinctItemsAreConsistent(items);
    case Object(members) => DistinctMembersAreConsistent(members, DenoteMembers(members));
    case _ =>
  }

  lemma {:induction false} DistinctItemsAreConsistent(items: seq<Json>)
    requires ItemsDistinctKeys(items)
    ensures ItemsConsistent(items)
    decreases items, 1
  {
    if items != [] {
      DistinctIsConsistent(items[0]);
      DistinctItemsAreConsistent(items[1..]);
    }
  }

  lemma {:induction false} DistinctMembersAreConsistent(members: seq<Member>, entries: map<cstring, Value>)
    requires MembersDistinctKeys(members)
    requires forall k :: k in DenoteMembers(members) ==> k in entries && entries[k] == DenoteMembers(members)[k]
    ensures MembersConsistent(members, entries)
    decreases members, 1
  {
    if members != [] {
      DistinctIsConsistent(members[0].value);
      FindDenotes(members[1..], members[0].key);
      assert members[0].key in DenoteMembers(members);
      DistinctMembersAreConsistent(members[1..], entries);
    }
  }

  /** For trees with distinct keys the comparison is equality of values, objects taken as unordered maps. */
  lemma CompareIsEquality(a: Json, b: Json)
    requires SmallInts(a) && SmallInts(b) && DistinctKeys(a) && DistinctKeys(b)
    ensures Compare(a, b) <==> Denote(a) == Denote(b)
  {
    DistinctIsConsistent(a);
    DistinctIsConsistent(b);
    CompareDecides(a, b);
  }

  /** A tree with distinct keys compares equal to a copy of itself. */
  lemma CopyComparesEqual(t: Json)
    requires DistinctKeys(t)
    ensures Compare(t, t)
  {
    DistinctIsConsistent(t);
    SameCompare(t, t);
  }

  /** With a repeated key a tree need not even compare equal to a copy of itself. */
  lemma DuplicateKeysCompareUnequal()
    ensures var t := Object([Member([], Null), Member([], True)]); !Compare(t, t) && SmallInts(t)
  {
    var t := Object([Member([], Null), Member([], True)]);
    CompareDecides(t, t);
    assert t.members[1..][0].value == True;
  }
}
