/**
 The `cJSON` item and its list of children: doubly linked, ended by a null `next`, with the
 tail kept in the `prev` of the head.
 */
module ItemList {
  import opened Wrappers
  import opened Bytes

  /** What an item and everything below it holds, pointers left out. */
  datatype Node = Node(kind: int, valuestring: Option<cstring>, valueint: int, valuedouble: real,
                       name: Option<cstring>, kids: seq<Node>)

  class Item {
    var next: Item?
    var prev: Item?
    var child: Item?
    var kind: int
    var valuestring: Option<cstring>
    var valueint: int
    var valuedouble: real
    var name: Option<cstring>
    ghost var kids: seq<Item>
    // for items seen as the root of a tree: the items below, and what the tree holds
    ghost var below: set<Item>
    ghost var node: Node

    /** `cJSON_New_Item`: everything zero. */
    constructor ()
      ensures next == null && prev == null && child == null && kids == [] && below == {}
      ensures kind == 0 && valuestring == None && valueint == 0 && valuedouble == 0.0 && name == None
    {
      next, prev, child, kids, below := null, null, null, [], {};
      kind, valuestring, valueint, valuedouble, name := 0, None, 0, 0.0, None;
    }

    ghost predicate Valid()
      reads this`child, this`kids, kids`next, kids`prev
    {
      this !in kids && IsList(child, kids)
    }

    /** An item that is in no list. */
    ghost predicate Detached()
      reads this
    {
      next == null && prev == null
    }

    /** `get_array_item` */
    method GetArrayItem(index: nat) returns (r: Item?)
      requires Valid()
      ensures r == if index < |kids| then kids[index] else null
    {
      var i, left := 0, index;
      r := child;
      while r != null && left > 0
        invariant 0 <= i <= |kids| && left == index - i
        invariant r == if i < |kids| then kids[i] else null
        decreases left
      {
        r, left, i := r.next, left - 1, i + 1;
      }
    }

    /** `add_item_to_array` */
    method AddItem(item: Item?) returns (ok: bool)
      requires Valid() && (item != null && item != this ==> item.Detached() && item !in kids)
      modifies this`child, this`kids, Cell(item)`next, Cell(item)`prev, kids`next, kids`prev
      ensures Valid() && ok == (item != null && item != this)
      ensures !ok && item != null ==> unchanged(item)
      ensures kids == if ok then old(kids) + [item] else old(kids)
      ensures forall k <- old(kids) :: k != old(kids)[0] && k != old(kids)[|old(kids)| - 1] ==> unchanged(k)
    {
      if item == null || this == item {
        return false;
      }
      if child == null {
        child := item;
        item.prev := item;
        item.next := null;
      } else if child.prev != null {
        Suffix(child.prev, item);
        child.prev := item;
      }
      kids := kids + [item];
      return true;
    }

    /** `cJSON_DetachItemViaPointer` of one of the children, or of an item that is in no list. */
    method DetachItemViaPointer(item: Item?) returns (r: Item?)
      requires Valid() && (item != null && item !in kids ==> item.Detached())
      modifies this`child, this`kids, kids`next, kids`prev
      ensures Valid() && r == if item in old(kids) then item else null
      ensures item in old(kids) ==>
        && item.Detached() && item !in kids
        && exists i :: 0 <= i < |old(kids)| && old(kids)[i] == item && kids == Removed(old(kids), i)
      ensures item !in old(kids) ==> kids == old(kids)
      ensures forall k <- old(kids) :: k != item && k != old(kids)[0] && old(k.next) != item && old(k.prev) != item ==>
                unchanged(k)
    {
      if item == null {
        return null;
      }
      ghost var at := if item in kids then IndexOf(kids, item) else 0;
      Between(kids, at);
      if item != child && item.prev == null {
        return null;
      }
      Unlink(item, at);
      kids := Removed(kids, at);
      return item;
    }

    /** The pointers of that. */
    method Unlink(item: Item, ghost at: nat)
      requires Valid() && at < |kids| && kids[at] == item
      modifies this`child, kids`next, kids`prev
      ensures IsList(child, Removed(kids, at)) && item !in Removed(kids, at) && item.Detached()
      ensures forall k <- kids :: k != item && k != kids[0] && old(k.next) != item && old(k.prev) != item ==>
                unchanged(k)
    {
      Between(kids, at);
      if item != child {
        item.prev.next := item.next;
      }
      if item.next != null {
        item.next.prev := item.prev;
      }
      if item == child {
        child := item.next;
      } else if item.next == null {
        child.prev := item.prev;
      }
      item.prev := null;
      item.next := null;
      RemovedIsLinked(kids, at);
    }

    /** `cJSON_DetachItemFromArray` */
    method DetachItemFromArray(which: int) returns (r: Item?)
      requires Valid()
      modifies this`child, this`kids, kids`next, kids`prev
      ensures Valid()
      ensures if 0 <= which < |old(kids)|
              then r == old(kids)[which] && r.Detached() && r !in kids && kids == Removed(old(kids), which)
              else r == null && kids == old(kids)
    {
      if which < 0 {
        return null;
      }
      var item := GetArrayItem(which);
      r := DetachItemViaPointer(item);
    }

    /** `cJSON_InsertItemInArray`: before the child at `which`, or at the end if there is none. */
    method InsertItemInArray(which: int, item: Item?) returns (ok: bool)
      requires Valid() && (item != null && item != this ==> item.Detached() && item !in kids)
      requires item == this ==> !(0 <= which < |kids|)
      modifies this`child, this`kids, Cell(item)`next, Cell(item)`prev, kids`next, kids`prev
      ensures Valid() && ok == (which >= 0 && item != null && item != this)
      ensures !ok && item != null ==> unchanged(item)
      ensures kids == if !ok then old(kids)
                      else if which < |old(kids)| then Inserted<Item>(old(kids), which, item) else old(kids) + [item]
      ensures forall k <- old(kids) :: k == old(kids)[0] || k == old(kids)[|old(kids)| - 1]
                || (0 <= which < |old(kids)| && (k == old(kids)[which] || old(k.next) == old(kids)[which]))
                || unchanged(k)
    {
      if which < 0 || item == null {
        return false;
      }
      var after := GetArrayItem(which);
      if after == null {
        ok := AddItem(item);
        return;
      }
      Between(kids, which);
      if after != child && after.prev == null {
        return false;
      }
      LinkBefore(after, item, which);
      kids := Inserted<Item>(kids, which, item);
      return true;
    }

    /** The pointers of that. */
    method LinkBefore(after: Item, item: Item, ghost at: nat)
      requires Valid() && item != this && item !in kids && at < |kids| && kids[at] == after
      modifies this`child, item`next, item`prev, kids`next, kids`prev
      ensures this !in kids && IsList(child, Inserted<Item>(kids, at, item))
      ensures forall k <- kids :: k == after || old(k.next) == after || k == kids[|kids| - 1] || unchanged(k)
    {
      Between(kids, at);
      item.next := after;
      item.prev := after.prev;
      after.prev := item;
      if after == child {
        child := item;
      } else {
        item.prev.next := item;
      }
      InsertedIsLinked(kids, at, item);
    }

    /** `cJSON_ReplaceItemViaPointer`; freeing the replaced item is not part of the model. */
    method ReplaceItemViaPointer(item: Item?, replacement: Item?) returns (ok: bool)
      requires Valid() && (kids != [] && item != null ==> item in kids)
      requires replacement != null && replacement != item ==>
                 replacement != this && replacement.Detached() && replacement !in kids
      modifies this`child, this`kids, Cell(replacement)`next, Cell(replacement)`prev, kids`next, kids`prev
      ensures Valid() && ok == (old(kids) != [] && item != null && replacement != null)
      ensures !ok && replacement != null ==> unchanged(replacement)
      ensures if ok && replacement != item
              then && item.Detached() && item !in kids
                   && exists i :: 0 <= i < |old(kids)| && old(kids)[i] == item && kids == old(kids)[i := replacement]
              else kids == old(kids)
      ensures forall k <- old(kids) :: k != item && k != old(kids)[0] && old(k.next) != item && old(k.prev) != item ==>
                unchanged(k)
    {
      if child == null || replacement == null || item == null {
        return false;
      }
      if replacement == item {
        return true;
      }
      ghost var at := IndexOf(kids, item);
      Between(kids, at);
      replacement.next := item.next;
      replacement.prev := item.prev;
      if replacement.next != null {
        replacement.next.prev := replacement;
      }
      if child == item {
        if child.prev == child {
          replacement.prev := replacement;
        }
        child := replacement;
      } else {
        if replacement.prev != null {
          replacement.prev.next := replacement;
        }
        if replacement.next == null {
          child.prev := replacement;
        }
      }
      item.next := null;
      item.prev := null;
      kids := kids[at := replacement];
      return true;
    }
  }

  /** The two neighbours of a child. */
  lemma Between(kids: seq<Item>, at: nat)
    requires Linked(kids)
    ensures 0 < at < |kids| ==> kids[at - 1].next == kids[at] && kids[at].prev == kids[at - 1]
    ensures at + 1 < |kids| ==> kids[at].next == kids[at + 1] && kids[at + 1].prev == kids[at]
  {
  }

  /** Without a child the list is linked once its neighbours are. */
  lemma RemovedIsLinked(kids: seq<Item>, at: nat)
    requires at < |kids| && Distinct(kids) && Linked(kids[..at]) && Linked(kids[at + 1..])
    requires 0 < at < |kids| - 1 ==> kids[at - 1].next == kids[at + 1] && kids[at + 1].prev == kids[at - 1]
    ensures var r := Removed(kids, at); Linked(r) && Distinct(r) && kids[at] !in r
  {
    var r := Removed(kids, at);
    forall i | 0 <= i < |r| ensures r[i] == if i < at then kids[i] else kids[i + 1] {
    }
  }

  /** With one more child it is once that child and its neighbours are. */
  lemma InsertedIsLinked(kids: seq<Item>, at: nat, item: Item)
    requires at < |kids| && Distinct(kids) && item !in kids && Linked(kids[..at]) && Linked(kids[at..])
    requires item.next == kids[at] && kids[at].prev == item
    requires 0 < at ==> kids[at - 1].next == item && item.prev == kids[at - 1]
    ensures Linked(Inserted<Item>(kids, at, item)) && Distinct(Inserted<Item>(kids, at, item))
  {
    var r := Inserted<Item>(kids, at, item);
    forall i | 0 <= i < |r| ensures r[i] == if i < at then kids[i] else if i == at then item else kids[i - 1] {
    }
  }

  function Cell(item: Item?): set<Item> {
    if item == null then {} else {item}
  }

  ghost function IndexOf(kids: seq<Item>, item: Item): (i: nat)
    requires item in kids
    ensures i < |kids| && kids[i] == item
  {
    if kids[0] == item then 0 else 1 + IndexOf(kids[1..], item)
  }

  ghost function Removed<T>(s: seq<T>, i: nat): seq<T>
    requires i < |s|
  {
    s[..i] + s[i + 1..]
  }

  ghost function Inserted<T>(s: seq<T>, i: nat, x: T): seq<T>
    requires i <= |s|
  {
    s[..i] + [x] + s[i..]
  }

  /** `suffix_object` */
  method Suffix(prev: Item, item: Item)
    modifies prev`next, item`prev
    ensures prev.next == item && item.prev == prev
  {
    prev.next := item;
    item.prev := prev;
  }

  ghost predicate Distinct(kids: seq<Item>) {
    forall i, j :: 0 <= i < j < |kids| ==> kids[i] != kids[j]
  }

  /** Neighbours point at each other. */
  ghost predicate Linked(kids: seq<Item>)
    reads kids`next, kids`prev
  {
    forall i, j {:trigger kids[i], kids[j]} :: 0 <= i && j == i + 1 && j < |kids| ==>
      kids[i].next == kids[j] && kids[j].prev == kids[i]
  }

  ghost predicate IsList(head: Item?, kids: seq<Item>)
    reads kids`next, kids`prev
  {
    && Distinct(kids) && Linked(kids)
    && if kids == [] then head == null
       else head == kids[0] && head.prev == kids[|kids| - 1] && kids[|kids| - 1].next == null
  }

  /** The pointers alone determine the children: two lists from the same head are the same list. */
  lemma {:induction false} ListIsDetermined(head: Item?, a: seq<Item>, b: seq<Item>)
    requires IsList(head, a) && IsList(head, b)
    ensures a == b
  {
    if a != [] {
      Agree(b, a, |b| - 1);
      forall i | 0 <= i < |a| ensures i < |b| && a[i] == b[i] {
        Agree(a, b, i);
      }
    }
  }

  lemma {:induction false} Agree(a: seq<Item>, b: seq<Item>, i: nat)
    requires i < |a| && b != [] && a[0] == b[0] && Linked(a) && Linked(b) && b[|b| - 1].next == null
    ensures i < |b| && a[i] == b[i]
  {
    if i > 0 {
      Agree(a, b, i - 1);
      Between(a, i);
      if i < |b| {
        Between(b, i);
      }
    }
  }

  // ---------- runs of operations

  lemma InsertedHas<T>(s: seq<T>, i: nat, x: T)
    requires i <= |s|
    ensures forall k :: k in Inserted(s, i, x) <==> k in s || k == x
  {
    assert s == s[..i] + s[i..];
  }

  lemma UpdatedHas<T>(s: seq<T>, i: nat, x: T)
    requires i < |s|
    ensures forall k :: k in s ==> k in s[i := x] || k == s[i]
    ensures forall k :: k in s[i := x] ==> k in s || k == x
  {
    forall k | k in s ensures k in s[i := x] || k == s[i] {
      var j :| 0 <= j < |s| && s[j] == k;
      assert j == i || s[i := x][j] == k;
    }
  }

  datatype Op =
    | Append(item: Item)
    | Detach(index: int)
    | Insert(index: int, item: Item)
    | Replace(index: int, item: Item)

  /** The list that an operation leaves. */
  ghost function Apply(kids: seq<Item>, op: Op): seq<Item> {
    match op
    case Append(item) => kids + [item]
    case Detach(index) => if 0 <= index < |kids| then Removed(kids, index) else kids
    case Insert(index, item) =>
      if index < 0 then kids else if index < |kids| then Inserted(kids, index, item) else kids + [item]
    case Replace(index, item) => if 0 <= index < |kids| then kids[index := item] else kids
  }

  /** The items still allocated: replacing a child frees it. */
  ghost function PoolAfter(kids: seq<Item>, pool: set<Item>, op: Op): set<Item> {
    if op.Replace? && 0 <= op.index < |kids| then pool - {kids[op.index]} else pool
  }

  /** Items are added only while they are in no list. */
  ghost predicate RunAllowed(kids: seq<Item>, pool: set<Item>, ops: seq<Op>)
    decreases |ops|
  {
    ops != [] ==>
      && (ops[0].Detach? || (ops[0].item in pool && ops[0].item !in kids))
      && RunAllowed(Apply(kids, ops[0]), PoolAfter(kids, pool, ops[0]), ops[1..])
  }

  ghost function RunKids(kids: seq<Item>, ops: seq<Op>): seq<Item>
    decreases |ops|
  {
    if ops == [] then kids else RunKids(Apply(kids, ops[0]), ops[1..])
  }

  /** A parent, and the allocated items: its children, and others that are in no list. */
  ghost predicate Keeps(parent: Item, pool: set<Item>)
    reads parent, pool, parent.kids
  {
    && parent.Valid() && parent !in pool
    && (forall k <- parent.kids :: k in pool)
    && forall p <- pool :: p !in parent.kids ==> p.Detached()
  }

  /** `cJSON_ReplaceItemInArray` */
  method ReplaceItemInArray(parent: Item, index: int, item: Item, ghost pool: set<Item>) returns (ok: bool)
    requires Keeps(parent, pool) && item in pool && item !in parent.kids
    modifies parent`child, parent`kids, pool`next, pool`prev
    ensures ok == (0 <= index < |old(parent.kids)|)
    ensures parent.kids == Apply(old(parent.kids), Replace(index, item))
    ensures Keeps(parent, PoolAfter(old(parent.kids), pool, Replace(index, item)))
  {
    if index < 0 {
      return false;
    }
    var target := parent.GetArrayItem(index);
    if index < |parent.kids| {
      UpdatedHas(parent.kids, index, item);
    }
    ok := parent.ReplaceItemViaPointer(target, item);
    forall p | p in PoolAfter(old(parent.kids), pool, Replace(index, item)) && p !in parent.kids
      ensures p.Detached()
    {
      assert p !in old(parent.kids) && old(p.Detached());
      assert ok ==> parent.kids[index] == item;
    }
  }

  method InsertItem(parent: Item, index: int, item: Item, ghost pool: set<Item>)
    requires Keeps(parent, pool) && item in pool && item !in parent.kids
    modifies parent`child, parent`kids, pool`next, pool`prev
    ensures parent.kids == Apply(old(parent.kids), Insert(index, item)) && Keeps(parent, pool)
  {
    if 0 <= index <= |parent.kids| {
      InsertedHas(parent.kids, index, item);
    }
    var ok := parent.InsertItemInArray(index, item);
    forall p | p in pool && p !in parent.kids ensures p.Detached() {
      assert p !in old(parent.kids) && old(p.Detached());
    }
  }

  method Step(parent: Item, op: Op, ghost pool: set<Item>)
    requires Keeps(parent, pool) && RunAllowed(parent.kids, pool, [op])
    modifies parent`child, parent`kids, pool`next, pool`prev
    ensures parent.kids == Apply(old(parent.kids), op)
    ensures Keeps(parent, PoolAfter(old(parent.kids), pool, op))
  {
    match op {
      case Append(item) =>
        var ok := parent.AddItem(item);
      case Detach(index) =>
        var item := parent.DetachItemFromArray(index);
      case Insert(index, item) =>
        InsertItem(parent, index, item, pool);
      case Replace(index, item) =>
        var ok := ReplaceItemInArray(parent, index, item, pool);
    }
  }

  /** Any run of operations does to the children what it does to a plain sequence, and keeps the list well formed. */
  method Run(parent: Item, ops: seq<Op>, ghost pool: set<Item>) returns (ghost left: set<Item>)
    requires Keeps(parent, pool) && RunAllowed(parent.kids, pool, ops)
    modifies parent`child, parent`kids, pool`next, pool`prev
    ensures parent.kids == RunKids(old(parent.kids), ops)
    ensures left <= pool && Keeps(parent, left)
  {
    left := pool;
    var rest := ops;
    while rest != []
      invariant left <= pool && Keeps(parent, left) && RunAllowed(parent.kids, left, rest)
      invariant RunKids(parent.kids, rest) == RunKids(old(parent.kids), ops)
      decreases |rest|
    {
      ghost var before := parent.kids;
      Step(parent, rest[0], left);
      left := PoolAfter(before, left, rest[0]);
      rest := rest[1..];
    }
  }
}
