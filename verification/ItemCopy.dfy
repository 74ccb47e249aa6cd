/** `cJSON_Duplicate`: a deep copy of an item and its children, down to a depth limit. */
module ItemCopy {
  import opened Wrappers
  import opened ItemList
  import opened Json
  import JsonCompare

  const CIRCULAR_LIMIT: nat := 10000

  function Levels(n: Node): nat
    decreases n, 0
  {
    LevelsBelow(n.kids)
  }

  function LevelsBelow(ns: seq<Node>): nat
    decreases ns, 1
  {
    if ns == [] then 0
    else
      var first, rest := 1 + Levels(ns[0]), LevelsBelow(ns[1..]);
      if first > rest then first else rest
  }

  /** The same by counting levels on the way down, as the copier does. */
  predicate Fits(depth: nat, ns: seq<Node>)
    decreases ns
  {
    forall i :: 0 <= i < |ns| ==> depth < CIRCULAR_LIMIT && Fits(depth + 1, ns[i].kids)
  }

  lemma {:induction false} LevelsAtLeast(ns: seq<Node>, i: nat)
    requires i < |ns|
    ensures LevelsBelow(ns) >= 1 + Levels(ns[i])
  {
    if i > 0 {
      LevelsAtLeast(ns[1..], i - 1);
    }
  }

  lemma {:induction false} LevelsReached(ns: seq<Node>) returns (i: nat)
    requires ns != []
    ensures i < |ns| && LevelsBelow(ns) == 1 + Levels(ns[i])
  {
    i := 0;
    if |ns| > 1 && LevelsBelow(ns[1..]) > 1 + Levels(ns[0]) {
      var j := LevelsReached(ns[1..]);
      i := j + 1;
    }
  }

  lemma {:induction false} FitsIff(depth: nat, ns: seq<Node>)
    ensures Fits(depth, ns) <==> ns == [] || depth + LevelsBelow(ns) <= CIRCULAR_LIMIT
    decreases ns
  {
    if ns != [] {
      var deepest := LevelsReached(ns);
      FitsIff(depth + 1, ns[deepest].kids);
      forall i | 0 <= i < |ns| ensures depth + LevelsBelow(ns) <= CIRCULAR_LIMIT ==> Fits(depth + 1, ns[i].kids) {
        LevelsAtLeast(ns, i);
        FitsIff(depth + 1, ns[i].kids);
      }
    }
  }

  /** The first `n` of these nodes do. */
  predicate FirstFit(depth: nat, ns: seq<Node>, n: nat)
    requires n <= |ns|
  {
    n > 0 ==> FirstFit(depth, ns, n - 1) && depth < CIRCULAR_LIMIT && Fits(depth + 1, ns[n - 1].kids)
  }

  lemma {:induction false} FirstFitIff(depth: nat, ns: seq<Node>, n: nat)
    requires n <= |ns|
    ensures FirstFit(depth, ns, n) <==> Fits(depth, ns[..n])
  {
    if n > 0 {
      FirstFitIff(depth, ns, n - 1);
      assert ns[n - 1] == ns[..n][n - 1];
    }
  }

  /** One node too many is enough. */
  lemma {:induction false} FirstFitFails(depth: nat, ns: seq<Node>, n: nat, m: nat)
    requires n <= m <= |ns| && !FirstFit(depth, ns, n)
    ensures !FirstFit(depth, ns, m)
  {
    if n < m {
      FirstFitFails(depth, ns, n, m - 1);
    }
  }

  // ---------- trees of items

  ghost function Appended(kids: seq<Item>, item: Item): (r: seq<Item>)
    ensures |r| == |kids| + 1
  {
    kids + [item]
  }

  ghost function Family(item: Item): set<Item>
    reads item`below
  {
    {item} + item.below
  }

  /** No two of these trees share an item. */
  ghost predicate Apart(kids: seq<Item>)
    reads kids`below
  {
    forall i, j {:trigger kids[i], kids[j]} :: 0 <= i < j < |kids| ==> Family(kids[i]) !! Family(kids[j])
  }

  /** The item's own fields are those of the node. */
  ghost predicate Labelled(item: Item, n: Node)
    reads item`kind, item`valuestring, item`valueint, item`valuedouble, item`name
  {
    && n.kind == item.kind && n.valuestring == item.valuestring && n.valueint == item.valueint
    && n.valuedouble == item.valuedouble && n.name == item.name
  }

  /** These children have the first nodes, in order. */
  ghost predicate NodesStart(kids: seq<Item>, nodes: seq<Node>)
    reads kids`node
  {
    |kids| <= |nodes| && forall i :: 0 <= i < |kids| ==> nodes[i] == kids[i].node
  }

  /** These trees share no item, and all of their items are among `below`. */
  ghost predicate Forest(kids: seq<Item>, below: set<Item>)
    reads below
    decreases below, 0
  {
    (forall k <- kids :: k in below && k.below < below && Tree(k)) && Apart(kids)
  }

  /** The items form a tree of well-formed child lists that share nothing, and `node` is what it holds. */
  ghost predicate Tree(item: Item)
    reads item`child, item`kids, item`below, item`node, item`kind, item`valuestring, item`valueint
    reads item`valuedouble, item`name, item.below
    decreases item.below, 1
  {
    && item !in item.below && Forest(item.kids, item.below) && IsList(item.child, item.kids)
    && Labelled(item, item.node) && |item.kids| == |item.node.kids| && NodesStart(item.kids, item.node.kids)
  }

  /** The children of a copy under construction: a list, complete but for the head's `prev`. */
  ghost predicate Chain(kids: seq<Item>, below: set<Item>, first: Item?, last: Item?)
    reads below
  {
    && Forest(kids, below) && Distinct(kids) && Linked(kids)
    && if kids == [] then first == null && last == null
       else first == kids[0] && last == kids[|kids| - 1] && last.next == null
  }

  /** All but the sibling pointers. */
  twostate predicate Kept(item: Item)
    reads item
  {
    unchanged(item`child, item`kids, item`below, item`node, item`kind, item`valuestring, item`valueint,
              item`valuedouble, item`name)
  }

  /** A tree does not depend on the sibling pointers of its root. */
  twostate lemma TreeKept(item: Item)
    requires old(Tree(item))
    requires Kept(item)
    requires forall o <- old(item.below) :: unchanged(o)
    ensures Tree(item)
  {
  }

  /** No root is below another one. */
  lemma NotBelow(kids: seq<Item>)
    requires Apart(kids) && forall k <- kids :: k !in k.below
    ensures forall h, k | h in kids && k in kids :: h !in k.below
  {
    forall h, k | h in kids && k in kids ensures h !in k.below {
      var i :| 0 <= i < |kids| && kids[i] == h;
      var j :| 0 <= j < |kids| && kids[j] == k;
      if i < j {
        assert Family(kids[i]) !! Family(kids[j]);
      } else if j < i {
        assert Family(kids[j]) !! Family(kids[i]);
      }
    }
  }

  /** Nor do the trees of a forest depend on those of their roots, none of which is below another. */
  twostate lemma ForestKept(kids: seq<Item>)
    requires old(Apart(kids)) && forall k <- kids :: old(Tree(k)) && Kept(k)
    requires forall k <- kids, o <- old(k.below) :: o !in kids ==> unchanged(o)
    ensures Apart(kids) && forall k <- kids :: Tree(k)
  {
    forall i, j {:trigger kids[i], kids[j]} | 0 <= i < j < |kids| ensures Family(kids[i]) !! Family(kids[j]) {
      assert old(Family(kids[i]) !! Family(kids[j])) && Kept(kids[i]) && Kept(kids[j]);
    }
    NotBelow(kids);
    forall k | k in kids ensures Tree(k) {
      assert Kept(k);
      forall o | o in old(k.below) ensures o !in kids {
        assert o in k.below;
      }
      TreeKept(k);
    }
  }

  lemma ForestAppend(kids: seq<Item>, below: set<Item>, item: Item)
    requires Forest(kids, below) && Tree(item) && Family(item) !! below
    ensures Forest(Appended(kids, item), below + Family(item))
  {
    var all := Appended(kids, item);
    forall i, j {:trigger all[i], all[j]} | 0 <= i < j < |all| ensures Family(all[i]) !! Family(all[j]) {
      if j == |kids| {
        assert all[i] in kids;
      } else {
        assert all[i] == kids[i] && all[j] == kids[j];
      }
    }
  }

  /** The pointers of one more copied child. */
  method Attach(copy: Item, last: Item?, newchild: Item, ghost kids: seq<Item>)
    requires Distinct(kids) && Linked(kids) && newchild !in kids && copy !in kids && copy != newchild
    requires if kids == [] then last == null else copy.child == kids[0] && last == kids[|kids| - 1]
    modifies copy`child, Cell(last)`next, newchild`prev
    ensures Distinct(Appended(kids, newchild)) && Linked(Appended(kids, newchild))
    ensures copy.child == Appended(kids, newchild)[0]
  {
    if last != null {
      last.next := newchild;
      newchild.prev := last;
    } else {
      copy.child := newchild;
    }
  }

  /** Hang one more copied child at the end of the chain. */
  method Link(copy: Item, last: Item?, newchild: Item, ghost kids: seq<Item>, ghost below: set<Item>)
    requires Chain(kids, below, copy.child, last) && Tree(newchild) && newchild.Detached()
    requires copy !in below && Family(newchild) !! {copy} + below
    modifies copy`child, Cell(last)`next, newchild`prev
    ensures Chain(Appended(kids, newchild), below + Family(newchild), copy.child, newchild)
  {
    Attach(copy, last, newchild, kids);
    TreeKept(newchild);
    ForestKept(kids);
    ForestAppend(kids, below, newchild);
  }

  /** Close the list: the head's `prev` is the last child. */
  method Close(copy: Item, last: Item?, ghost n: Node, ghost kids: seq<Item>, ghost below: set<Item>)
    requires Chain(kids, below, copy.child, last) && copy !in below
    requires Labelled(copy, n) && |kids| == |n.kids| && NodesStart(kids, n.kids)
    modifies Cell(copy.child)`prev, copy`kids, copy`below, copy`node
    ensures Tree(copy) && copy.node == n && copy.below == below
  {
    CloseList(copy.child, last, kids);
    ForestKept(kids);
    Record(copy, n, kids, below);
  }

  /** The ghost side of that. */
  ghost method Record(copy: Item, n: Node, kids: seq<Item>, below: set<Item>)
    requires Forest(kids, below) && IsList(copy.child, kids) && copy !in below
    requires Labelled(copy, n) && |kids| == |n.kids| && NodesStart(kids, n.kids)
    modifies copy`kids, copy`below, copy`node
    ensures Tree(copy) && copy.node == n && copy.below == below
  {
    copy.kids, copy.below, copy.node := kids, below, n;
    assert Forest(kids, below);
  }

  method CloseList(first: Item?, last: Item?, ghost kids: seq<Item>)
    requires Distinct(kids) && Linked(kids)
    requires if kids == [] then first == null
             else first == kids[0] && last == kids[|kids| - 1] && last.next == null
    modifies Cell(first)`prev
    ensures IsList(first, kids)
  {
    if first != null {
      first.prev := last;
    }
  }

  /**
   `cJSON_Duplicate_rec`: either a fresh tree, disjoint from everything that existed, holding the
   same values in the same order, or null, exactly when a child lies deeper than the limit.
   */
  method DuplicateRec(item: Item, depth: nat, recurse: bool) returns (copy: Item?)
    requires Tree(item)
    ensures copy == null <==> recurse && !Fits(depth, item.node.kids)
    ensures copy != null ==>
      && Tree(copy) && fresh(Family(copy)) && copy.Detached()
      && copy.node == if recurse then item.node else item.node.(kids := [])
    decreases item.below, 3
  {
    copy := CopyFields(item);
    if !recurse {
      return;
    }
    var ok := CopyKids(copy, item, depth);
    if !ok {
      copy := null;
    }
  }

  /** The copy's own fields. */
  method CopyFields(item: Item) returns (copy: Item)
    requires Labelled(item, item.node)
    ensures fresh(copy) && copy.Detached() && copy.child == null && copy.kids == [] && copy.below == {}
    ensures Labelled(copy, item.node) && copy.node == item.node.(kids := [])
  {
    copy := new Item();
    copy.kind := item.kind;
    copy.valueint := item.valueint;
    copy.valuedouble := item.valuedouble;
    copy.valuestring := item.valuestring;
    copy.name := item.name;
    copy.node := item.node.(kids := []);
  }

  lemma NextKid(item: Item, i: nat)
    requires Tree(item) && i < |item.kids|
    ensures var k := item.kids[i]; Tree(k) && k.below < item.below && k in item.below
    ensures item.kids[i].next == if i + 1 < |item.kids| then item.kids[i + 1] else null
  {
    assert item.kids[i] in item.kids;
    Between(item.kids, i);
  }

  method CopyKids(copy: Item, item: Item, depth: nat) returns (ok: bool)
    requires Tree(item) && copy !in Family(item) && copy.child == null && Labelled(copy, item.node)
    modifies copy`child, copy`kids, copy`below, copy`node
    ensures ok <==> Fits(depth, item.node.kids)
    ensures ok ==> Tree(copy) && fresh(copy.below) && copy.node == item.node
    decreases item.below, 2
  {
    var last;
    ghost var kids, below;
    FirstFitIff(depth, item.node.kids, |item.node.kids|);
    assert item.node.kids[..|item.node.kids|] == item.node.kids;
    ok, last, kids, below := CopyEach(copy, item, depth);
    if ok {
      assert copy.child != null ==> copy.child == kids[0] && kids[0] in kids;
      Close(copy, last, item.node, kids, below);
    }
  }

  /** Between two turns of the loop: `child` is the next to copy, the copies of those before it form a chain. */
  ghost predicate Copying(item: Item, depth: nat, child: Item?, first: Item?, last: Item?,
                          kids: seq<Item>, below: set<Item>)
    reads item, item.below, below
  {
    && Tree(item) && |kids| <= |item.kids|
    && child == (if |kids| < |item.kids| then item.kids[|kids|] else null)
    && Chain(kids, below, first, last) && NodesStart(kids, item.node.kids)
    && FirstFit(depth, item.node.kids, |kids|)
  }

  lemma CopyingNext(item: Item, depth: nat, first: Item?, last: Item, kids: seq<Item>, below: set<Item>)
    requires Tree(item) && |kids| < |item.kids| && NodesStart(kids, item.node.kids)
    requires FirstFit(depth, item.node.kids, |kids|) && depth < CIRCULAR_LIMIT
    requires last.node == item.node.kids[|kids|] && Fits(depth + 1, last.node.kids)
    requires Chain(Appended(kids, last), below, first, last)
    ensures Copying(item, depth, item.kids[|kids|].next, first, last, Appended(kids, last), below)
  {
    NextKid(item, |kids|);
  }

  /** The loop over the children of the original. */
  method CopyEach(copy: Item, item: Item, depth: nat)
    returns (ok: bool, last: Item?, ghost kids: seq<Item>, ghost below: set<Item>)
    requires Tree(item) && copy !in Family(item) && copy.child == null
    modifies copy`child
    ensures ok <==> FirstFit(depth, item.node.kids, |item.node.kids|)
    ensures ok ==> Copying(item, depth, null, copy.child, last, kids, below) && fresh(below)
    decreases item.below, 1
  {
    var child := item.child;
    last, kids, below := null, [], {};
    while child != null
      invariant Copying(item, depth, child, copy.child, last, kids, below)
      invariant fresh(below) && (last != null ==> fresh(last))
      decreases |item.kids| - |kids|
    {
      if depth >= CIRCULAR_LIMIT {
        FirstFitFails(depth, item.node.kids, |kids| + 1, |item.node.kids|);
        return false, last, kids, below;
      }
      var newchild := CopyNext(copy, last, item, child, depth, kids, below);
      if newchild == null {
        FirstFitFails(depth, item.node.kids, |kids| + 1, |item.node.kids|);
        return false, last, kids, below;
      }
      last := newchild;
      kids, below := Appended(kids, newchild), below + Family(newchild);
      child := child.next;
    }
    ok := true;
  }

  /** One turn of the loop: the next child is copied and the copy hung at the end. */
  method CopyNext(copy: Item, last: Item?, item: Item, child: Item, depth: nat,
                  ghost kids: seq<Item>, ghost below: set<Item>)
    returns (newchild: Item?)
    requires Copying(item, depth, child, copy.child, last, kids, below) && depth < CIRCULAR_LIMIT
    requires copy !in Family(item) && last !in Family(item) && copy !in below
    modifies copy`child, Cell(last)`next
    ensures newchild == null ==> Tree(item) && |kids| < |item.kids| && !FirstFit(depth, item.node.kids, |kids| + 1)
    ensures newchild != null ==> fresh(Family(newchild))
    ensures newchild != null ==>
      Copying(item, depth, child.next, copy.child, newchild, Appended(kids, newchild), below + Family(newchild))
    decreases item.below, 0
  {
    NextKid(item, |kids|);
    newchild := DuplicateRec(child, depth + 1, true);
    assert Copying(item, depth, child, copy.child, last, kids, below);
    if newchild != null {
      assert forall o <- Family(newchild) :: o != copy && o !in below && o !in Family(item);
      HangNext(copy, last, newchild, item, child, depth, kids, below);
    }
  }

  /** What comes after the recursive call. */
  method HangNext(copy: Item, last: Item?, newchild: Item, item: Item, child: Item, depth: nat,
                  ghost kids: seq<Item>, ghost below: set<Item>)
    requires Copying(item, depth, child, copy.child, last, kids, below) && depth < CIRCULAR_LIMIT
    requires Tree(newchild) && newchild.Detached() && newchild.node == child.node && Fits(depth + 1, child.node.kids)
    requires copy !in Family(item) && last !in Family(item) && copy !in below
    requires forall o <- Family(newchild) :: o != copy && o !in below && o !in Family(item)
    modifies copy`child, Cell(last)`next, newchild`prev
    ensures Copying(item, depth, old(child.next), copy.child, newchild, Appended(kids, newchild),
                    below + Family(newchild))
  {
    Link(copy, last, newchild, kids, below);
    TreeKept(item);
    CopyingNext(item, depth, copy.child, newchild, kids, below + Family(newchild));
  }

  /** `cJSON_Duplicate` */
  method Duplicate(item: Item?, recurse: bool) returns (copy: Item?)
    requires item != null ==> Tree(item)
    ensures copy == null <==> item == null || (recurse && Levels(item.node) > CIRCULAR_LIMIT)
    ensures copy != null ==>
      && Tree(copy) && fresh(Family(copy)) && copy.Detached()
      && copy.node == if recurse then item.node else item.node.(kids := [])
  {
    if item == null {
      copy := null;
      return;
    }
    FitsIff(0, item.node.kids);
    copy := DuplicateRec(item, 0, recurse);
  }

  // ---------- the value of a tree of items

  /** The JSON value that a tree of items represents, if its kinds, strings and names are in order. */
  ghost predicate Represents(n: Node, t: Json)
    decreases t, 0
  {
    match t
    case False => n.kind == 1
    case True => n.kind == 2
    case Null => n.kind == 4
    case Number(d) => n.kind == 8 && n.valuedouble == d
    case String(s) => n.kind == 16 && n.valuestring == Some(s)
    case Array(items) => n.kind == 32 && RepresentsItems(n.kids, items)
    case Object(members) => n.kind == 64 && RepresentsMembers(n.kids, members)
  }

  ghost predicate RepresentsItems(ns: seq<Node>, items: seq<Json>)
    decreases items, 1
  {
    if items == [] then ns == []
    else ns != [] && Represents(ns[0], items[0]) && RepresentsItems(ns[1..], items[1..])
  }

  ghost predicate RepresentsMembers(ns: seq<Node>, members: seq<Member>)
    decreases members, 1
  {
    if members == [] then ns == []
    else
      && ns != [] && ns[0].name == Some(members[0].key) && Represents(ns[0], members[0].value)
      && RepresentsMembers(ns[1..], members[1..])
  }

  /** A tree of items represents at most one value. */
  lemma {:induction false} RepresentsOne(n: Node, t: Json, u: Json)
    requires Represents(n, t) && Represents(n, u)
    ensures t == u
    decreases t, 0
  {
    match t
    case Array(items) => ItemsAreOne(n.kids, items, u.items);
    case Object(members) => MembersAreOne(n.kids, members, u.members);
    case _ =>
  }

  lemma {:induction false} ItemsAreOne(ns: seq<Node>, xs: seq<Json>, ys: seq<Json>)
    requires RepresentsItems(ns, xs) && RepresentsItems(ns, ys)
    ensures xs == ys
    decreases xs, 1
  {
    if xs != [] {
      RepresentsOne(ns[0], xs[0], ys[0]);
      ItemsAreOne(ns[1..], xs[1..], ys[1..]);
      assert xs == [xs[0]] + xs[1..] && ys == [ys[0]] + ys[1..];
    }
  }

  lemma {:induction false} MembersAreOne(ns: seq<Node>, xs: seq<Member>, ys: seq<Member>)
    requires RepresentsMembers(ns, xs) && RepresentsMembers(ns, ys)
    ensures xs == ys
    decreases xs, 1
  {
    if xs != [] {
      RepresentsOne(ns[0], xs[0].value, ys[0].value);
      MembersAreOne(ns[1..], xs[1..], ys[1..]);
      assert xs == [xs[0]] + xs[1..] && ys == [ys[0]] + ys[1..];
    }
  }

  /** Two trees of items that hold the same compare equal, given distinct keys. */
  lemma EqualNodesCompareEqual(n: Node, t: Json, copied: Json)
    requires Represents(n, t) && Represents(n, copied) && JsonCompare.DistinctKeys(t)
    ensures JsonCompare.Compare(copied, t)
  {
    RepresentsOne(n, t, copied);
    JsonCompare.CopyComparesEqual(t);
  }
}
