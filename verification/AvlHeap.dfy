/**
 The AVL tree of `src/data_structures/avl_tree/avl_tree.c` as linked nodes that rotations,
 insert, delete and map rewire in place. Each method turns the tree its footprint holds
 into the one the matching function of `AvlSpec` computes.
 */
module AvlHeap {
  import opened Wrappers
  import opened AvlSpec
  import AvlLaws

  class AVLNode<V> {
    var value: V
    var height: int
    var size: int
    var left: AVLNode?<V>
    var right: AVLNode?<V>

    ghost var repr: set<AVLNode<V>>  // this node and everything below it
    ghost var tree: Tree<V>          // the tree this node is the root of

    ghost predicate Valid()
      reads this, repr
      ensures Valid() ==> this in repr && tree.Node?
      ensures Valid() ==> (left != null <==> tree.left.Node?) && (right != null <==> tree.right.Node?)
      decreases repr
    {
      && (left != null ==> left in repr && left in left.repr && left.repr <= repr)
      && (right != null ==> right in repr && right in right.repr && right.repr <= repr)
      && this !in ReprOf(left) && this !in ReprOf(right) && ReprOf(left) !! ReprOf(right)
      && repr == {this} + ReprOf(left) + ReprOf(right)
      && tree == Node(TreeOf(left), value, height, size, TreeOf(right))
      && (left != null ==> left.Valid())
      && (right != null ==> right.Valid())
    }

    constructor (v: V)
      ensures Valid() && fresh(repr) && tree == Node(Leaf, v, 1, 1, Leaf)
    {
      value, left, right, size, height := v, null, null, 1, 1;
      repr, tree := {this}, Node(Leaf, v, 1, 1, Leaf);
    }
  }

  ghost function ReprOf<V>(t: AVLNode?<V>): set<AVLNode<V>>
    reads t
  {
    if t == null then {} else t.repr
  }

  ghost function TreeOf<V>(t: AVLNode?<V>): Tree<V>
    reads t
  {
    if t == null then Leaf else t.tree
  }

  ghost predicate ValidTree<V>(t: AVLNode?<V>)
    reads t, ReprOf(t)
  {
    t != null ==> t.Valid()
  }

  function HeightOf<V>(t: AVLNode?<V>): (h: int)
    requires ValidTree(t)
    reads t, ReprOf(t)
    ensures h == Height(TreeOf(t))
  {
    if t == null then 0 else t.height
  }

  function SizeOf<V>(t: AVLNode?<V>): (n: int)
    requires ValidTree(t)
    reads t, ReprOf(t)
    ensures n == Size(TreeOf(t))
  {
    if t == null then 0 else t.size
  }

  // ---------- one node at a time

  /** Give `t` another left child; its cached fields keep their values. */
  method SetLeft<V>(t: AVLNode<V>, l: AVLNode?<V>)
    requires ValidTree(l) && ValidTree(t.right)
    requires t !in ReprOf(l) && t !in ReprOf(t.right) && ReprOf(l) !! ReprOf(t.right)
    modifies t
    ensures t.Valid() && t.repr == {t} + ReprOf(l) + ReprOf(t.right)
    ensures t.left == l && t.right == old(t.right)
    ensures t.tree == Node(TreeOf(l), old(t.value), old(t.height), old(t.size), TreeOf(t.right))
  {
    ghost var rl, rr, tl, tr := ReprOf(l), ReprOf(t.right), TreeOf(l), TreeOf(t.right);
    t.left := l;
    t.repr, t.tree := {t} + rl + rr, Node(tl, t.value, t.height, t.size, tr);
  }

  method SetRight<V>(t: AVLNode<V>, r: AVLNode?<V>)
    requires ValidTree(t.left) && ValidTree(r)
    requires t !in ReprOf(t.left) && t !in ReprOf(r) && ReprOf(t.left) !! ReprOf(r)
    modifies t
    ensures t.Valid() && t.repr == {t} + ReprOf(t.left) + ReprOf(r)
    ensures t.left == old(t.left) && t.right == r
    ensures t.tree == Node(TreeOf(t.left), old(t.value), old(t.height), old(t.size), TreeOf(r))
  {
    ghost var rl, rr, tl, tr := ReprOf(t.left), ReprOf(r), TreeOf(t.left), TreeOf(r);
    t.right := r;
    t.repr, t.tree := {t} + rl + rr, Node(tl, t.value, t.height, t.size, tr);
  }

  method SetValue<V>(t: AVLNode<V>, v: V)
    requires t.Valid()
    modifies t
    ensures t.Valid() && t.repr == old(t.repr) && t.left == old(t.left) && t.right == old(t.right)
    ensures t.tree == old(t.tree).(value := v)
  {
    t.value, t.tree := v, t.tree.(value := v);
  }

  method SetHeightAt<V>(t: AVLNode<V>)
    requires t.Valid()
    modifies t
    ensures t.Valid() && t.repr == old(t.repr) && t.left == old(t.left) && t.right == old(t.right)
    ensures t.tree == SetHeight(old(t.tree))
  {
    var h := 1 + Max(HeightOf(t.left), HeightOf(t.right));
    t.height, t.tree := h, t.tree.(height := h);
  }

  method SetSizeAt<V>(t: AVLNode<V>)
    requires t.Valid()
    modifies t
    ensures t.Valid() && t.repr == old(t.repr) && t.left == old(t.left) && t.right == old(t.right)
    ensures t.tree == SetSize(old(t.tree))
  {
    var n := 1 + SizeOf(t.left) + SizeOf(t.right);
    t.size, t.tree := n, t.tree.(size := n);
  }

  method RefreshAt<V>(t: AVLNode<V>)
    requires t.Valid()
    modifies t
    ensures t.Valid() && t.repr == old(t.repr) && t.left == old(t.left) && t.right == old(t.right)
    ensures t.tree == Refresh(old(t.tree))
  {
    SetHeightAt(t);
    SetSizeAt(t);
  }

  // ---------- rotations

  /** The subtrees of a rotation share no node with each other or with the two nodes rewired. */
  ghost predicate Apart<V>(t: AVLNode<V>, n: AVLNode<V>, a: AVLNode?<V>, b: AVLNode?<V>, c: AVLNode?<V>)
    reads a, b, c, ReprOf(a), ReprOf(b), ReprOf(c)
  {
    && t != n && ValidTree(a) && ValidTree(b) && ValidTree(c)
    && {t, n} !! ReprOf(a) && {t, n} !! ReprOf(b) && {t, n} !! ReprOf(c)
    && ReprOf(a) !! ReprOf(b) && ReprOf(a) !! ReprOf(c) && ReprOf(b) !! ReprOf(c)
  }

  lemma ApartLeft<V>(t: AVLNode<V>)
    requires t.Valid() && t.left != null
    ensures Apart(t, t.left, t.left.left, t.left.right, t.right)
    ensures t.repr == {t.left} + ReprOf(t.left.left) + ({t} + ReprOf(t.left.right) + ReprOf(t.right))
    ensures t.tree == Node(Node(TreeOf(t.left.left), t.left.value, t.left.height, t.left.size, TreeOf(t.left.right)),
                           t.value, t.height, t.size, TreeOf(t.right))
  {
    assert t.left.Valid();
  }

  /** Make `t` the parent of `b` and `c`, and then `n` the parent of `a` and `t`. */
  method Lift<V>(t: AVLNode<V>, n: AVLNode<V>, a: AVLNode?<V>, b: AVLNode?<V>, c: AVLNode?<V>)
    requires Apart(t, n, a, b, c) && t.right == c && n.left == a
    modifies t, n
    ensures n.Valid() && n.repr == {n} + ReprOf(a) + ({t} + ReprOf(b) + ReprOf(c))
    ensures n.tree == Refresh(Node(TreeOf(a), old(n.value), old(n.height), old(n.size),
                              Refresh(Node(TreeOf(b), old(t.value), old(t.height), old(t.size), TreeOf(c)))))
  {
    SetLeft(t, b);
    RefreshAt(t);
    SetRight(n, t);
    RefreshAt(n);
  }

  method RotLeft<V>(t: AVLNode<V>) returns (newroot: AVLNode<V>)
    requires t.Valid() && t.left != null
    modifies t.repr
    ensures newroot.Valid() && newroot.repr == old(t.repr)
    ensures newroot.tree == SimpleRotLeft(old(t.tree))
  {
    newroot := t.left;
    ApartLeft(t);
    Lift(t, newroot, newroot.left, newroot.right, t.right);
  }

  lemma ApartRight<V>(t: AVLNode<V>)
    requires t.Valid() && t.right != null
    ensures Apart(t, t.right, t.left, t.right.left, t.right.right)
    ensures t.repr == {t.right} + ({t} + ReprOf(t.left) + ReprOf(t.right.left)) + ReprOf(t.right.right)
    ensures t.tree == Node(TreeOf(t.left), t.value, t.height, t.size,
                           Node(TreeOf(t.right.left), t.right.value, t.right.height, t.right.size,
                                TreeOf(t.right.right)))
  {
    assert t.right.Valid();
  }

  method LiftRight<V>(t: AVLNode<V>, n: AVLNode<V>, a: AVLNode?<V>, b: AVLNode?<V>, c: AVLNode?<V>)
    requires Apart(t, n, a, b, c) && t.left == a && n.right == c
    modifies t, n
    ensures n.Valid() && n.repr == {n} + ({t} + ReprOf(a) + ReprOf(b)) + ReprOf(c)
    ensures n.tree == Refresh(Node(Refresh(Node(TreeOf(a), old(t.value), old(t.height), old(t.size), TreeOf(b))),
                                   old(n.value), old(n.height), old(n.size), TreeOf(c)))
  {
    SetRight(t, b);
    RefreshAt(t);
    SetLeft(n, t);
    RefreshAt(n);
  }

  method RotRight<V>(t: AVLNode<V>) returns (newroot: AVLNode<V>)
    requires t.Valid() && t.right != null
    modifies t.repr
    ensures newroot.Valid() && newroot.repr == old(t.repr)
    ensures newroot.tree == SimpleRotRight(old(t.tree))
  {
    newroot := t.right;
    ApartRight(t);
    LiftRight(t, newroot, t.left, newroot.left, newroot.right);
  }

  method DoubleRotLR<V>(t: AVLNode<V>) returns (newroot: AVLNode<V>)
    requires t.Valid() && t.left != null && t.left.right != null
    modifies t.repr
    ensures newroot.Valid() && newroot.repr == old(t.repr)
    ensures newroot.tree == SimpleRotLeft(old(t.tree).(left := SimpleRotRight(old(t.tree).left)))
  {
    assert t.left.Valid();
    var l := RotRight(t.left);
    SetLeft(t, l);
    newroot := RotLeft(t);
  }

  method DoubleRotRL<V>(t: AVLNode<V>) returns (newroot: AVLNode<V>)
    requires t.Valid() && t.right != null && t.right.left != null
    modifies t.repr
    ensures newroot.Valid() && newroot.repr == old(t.repr)
    ensures newroot.tree == SimpleRotRight(old(t.tree).(right := SimpleRotLeft(old(t.tree).right)))
  {
    assert t.right.Valid();
    var r := RotLeft(t.right);
    SetRight(t, r);
    newroot := RotRight(t);
  }

  method BalanceLeftAt<V>(t: AVLNode<V>) returns (newroot: AVLNode<V>)
    requires t.Valid() && t.left != null && BalanceLeft(t.tree).Some?
    modifies t.repr
    ensures newroot.Valid() && newroot.repr == old(t.repr)
    ensures Some(newroot.tree) == BalanceLeft(old(t.tree))
  {
    assert t.left.Valid();
    if HeightOf(t.left.left) > HeightOf(t.left.right) {
      newroot := RotLeft(t);
    } else {
      newroot := DoubleRotLR(t);
    }
  }

  method BalanceRightAt<V>(t: AVLNode<V>) returns (newroot: AVLNode<V>)
    requires t.Valid() && t.right != null && BalanceRight(t.tree).Some?
    modifies t.repr
    ensures newroot.Valid() && newroot.repr == old(t.repr)
    ensures Some(newroot.tree) == BalanceRight(old(t.tree))
  {
    assert t.right.Valid();
    if HeightOf(t.right.right) > HeightOf(t.right.left) {
      newroot := RotRight(t);
    } else {
      newroot := DoubleRotRL(t);
    }
  }

  // ---------- operations

  /** A node whose subtrees, being replaced, stand apart: what a recursive call hands back to `t`. */
  ghost predicate Child<V>(t: AVLNode<V>, l: AVLNode?<V>, r: AVLNode?<V>)
    reads l, r, ReprOf(l), ReprOf(r)
  {
    ValidTree(l) && ValidTree(r) && t !in ReprOf(l) && t !in ReprOf(r) && ReprOf(l) !! ReprOf(r)
  }

  /** `was` has the fields of `t`, and its right subtree. */
  ghost predicate AgreesRight<V>(was: Tree<V>, t: AVLNode<V>)
    reads t, t.right
  {
    && was.Node? && was.value == t.value && was.height == t.height && was.size == t.size
    && was.right == TreeOf(t.right)
  }

  ghost predicate AgreesLeft<V>(was: Tree<V>, t: AVLNode<V>)
    reads t, t.left
  {
    && was.Node? && was.value == t.value && was.height == t.height && was.size == t.size
    && was.left == TreeOf(t.left)
  }

  method InsertedLeft<V>(t: AVLNode<V>, l: AVLNode<V>, ghost was: Tree<V>) returns (r: AVLNode<V>)
    requires Child(t, l, t.right)
    requires AgreesRight(was, t)
    requires l.tree.Node? && GrowLeft(was, l.tree).Some?
    modifies t, ReprOf(l), ReprOf(t.right)
    ensures r.Valid() && r.repr == {t} + old(l.repr) + old(ReprOf(t.right))
    ensures Some(r.tree) == GrowLeft(was, old(l.tree))
  {
    t.size := t.size + 1;
    SetLeft(t, l);
    SetHeightAt(t);
    r := t;
    if Abs(HeightOf(t.left) - HeightOf(t.right)) > 1 {
      r := BalanceLeftAt(t);
    }
  }

  method InsertedRight<V>(t: AVLNode<V>, rr: AVLNode<V>, ghost was: Tree<V>) returns (r: AVLNode<V>)
    requires Child(t, t.left, rr)
    requires AgreesLeft(was, t)
    requires rr.tree.Node? && GrowRight(was, rr.tree).Some?
    modifies t, ReprOf(t.left), ReprOf(rr)
    ensures r.Valid() && r.repr == {t} + old(ReprOf(t.left)) + old(rr.repr)
    ensures Some(r.tree) == GrowRight(was, old(rr.tree))
  {
    t.size := t.size + 1;
    SetRight(t, rr);
    SetHeightAt(t);
    r := t;
    if Abs(HeightOf(t.left) - HeightOf(t.right)) > 1 {
      r := BalanceRightAt(t);
    }
  }

  method DeletedHere<V>(t: AVLNode<V>, l: AVLNode?<V>, newValue: V, ghost was: Tree<V>) returns (r: AVLNode<V>)
    requires Child(t, l, t.right)
    requires AgreesRight(was, t)
    modifies t
    ensures r.Valid() && r.repr == {t} + old(ReprOf(l)) + old(ReprOf(t.right))
    ensures r.tree == Refresh(was.(left := old(TreeOf(l)), value := newValue))
  {
    t.value := newValue;
    SetLeft(t, l);
    RefreshAt(t);
    r := t;
  }

  method DeletedLeft<V>(t: AVLNode<V>, l: AVLNode?<V>, ghost was: Tree<V>) returns (r: AVLNode<V>)
    requires Child(t, l, t.right)
    requires AgreesRight(was, t)
    requires ShrinkLeft(was, TreeOf(l)).Some?
    modifies t, ReprOf(l), ReprOf(t.right)
    ensures r.Valid() && r.repr == {t} + old(ReprOf(l)) + old(ReprOf(t.right))
    ensures Some(r.tree) == ShrinkLeft(was, old(TreeOf(l)))
  {
    SetLeft(t, l);
    RefreshAt(t);
    r := t;
    if HeightOf(t.left) < HeightOf(t.right) - 1 {
      r := BalanceRightAt(t);
    }
  }

  method DeletedRight<V>(t: AVLNode<V>, rr: AVLNode?<V>, ghost was: Tree<V>) returns (r: AVLNode<V>)
    requires Child(t, t.left, rr)
    requires AgreesLeft(was, t)
    requires ShrinkRight(was, TreeOf(rr)).Some?
    modifies t, ReprOf(t.left), ReprOf(rr)
    ensures r.Valid() && r.repr == {t} + old(ReprOf(t.left)) + old(ReprOf(rr))
    ensures Some(r.tree) == ShrinkRight(was, old(TreeOf(rr)))
  {
    SetRight(t, rr);
    RefreshAt(t);
    r := t;
    if HeightOf(t.right) < HeightOf(t.left) - 1 {
      r := BalanceLeftAt(t);
    }
  }

  /** `insert_aux`; `added` is the node it allocates, if it does. */
  method InsertAux<V>(t: AVLNode?<V>, v: V, cmp: (V, V) -> int)
    returns (r: AVLNode<V>, ghost added: set<AVLNode<V>>)
    requires ValidTree(t) && Insert(TreeOf(t), v, cmp).Some?
    modifies ReprOf(t)
    ensures r.Valid() && fresh(added) && r.repr <= added + old(ReprOf(t))
    ensures Some(r.tree) == Insert(old(TreeOf(t)), v, cmp)
    decreases TreeOf(t)
  {
    if t == null {
      r := new AVLNode(v);
      added := r.repr;
      return;
    }
    var res := cmp(t.value, v);
    ghost var was := t.tree;
    if res > 0 {
      var l;
      l, added := InsertAux(t.left, v, cmp);
      r := InsertedLeft(t, l, was);
    } else if res < 0 {
      var rr;
      rr, added := InsertAux(t.right, v, cmp);
      r := InsertedRight(t, rr, was);
    } else {
      SetValue(t, v);
      r, added := t, {};
    }
  }

  method SearchAux<V>(t: AVLNode?<V>, v: V, cmp: (V, V) -> int) returns (r: Option<V>)
    requires ValidTree(t)
    ensures r == Search(TreeOf(t), v, cmp)
    decreases TreeOf(t)
  {
    if t == null {
      return None;
    }
    var res := cmp(t.value, v);
    if res == 0 {
      r := Some(t.value);
    } else if res > 0 {
      r := SearchAux(t.left, v, cmp);
    } else {
      r := SearchAux(t.right, v, cmp);
    }
  }

  method GetMaxAt<V>(t: AVLNode<V>) returns (m: V)
    requires t.Valid()
    ensures m == GetMax(t.tree)
    decreases t.tree
  {
    if t.right == null {
      m := t.value;
    } else {
      m := GetMaxAt(t.right);
    }
  }

  method DeleteAux<V>(t: AVLNode?<V>, v: V, cmp: (V, V) -> int) returns (r: AVLNode?<V>)
    requires ValidTree(t) && Delete(TreeOf(t), v, cmp).Some?
    modifies ReprOf(t)
    ensures ValidTree(r) && ReprOf(r) <= old(ReprOf(t))
    ensures Some(TreeOf(r)) == Delete(old(TreeOf(t)), v, cmp)
    decreases TreeOf(t)
  {
    if t == null {
      return null;
    }
    var res := cmp(t.value, v);
    ghost var was := t.tree;
    if res == 0 {
      if t.left == null {
        return t.right;
      }
      var newValue := GetMaxAt(t.left);
      var l := DeleteAux(t.left, newValue, cmp);
      r := DeletedHere(t, l, newValue, was);
    } else if res > 0 {
      var l := DeleteAux(t.left, v, cmp);
      r := DeletedLeft(t, l, was);
    } else {
      var rr := DeleteAux(t.right, v, cmp);
      r := DeletedRight(t, rr, was);
    }
  }

  /** `map_aux`; `visited` lists the values `f` was called with, in the order of the calls. */
  method MapAux<V>(t: AVLNode?<V>, f: V -> V) returns (r: AVLNode?<V>, visited: seq<V>)
    requires ValidTree(t)
    modifies ReprOf(t)
    ensures r == t && ValidTree(r) && ReprOf(r) == old(ReprOf(t))
    ensures TreeOf(r) == Map(old(TreeOf(t)), f)
    ensures visited == Postorder(old(TreeOf(t)))
    decreases TreeOf(t), 0
  {
    if t == null {
      return null, [];
    }
    var before := MapLeft(t, f);
    var after := MapRight(t, f);
    visited := before + after + [t.value];
    SetValue(t, f(t.value));
    r := t;
  }

  method MapLeft<V>(t: AVLNode<V>, f: V -> V) returns (visited: seq<V>)
    requires t.Valid()
    modifies t.repr
    ensures t.Valid() && t.repr == old(t.repr) && t.tree == old(t.tree).(left := Map(old(t.tree.left), f))
    ensures visited == Postorder(old(t.tree.left))
    decreases TreeOf(t.left), 1
  {
    var l;
    l, visited := MapAux(t.left, f);
    SetLeft(t, l);
  }

  method MapRight<V>(t: AVLNode<V>, f: V -> V) returns (visited: seq<V>)
    requires t.Valid()
    modifies t.repr
    ensures t.Valid() && t.repr == old(t.repr) && t.tree == old(t.tree).(right := Map(old(t.tree.right), f))
    ensures visited == Postorder(old(t.tree.right))
    decreases TreeOf(t.right), 1
  {
    var rr;
    rr, visited := MapAux(t.right, f);
    SetRight(t, rr);
  }

  /** `struct _AVL`: the root and the comparator it was created with. */
  class AVL<V(!new)> {
    var root: AVLNode?<V>
    const cmp: (V, V) -> int

    ghost predicate Valid()
      reads this, root, ReprOf(root)
    {
      ValidTree(root)
    }

    ghost function Contents(): AvlSpec.Tree<V>
      reads this, root
    {
      TreeOf(root)
    }

    constructor (cmp: (V, V) -> int)
      ensures Valid() && Contents() == Leaf && this.cmp == cmp && root == null
    {
      this.root, this.cmp := null, cmp;
    }

    method Insert(v: V)
      requires Valid() && AvlSpec.Insert(Contents(), v, cmp).Some?
      modifies this, ReprOf(root)
      ensures Valid() && fresh(ReprOf(root) - old(ReprOf(root)))
      ensures Some(Contents()) == AvlSpec.Insert(old(Contents()), v, cmp)
    {
      ghost var added;
      root, added := InsertAux(root, v, cmp);
    }

    method SearchBy(v: V, order: (V, V) -> int) returns (r: Option<V>)
      requires Valid()
      ensures r == AvlSpec.Search(Contents(), v, order)
    {
      r := SearchAux(root, v, order);
    }

    method Delete(v: V)
      requires Valid() && HeightsExact(Contents())
      modifies this, ReprOf(root)
      ensures Valid() && ReprOf(root) <= old(ReprOf(root))
      ensures Some(Contents()) == AvlSpec.Delete(old(Contents()), v, cmp)
    {
      AvlLaws.DeleteFields(Contents(), v, cmp, false);
      root := DeleteAux(root, v, cmp);
    }

    method Map(f: V -> V) returns (visited: seq<V>)
      requires Valid()
      modifies this, ReprOf(root)
      ensures Valid() && ReprOf(root) == old(ReprOf(root))
      ensures Contents() == AvlSpec.Map(old(Contents()), f)
      ensures visited == Postorder(old(Contents()))
    {
      root, visited := MapAux(root, f);
    }
  }
}
