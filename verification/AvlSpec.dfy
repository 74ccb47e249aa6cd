/**
 What `src/data_structures/avl_tree/avl_tree.c` computes, on trees as values.

 A node keeps the cached `height` and `size` fields of the source. `None` stands
 for a NULL child being dereferenced by a rotation. The class heap in `AvlHeap.dfy`
 refines these functions node by node; the lemmas in `AvlLaws.dfy` are about them.
 */
module AvlSpec {
  import opened Wrappers

  datatype Tree<V> = Leaf | Node(left: Tree<V>, value: V, height: int, size: int, right: Tree<V>)

  function Height<V>(t: Tree<V>): int {
    if t.Leaf? then 0 else t.height
  }

  function Size<V>(t: Tree<V>): int {
    if t.Leaf? then 0 else t.size
  }

  function Max(a: int, b: int): int {
    if a > b then a else b
  }

  function Abs(a: int): int {
    if a < 0 then -a else a
  }

  function SetHeight<V>(t: Tree<V>): (r: Tree<V>)
    requires t.Node?
    ensures r.Node?
  {
    t.(height := 1 + Max(Height(t.left), Height(t.right)))
  }

  function SetSize<V>(t: Tree<V>): (r: Tree<V>)
    requires t.Node?
    ensures r.Node?
  {
    t.(size := 1 + Size(t.left) + Size(t.right))
  }

  function BalanceFactor<V>(t: Tree<V>): int
    requires t.Node?
  {
    Abs(Height(t.left) - Height(t.right))
  }

  // ---------- rotations

  function Refresh<V>(t: Tree<V>): (r: Tree<V>)
    requires t.Node?
    ensures r.Node?
  {
    SetSize(SetHeight(t))
  }

  function SimpleRotLeft<V>(t: Tree<V>): (r: Tree<V>)
    requires t.Node? && t.left.Node?
    ensures r.Node?
  {
    Refresh(t.left.(right := Refresh(t.(left := t.left.right))))
  }

  function SimpleRotRight<V>(t: Tree<V>): (r: Tree<V>)
    requires t.Node? && t.right.Node?
    ensures r.Node?
  {
    Refresh(t.right.(left := Refresh(t.(right := t.right.left))))
  }

  /** `balance_left`, or None when the double rotation has no left-right grandchild to lift. */
  function BalanceLeft<V>(t: Tree<V>): Option<Tree<V>>
    requires t.Node? && t.left.Node?
  {
    if Height(t.left.left) > Height(t.left.right) then Some(SimpleRotLeft(t))
    else if t.left.right.Leaf? then None
    else Some(SimpleRotLeft(t.(left := SimpleRotRight(t.left))))
  }

  function BalanceRight<V>(t: Tree<V>): Option<Tree<V>>
    requires t.Node? && t.right.Node?
  {
    if Height(t.right.right) > Height(t.right.left) then Some(SimpleRotRight(t))
    else if t.right.left.Leaf? then None
    else Some(SimpleRotRight(t.(right := SimpleRotLeft(t.right))))
  }

  // ---------- operations

  /** What an insert does to `t` once its left subtree has become `left`. */
  function GrowLeft<V>(t: Tree<V>, left: Tree<V>): (r: Option<Tree<V>>)
    requires t.Node? && left.Node?
    ensures r.Some? ==> r.value.Node?
  {
    var u := SetHeight(t.(size := t.size + 1, left := left));
    if BalanceFactor(u) > 1 then BalanceLeft(u) else Some(u)
  }

  function GrowRight<V>(t: Tree<V>, right: Tree<V>): (r: Option<Tree<V>>)
    requires t.Node? && right.Node?
    ensures r.Some? ==> r.value.Node?
  {
    var u := SetHeight(t.(size := t.size + 1, right := right));
    if BalanceFactor(u) > 1 then BalanceRight(u) else Some(u)
  }

  /** What a delete does to `t` once its left subtree has become `left`. */
  function ShrinkLeft<V>(t: Tree<V>, left: Tree<V>): Option<Tree<V>>
    requires t.Node?
  {
    var u := Refresh(t.(left := left));
    if Height(u.left) < Height(u.right) - 1
    then if u.right.Leaf? then None else BalanceRight(u)
    else Some(u)
  }

  function ShrinkRight<V>(t: Tree<V>, right: Tree<V>): Option<Tree<V>>
    requires t.Node?
  {
    var u := Refresh(t.(right := right));
    if Height(u.right) < Height(u.left) - 1
    then if u.left.Leaf? then None else BalanceLeft(u)
    else Some(u)
  }

  function Insert<V>(t: Tree<V>, v: V, cmp: (V, V) -> int): (r: Option<Tree<V>>)
    ensures r.Some? ==> r.value.Node?
  {
    if t.Leaf? then Some(Node(Leaf, v, 1, 1, Leaf))
    else if cmp(t.value, v) > 0 then
      match Insert(t.left, v, cmp)
      case None => None
      case Some(left) => GrowLeft(t, left)
    else if cmp(t.value, v) < 0 then
      match Insert(t.right, v, cmp)
      case None => None
      case Some(right) => GrowRight(t, right)
    else Some(t.(value := v))
  }

  function Search<V>(t: Tree<V>, v: V, cmp: (V, V) -> int): Option<V> {
    if t.Leaf? then None
    else if cmp(t.value, v) == 0 then Some(t.value)
    else if cmp(t.value, v) > 0 then Search(t.left, v, cmp)
    else Search(t.right, v, cmp)
  }

  function GetMax<V>(t: Tree<V>): V
    requires t.Node?
  {
    if t.right.Leaf? then t.value else GetMax(t.right)
  }

  function Delete<V>(t: Tree<V>, v: V, cmp: (V, V) -> int): Option<Tree<V>> {
    if t.Leaf? then Some(Leaf)
    else if cmp(t.value, v) == 0 then
      if t.left.Leaf? then Some(t.right)
      else
        match Delete(t.left, GetMax(t.left), cmp)
        case None => None
        case Some(left) => Some(Refresh(t.(left := left, value := GetMax(t.left))))
    else if cmp(t.value, v) > 0 then
      match Delete(t.left, v, cmp)
      case None => None
      case Some(left) => ShrinkLeft(t, left)
    else
      match Delete(t.right, v, cmp)
      case None => None
      case Some(right) => ShrinkRight(t, right)
  }

  /** `map_aux` with a function that returns the value it maps: left subtree, right subtree, node. */
  function Map<V>(t: Tree<V>, f: V -> V): Tree<V> {
    if t.Leaf? then Leaf
    else t.(left := Map(t.left, f), right := Map(t.right, f), value := f(t.value))
  }

  // ---------- reference notions

  /** The values in order. */
  function Inorder<V>(t: Tree<V>): seq<V> {
    if t.Leaf? then [] else Inorder(t.left) + [t.value] + Inorder(t.right)
  }

  /** The order in which `map_aux` visits the values. */
  function Postorder<V>(t: Tree<V>): seq<V> {
    if t.Leaf? then [] else Postorder(t.left) + Postorder(t.right) + [t.value]
  }

  /** What a C comparator owes its users, at three values. */
  ghost predicate OrderLaw<V>(cmp: (V, V) -> int, a: V, b: V, c: V) {
    && cmp(a, a) == 0
    && (cmp(a, b) < 0 <==> cmp(b, a) > 0)
    && (cmp(a, b) <= 0 && cmp(b, c) <= 0 ==> cmp(a, c) <= 0)
  }

  /** A comparator that orders all values, treating those that compare equal as one key. */
  ghost predicate TotalOrder<V(!new)>(cmp: (V, V) -> int) {
    forall a, b, c :: OrderLaw(cmp, a, b, c)
  }

  ghost predicate Sorted<V>(s: seq<V>, cmp: (V, V) -> int) {
    forall i, j :: 0 <= i < j < |s| ==> cmp(s[i], s[j]) < 0
  }

  ghost predicate Ordered<V>(t: Tree<V>, cmp: (V, V) -> int) {
    Sorted(Inorder(t), cmp)
  }

  ghost predicate HeightsExact<V>(t: Tree<V>) {
    t.Leaf? || (HeightsExact(t.left) && HeightsExact(t.right) &&
                t.height == 1 + Max(Height(t.left), Height(t.right)))
  }

  ghost predicate Balanced<V>(t: Tree<V>) {
    t.Leaf? || (Balanced(t.left) && Balanced(t.right) && BalanceFactor(t) <= 1)
  }

  function Count<V>(t: Tree<V>): nat {
    if t.Leaf? then 0 else Count(t.left) + 1 + Count(t.right)
  }

  /** No stored size is below the number of nodes it covers; with `exact`, each is that number. */
  ghost predicate Sizes<V>(t: Tree<V>, exact: bool) {
    t.Leaf? || (Sizes(t.left, exact) && Sizes(t.right, exact) &&
                t.size >= Count(t) && (exact ==> t.size == Count(t)))
  }

  /** The sorted sequence with `v` put in, replacing the value that compares equal if there is one. */
  function PutSorted<V>(s: seq<V>, v: V, cmp: (V, V) -> int): seq<V> {
    if s == [] then [v]
    else if cmp(s[0], v) < 0 then [s[0]] + PutSorted(s[1..], v, cmp)
    else if cmp(s[0], v) == 0 then [v] + s[1..]
    else [v] + s
  }

  /** The sequence without the values that compare equal to `v`. */
  function Without<V>(s: seq<V>, v: V, cmp: (V, V) -> int): seq<V> {
    if s == [] then []
    else if cmp(s[0], v) == 0 then Without(s[1..], v, cmp)
    else [s[0]] + Without(s[1..], v, cmp)
  }

  /** The value of a sequence that compares equal to `v`. */
  function Lookup<V>(s: seq<V>, v: V, cmp: (V, V) -> int): Option<V> {
    if s == [] then None
    else if cmp(s[0], v) == 0 then Some(s[0])
    else Lookup(s[1..], v, cmp)
  }
}
