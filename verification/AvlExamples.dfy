/**
 A run on which the tree of `avl_tree.c` does less than a textbook AVL tree: a delete does not restore
 balance, and an insert into the tree it left fails. Any seven values in order will do.
 */
module AvlExamples {
  import opened Wrappers
  import opened AvlSpec
  import opened AvlLaws
  import opened AvlDeletes

  ghost predicate Seven<V>(x: seq<V>, cmp: (V, V) -> int) {
    |x| == 7 && Sorted(x, cmp)
  }

  /** Seven inserts, a delete of the root, and the insert of a value that is stored. */
  function OpAt<V>(x: seq<V>, n: nat): Op<V>
    requires |x| == 7
  {
    match n
    case 0 => Put(x[2])
    case 1 => Put(x[1])
    case 2 => Put(x[6])
    case 3 => Put(x[4])
    case 4 => Put(x[3])
    case 5 => Put(x[0])
    case 6 => Put(x[5])
    case 7 => Drop(x[2])
    case _ => Put(x[0])
  }

  function FirstOps<V>(x: seq<V>, n: nat): seq<Op<V>>
    requires |x| == 7
  {
    if n == 0 then [] else FirstOps(x, n - 1) + [OpAt(x, n - 1)]
  }

  function One<V>(v: V): Tree<V> {
    Node(Leaf, v, 1, 1, Leaf)
  }

  function Low<V>(x: seq<V>): Tree<V>
    requires |x| == 7
  {
    Node(One(x[0]), x[1], 2, 2, Leaf)
  }

  function Mid<V>(x: seq<V>): Tree<V>
    requires |x| == 7
  {
    Node(One(x[3]), x[4], 2, 3, One(x[6]))
  }

  function High<V>(x: seq<V>): Tree<V>
    requires |x| == 7
  {
    Node(One(x[3]), x[4], 3, 4, Node(One(x[5]), x[6], 2, 2, Leaf))
  }

  /** The tree after the first `n` of these operations. */
  function TreeAt<V>(x: seq<V>, n: nat): Tree<V>
    requires |x| == 7
  {
    match n
    case 0 => Leaf
    case 1 => One(x[2])
    case 2 => Node(One(x[1]), x[2], 2, 2, Leaf)
    case 3 => Node(One(x[1]), x[2], 2, 3, One(x[6]))
    case 4 => Node(One(x[1]), x[2], 3, 4, Node(One(x[4]), x[6], 2, 2, Leaf))
    case 5 => Node(One(x[1]), x[2], 3, 5, Mid(x))
    case 6 => Node(Low(x), x[2], 3, 6, Mid(x))
    case 7 => Node(Low(x), x[2], 4, 7, High(x))
    case _ => Node(One(x[0]), x[1], 4, 6, High(x))
  }

  function Step<V>(t: Tree<V>, op: Op<V>, cmp: (V, V) -> int): Option<Tree<V>> {
    match op
    case Put(v) => Insert(t, v, cmp)
    case Drop(v) => Delete(t, v, cmp)
  }

  lemma {:induction false} IntoLeaf<V>(v: V, cmp: (V, V) -> int)
    ensures Insert(Leaf, v, cmp) == Some(One(v))
  {
  }

  lemma {:induction false} IntoOne<V>(u: V, v: V, cmp: (V, V) -> int)
    requires cmp(u, v) > 0
    ensures Insert(One(u), v, cmp) == Some(Node(One(v), u, 2, 2, Leaf))
  {
    IntoLeaf(v, cmp);
  }

  lemma {:induction false} InOrder<V(!new)>(x: seq<V>, cmp: (V, V) -> int, i: nat, j: nat)
    requires TotalOrder(cmp) && Seven(x, cmp) && i < 7 && j < 7
    ensures i < j ==> cmp(x[i], x[j]) < 0
    ensures i == j ==> cmp(x[i], x[j]) == 0
    ensures i > j ==> cmp(x[i], x[j]) > 0
  {
    Flip(cmp, x[i], x[j]);
  }

  lemma {:induction false} EarlySteps<V(!new)>(x: seq<V>, n: nat, cmp: (V, V) -> int)
    requires TotalOrder(cmp) && Seven(x, cmp) && n < 4
    ensures Step(TreeAt(x, n), OpAt(x, n), cmp) == Some(TreeAt(x, n + 1))
  {
    InOrder(x, cmp, 2, 1);
    InOrder(x, cmp, 6, 4);
    IntoLeaf(OpAt(x, n).v, cmp);
    IntoOne(x[2], x[1], cmp);
    IntoOne(x[6], x[4], cmp);
  }

  lemma {:induction false} Rotates<V(!new)>(x: seq<V>, cmp: (V, V) -> int)
    requires TotalOrder(cmp) && Seven(x, cmp)
    ensures Insert(Node(One(x[4]), x[6], 2, 2, Leaf), x[3], cmp) == Some(Mid(x))
  {
    InOrder(x, cmp, 6, 3);
    InOrder(x, cmp, 4, 3);
    IntoOne(x[4], x[3], cmp);
  }

  lemma {:induction false} MiddleSteps<V(!new)>(x: seq<V>, n: nat, cmp: (V, V) -> int)
    requires TotalOrder(cmp) && Seven(x, cmp) && 4 <= n < 6
    ensures Step(TreeAt(x, n), OpAt(x, n), cmp) == Some(TreeAt(x, n + 1))
  {
    InOrder(x, cmp, 2, 3);
    InOrder(x, cmp, 2, 0);
    InOrder(x, cmp, 1, 0);
    Rotates(x, cmp);
    IntoOne(x[1], x[0], cmp);
  }

  lemma {:induction false} SeventhStep<V(!new)>(x: seq<V>, cmp: (V, V) -> int)
    requires TotalOrder(cmp) && Seven(x, cmp)
    ensures Step(TreeAt(x, 6), OpAt(x, 6), cmp) == Some(TreeAt(x, 7))
  {
    InOrder(x, cmp, 2, 5);
    InOrder(x, cmp, 4, 5);
    InOrder(x, cmp, 6, 5);
    IntoOne(x[6], x[5], cmp);
    assert Insert(Mid(x), x[5], cmp) == Some(High(x));
  }

  lemma {:induction false} EighthStep<V(!new)>(x: seq<V>, cmp: (V, V) -> int)
    requires TotalOrder(cmp) && Seven(x, cmp)
    ensures Step(TreeAt(x, 7), OpAt(x, 7), cmp) == Some(TreeAt(x, 8))
    ensures Tips(TreeAt(x, 7), x[2], cmp)
  {
    InOrder(x, cmp, 2, 2);
    InOrder(x, cmp, 1, 1);
    InOrder(x, cmp, 0, 0);
    assert GetMax(Low(x)) == x[1] && GetMax(One(x[0])) == x[0];
    assert Delete(One(x[0]), x[0], cmp) == Some(Leaf) && Shortens(One(x[0]), x[0], cmp);
    assert Delete(Low(x), x[1], cmp) == Some(One(x[0])) && Shortens(Low(x), x[1], cmp);
  }

  lemma {:induction false} NextStep<V(!new)>(x: seq<V>, n: nat, cmp: (V, V) -> int)
    requires TotalOrder(cmp) && Seven(x, cmp) && n < 8
    ensures Step(TreeAt(x, n), OpAt(x, n), cmp) == Some(TreeAt(x, n + 1))
  {
    if n < 4 {
      EarlySteps(x, n, cmp);
    } else if n < 6 {
      MiddleSteps(x, n, cmp);
    } else if n == 6 {
      SeventhStep(x, cmp);
    } else {
      EighthStep(x, cmp);
    }
  }

  /** The value below the root is stored already; on the way back its parent rotates through a missing child. */
  lemma {:induction false} LastStep<V(!new)>(x: seq<V>, cmp: (V, V) -> int)
    requires TotalOrder(cmp) && Seven(x, cmp)
    ensures Insert(TreeAt(x, 8), x[0], cmp) == None
  {
    InOrder(x, cmp, 1, 0);
    InOrder(x, cmp, 0, 0);
    assert Insert(One(x[0]), x[0], cmp) == Some(One(x[0]));
  }

  lemma {:induction false} RunSnoc<V>(ops: seq<Op<V>>, op: Op<V>, cmp: (V, V) -> int)
    ensures Run(ops + [op], cmp) == if Run(ops, cmp).None? then None else Step(Run(ops, cmp).value, op, cmp)
  {
    assert (ops + [op])[..|ops|] == ops;
  }

  lemma {:induction false} Reaches<V(!new)>(x: seq<V>, n: nat, cmp: (V, V) -> int)
    requires TotalOrder(cmp) && Seven(x, cmp) && n <= 8
    ensures Run(FirstOps(x, n), cmp) == Some(TreeAt(x, n))
  {
    if n > 0 {
      Reaches(x, n - 1, cmp);
      NextStep(x, n - 1, cmp);
      RunSnoc(FirstOps(x, n - 1), OpAt(x, n - 1), cmp);
    }
  }

  lemma {:induction false} OpsLength<V>(x: seq<V>, n: nat)
    requires |x| == 7
    ensures |FirstOps(x, n)| == n
    ensures forall op <- FirstOps(x, n) :: op.v in x
  {
    if n > 0 {
      OpsLength(x, n - 1);
    }
  }

  lemma {:induction false} OneIsBalanced<V>(v: V)
    ensures Balanced(One(v)) && Height(One(v)) == 1
  {
    var t := One(v);
    assert t.left.Leaf? && t.right.Leaf?;
    assert Balanced(t.left) && Balanced(t.right) && BalanceFactor(t) == 0;
  }

  lemma {:induction false} BalanceOf<V>(x: seq<V>)
    requires |x| == 7
    ensures Balanced(TreeAt(x, 7)) && !Balanced(TreeAt(x, 8))
  {
    var low, high, full, left := Low(x), High(x), TreeAt(x, 7), TreeAt(x, 8);
    OneIsBalanced(x[0]);
    OneIsBalanced(x[3]);
    OneIsBalanced(x[5]);
    assert Balanced(low);
    assert BalanceFactor(high.right) == 1 && Balanced(high.right);
    assert BalanceFactor(high) == 1 && Balanced(high);
    assert full.left == low && full.right == high && BalanceFactor(full) == 1;
    assert left.left == One(x[0]) && left.right == high && BalanceFactor(left) == 2;
  }

  /**
   Deletes do not keep balance: after seven inserts, deleting the root leaves a single node beside a
   subtree of height 3. Inserting the value of that node again then rotates through a child that is
   not there.
   */
  lemma {:induction false} DeletesLoseBalance<V(!new)>(x: seq<V>, cmp: (V, V) -> int)
    requires TotalOrder(cmp) && Seven(x, cmp)
    ensures Run(FirstOps(x, 7), cmp).Some? && Balanced(Run(FirstOps(x, 7), cmp).value)
    ensures Tips(Run(FirstOps(x, 7), cmp).value, x[2], cmp)
    ensures Run(FirstOps(x, 8), cmp).Some? && !Balanced(Run(FirstOps(x, 8), cmp).value)
    ensures Run(FirstOps(x, 9), cmp).None?
  {
    Reaches(x, 7, cmp);
    Reaches(x, 8, cmp);
    EighthStep(x, cmp);
    LastStep(x, cmp);
    RunSnoc(FirstOps(x, 8), OpAt(x, 8), cmp);
    BalanceOf(x);
  }

  function Minus(a: int, b: int): int { a - b }

  /** There are such values: the integers from 1 to 7. */
  lemma {:induction false} IntegersLoseBalance()
    ensures Seven([1, 2, 3, 4, 5, 6, 7], Minus)
    ensures Run(FirstOps([1, 2, 3, 4, 5, 6, 7], 9), Minus).None?
  {
    MinusIsOrder();
    DeletesLoseBalance([1, 2, 3, 4, 5, 6, 7], Minus);
  }

  lemma {:induction false} MinusIsOrder()
    ensures TotalOrder(Minus)
  {
    forall a: int, b: int, c: int ensures OrderLaw(Minus, a, b, c) {
    }
  }
}
