/**
 When a delete keeps a balanced tree balanced. The code rebalances on the way back along the search
 path, but not at the node that takes its predecessor's value, and it meets a brother with evenly
 high subtrees with a double rotation.
 */
module AvlDeletes {
  import opened Wrappers
  import opened AvlSpec
  import opened AvlLaws

  // ---------- the condition, read off the tree before the call

  /** Lower on the left by one more, the tree would be rebalanced into an unbalanced one. */
  predicate RightTips<V>(t: Tree<V>) {
    && t.Node? && t.right.Node? && t.right.left.Node?
    && Height(t.left) < Height(t.right) && Height(t.right.left) == Height(t.right.right)
    && Height(t.right.left.right) < Height(t.right.left.left)
  }

  predicate LeftTips<V>(t: Tree<V>) {
    && t.Node? && t.left.Node? && t.left.right.Node?
    && Height(t.right) < Height(t.left) && Height(t.left.left) == Height(t.left.right)
    && Height(t.left.right.left) < Height(t.left.right.right)
  }

  /** Lower on the left by one, the tree as a whole becomes lower by one. */
  predicate FallsWithLeft<V>(t: Tree<V>) {
    t.Node? &&
    (Height(t.left) > Height(t.right)
     || (Height(t.left) < Height(t.right) && t.right.Node? && Height(t.right.left) != Height(t.right.right)))
  }

  predicate FallsWithRight<V>(t: Tree<V>) {
    t.Node? &&
    (Height(t.right) > Height(t.left)
     || (Height(t.right) < Height(t.left) && t.left.Node? && Height(t.left.left) != Height(t.left.right)))
  }

  /** Deleting `v` lowers the tree. */
  predicate Shortens<V>(t: Tree<V>, v: V, cmp: (V, V) -> int) {
    t.Node? &&
    if cmp(t.value, v) == 0 then
      t.left.Leaf? || (Shortens(t.left, GetMax(t.left), cmp) && Height(t.left) > Height(t.right))
    else if cmp(t.value, v) > 0 then Shortens(t.left, v, cmp) && FallsWithLeft(t)
    else Shortens(t.right, v, cmp) && FallsWithRight(t)
  }

  /** Deleting `v` unbalances the tree at some node of the search path. */
  predicate Tips<V>(t: Tree<V>, v: V, cmp: (V, V) -> int) {
    t.Node? &&
    if cmp(t.value, v) == 0 then
      t.left.Node? &&
      (Tips(t.left, GetMax(t.left), cmp)
       || (Shortens(t.left, GetMax(t.left), cmp) && Height(t.left) < Height(t.right)))
    else if cmp(t.value, v) > 0 then Tips(t.left, v, cmp) || (Shortens(t.left, v, cmp) && RightTips(t))
    else Tips(t.right, v, cmp) || (Shortens(t.right, v, cmp) && LeftTips(t))
  }

  // ---------- one rebalancing

  /** The right subtree is two higher than the left one: what the rotation makes of it. */
  lemma {:induction false} BalanceRightIff<V(!new)>(u: Tree<V>)
    requires u.Node? && u.right.Node? && Height(u.right) == Height(u.left) + 2
    requires Balanced(u.left) && Balanced(u.right) && HeightsExact(u.left) && HeightsExact(u.right)
    ensures BalanceRight(u).Some?
    ensures Balanced(BalanceRight(u).value) <==> !RightTips(u)
    ensures !RightTips(u) ==>
              Height(BalanceRight(u).value) == Height(u.right) + if Leans(u.right) then 0 else 1
  {
    if Leans(u.right) {
      BalanceRightRestores(u);
    } else {
      var r := u.right;
      HeightsArePositive(u.left);
      PositiveBelow(r);
      PositiveBelow(r.left);
      var outer, inner := r.(left := r.left.right), u.(right := r.left.left);
      RefreshBalanced(inner);
      assert BalanceRight(u).value == Refresh(r.left.(left := Refresh(inner), right := Refresh(outer)));
      if !RightTips(u) {
        RefreshBalanced(outer);
        RefreshBalanced(r.left.(left := Refresh(inner), right := Refresh(outer)));
      }
    }
  }

  lemma BalanceLeftIff<V(!new)>(u: Tree<V>)
    requires u.Node? && u.left.Node? && Height(u.left) == Height(u.right) + 2
    requires Balanced(u.left) && Balanced(u.right) && HeightsExact(u.left) && HeightsExact(u.right)
    ensures BalanceLeft(u).Some?
    ensures Balanced(BalanceLeft(u).value) <==> !LeftTips(u)
    ensures !LeftTips(u) ==>
              Height(BalanceLeft(u).value) == Height(u.left) + if Leans(u.left) then 0 else 1
  {
    if Leans(u.left) {
      BalanceLeftRestores(u);
    } else {
      var l := u.left;
      HeightsArePositive(u.right);
      PositiveBelow(l);
      PositiveBelow(l.right);
      var outer, inner := l.(right := l.right.left), u.(left := l.right.right);
      RefreshBalanced(inner);
      assert BalanceLeft(u).value == Refresh(l.right.(left := Refresh(outer), right := Refresh(inner)));
      if !LeftTips(u) {
        RefreshBalanced(outer);
        RefreshBalanced(l.right.(left := Refresh(outer), right := Refresh(inner)));
      }
    }
  }

  /** A left subtree that came back unbalanced leaves the whole unbalanced, rotated or not. */
  lemma ShrinkLeftNeeds<V(!new)>(t: Tree<V>, left: Tree<V>)
    requires t.Node? && ShrinkLeft(t, left).Some? && Balanced(ShrinkLeft(t, left).value)
    ensures Balanced(left)
  {
    var u := Refresh(t.(left := left));
    if Height(left) < Height(t.right) - 1 && !(Height(t.right.right) > Height(t.right.left)) {
      var r := SimpleRotLeft(u.right);
      assert ShrinkLeft(t, left).value == Refresh(r.(left := Refresh(u.(right := r.left))));
    }
  }

  lemma ShrinkRightNeeds<V(!new)>(t: Tree<V>, right: Tree<V>)
    requires t.Node? && ShrinkRight(t, right).Some? && Balanced(ShrinkRight(t, right).value)
    ensures Balanced(right)
  {
    var u := Refresh(t.(right := right));
    if Height(right) < Height(t.left) - 1 && !(Height(t.left.left) > Height(t.left.right)) {
      var l := SimpleRotRight(u.left);
      assert ShrinkRight(t, right).value == Refresh(l.(right := Refresh(u.(left := l.right))));
    }
  }

  /** Back from the left with a balanced subtree, lower by one or not. */
  lemma {:induction false} ShrinkLeftIff<V(!new)>(t: Tree<V>, left: Tree<V>, lower: bool)
    requires t.Node? && Balanced(t) && HeightsExact(t) && Balanced(left) && HeightsExact(left)
    requires Height(left) == Height(t.left) - if lower then 1 else 0
    ensures ShrinkLeft(t, left).Some?
    ensures Balanced(ShrinkLeft(t, left).value) <==> !(lower && RightTips(t))
    ensures !(lower && RightTips(t)) ==>
              Height(ShrinkLeft(t, left).value) == Height(t) - if lower && FallsWithLeft(t) then 1 else 0
  {
    PositiveBelow(t);
    PositiveBelow(left);
    var u := Refresh(t.(left := left));
    if Height(left) < Height(t.right) - 1 {
      PositiveBelow(t.right);
      BalanceRightIff(u);
    }
  }

  lemma {:induction false} ShrinkRightIff<V(!new)>(t: Tree<V>, right: Tree<V>, lower: bool)
    requires t.Node? && Balanced(t) && HeightsExact(t) && Balanced(right) && HeightsExact(right)
    requires Height(right) == Height(t.right) - if lower then 1 else 0
    ensures ShrinkRight(t, right).Some?
    ensures Balanced(ShrinkRight(t, right).value) <==> !(lower && LeftTips(t))
    ensures !(lower && LeftTips(t)) ==>
              Height(ShrinkRight(t, right).value) == Height(t) - if lower && FallsWithRight(t) then 1 else 0
  {
    PositiveBelow(t);
    PositiveBelow(right);
    var u := Refresh(t.(right := right));
    if Height(right) < Height(t.left) - 1 {
      PositiveBelow(t.left);
      BalanceLeftIff(u);
    }
  }

  // ---------- the theorem

  /** What a delete from `t` that gave `r` did, if it tipped or not. */
  ghost predicate Settles<V>(t: Tree<V>, r: Tree<V>, tips: bool, shortens: bool) {
    && (Balanced(r) <==> !tips)
    && (!tips ==> Height(r) == Height(t) - if shortens then 1 else 0)
  }

  lemma FoundSettles<V(!new)>(t: Tree<V>, left: Tree<V>, m: V, tips: bool, lower: bool)
    requires t.Node? && t.left.Node? && Balanced(t) && HeightsExact(t) && HeightsExact(left)
    requires Settles(t.left, left, tips, lower)
    ensures Settles(t, Refresh(t.(left := left, value := m)), tips || (lower && Height(t.left) < Height(t.right)),
                    lower && Height(t.left) > Height(t.right))
  {
    PositiveBelow(t);
  }

  lemma {:induction false} LeftSettles<V(!new)>(t: Tree<V>, left: Tree<V>, tips: bool, lower: bool)
    requires t.Node? && Balanced(t) && HeightsExact(t) && HeightsExact(left) && ShrinkLeft(t, left).Some?
    requires Settles(t.left, left, tips, lower)
    ensures Settles(t, ShrinkLeft(t, left).value, tips || (lower && RightTips(t)), lower && FallsWithLeft(t))
  {
    if tips {
      if Balanced(ShrinkLeft(t, left).value) {
        ShrinkLeftNeeds(t, left);
      }
    } else {
      ShrinkLeftIff(t, left, lower);
    }
  }

  lemma {:induction false} RightSettles<V(!new)>(t: Tree<V>, right: Tree<V>, tips: bool, lower: bool)
    requires t.Node? && Balanced(t) && HeightsExact(t) && HeightsExact(right) && ShrinkRight(t, right).Some?
    requires Settles(t.right, right, tips, lower)
    ensures Settles(t, ShrinkRight(t, right).value, tips || (lower && LeftTips(t)), lower && FallsWithRight(t))
  {
    if tips {
      if Balanced(ShrinkRight(t, right).value) {
        ShrinkRightNeeds(t, right);
      }
    } else {
      ShrinkRightIff(t, right, lower);
    }
  }

  /**
   A delete from a balanced tree with exact heights leaves it balanced if and only if it does not
   tip, and lowers it by exactly one or not at all.
   */
  lemma {:induction false} DeleteKeepsBalanceIff<V(!new)>(t: Tree<V>, v: V, cmp: (V, V) -> int)
    requires Balanced(t) && HeightsExact(t)
    ensures Delete(t, v, cmp).Some?
    ensures Balanced(Delete(t, v, cmp).value) <==> !Tips(t, v, cmp)
    ensures !Tips(t, v, cmp) ==>
              Height(Delete(t, v, cmp).value) == Height(t) - if Shortens(t, v, cmp) then 1 else 0
    decreases t
  {
    DeleteFields(t, v, cmp, false);
    if t.Node? {
      PositiveBelow(t);
      if cmp(t.value, v) == 0 {
        if t.left.Node? {
          var m := GetMax(t.left);
          DeleteKeepsBalanceIff(t.left, m, cmp);
          DeleteFields(t.left, m, cmp, false);
          FoundSettles(t, Delete(t.left, m, cmp).value, m, Tips(t.left, m, cmp), Shortens(t.left, m, cmp));
        }
      } else if cmp(t.value, v) > 0 {
        DeleteKeepsBalanceIff(t.left, v, cmp);
        DeleteFields(t.left, v, cmp, false);
        LeftSettles(t, Delete(t.left, v, cmp).value, Tips(t.left, v, cmp), Shortens(t.left, v, cmp));
      } else {
        DeleteKeepsBalanceIff(t.right, v, cmp);
        DeleteFields(t.right, v, cmp, false);
        RightSettles(t, Delete(t.right, v, cmp).value, Tips(t.right, v, cmp), Shortens(t.right, v, cmp));
      }
    }
  }

  // ---------- runs

  /** Every operation of the run goes through and leaves a balanced tree. */
  ghost predicate AlwaysBalanced<V>(ops: seq<Op<V>>, cmp: (V, V) -> int) {
    ops != [] ==>
      && AlwaysBalanced(ops[..|ops| - 1], cmp)
      && Run(ops, cmp).Some? && Balanced(Run(ops, cmp).value)
  }

  /** No delete of the run tips the tree it meets. */
  ghost predicate NeverTips<V>(ops: seq<Op<V>>, cmp: (V, V) -> int) {
    ops != [] ==>
      var before, op := ops[..|ops| - 1], ops[|ops| - 1];
      && NeverTips(before, cmp)
      && (op.Drop? && Run(before, cmp).Some? ==> !Tips(Run(before, cmp).value, op.v, cmp))
  }

  /** A run keeps the tree balanced throughout, inserts included, if and only if none of its deletes tips. */
  lemma {:induction false} RunBalancedIff<V(!new)>(ops: seq<Op<V>>, cmp: (V, V) -> int)
    ensures AlwaysBalanced(ops, cmp) <==> NeverTips(ops, cmp)
    ensures AlwaysBalanced(ops, cmp) ==>
              Run(ops, cmp).Some? && Balanced(Run(ops, cmp).value) && HeightsExact(Run(ops, cmp).value)
  {
    if ops != [] {
      var before, op := ops[..|ops| - 1], ops[|ops| - 1];
      RunBalancedIff(before, cmp);
      if AlwaysBalanced(before, cmp) {
        var t := Run(before, cmp).value;
        if op.Put? {
          InsertKeepsBalance(t, op.v, cmp);
        } else {
          DeleteFields(t, op.v, cmp, false);
          DeleteKeepsBalanceIff(t, op.v, cmp);
        }
      }
    }
  }
}
