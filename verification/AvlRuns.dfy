/**
 When every run of inserts and deletes goes through: exactly when no seven values differ. With six, the
 tree never grows high enough for a rotation through a missing child.
 */
module AvlRuns {
  import opened Wrappers
  import opened AvlSpec
  import opened AvlLaws
  import opened AvlExamples

  // ---------- six values: the tree stays low

  /** How many values a tree of this height must hold before an insert can make it higher. */
  function Needed(height: int): int {
    if height <= 0 then 0 else if height == 1 then 1 else if height == 2 then 3 else 6
  }

  /** What an insert does to a low tree: it goes through, and only over evenly high subtrees it adds height. */
  ghost predicate Grows<V>(t: Tree<V>, r: Option<Tree<V>>) {
    && r.Some? && r.value.Node? && HeightsExact(r.value) && Height(r.value) <= Height(t) + 1
    && (Height(r.value) > Height(t) ==>
          && Count(t) >= Needed(Height(t)) && Count(r.value) == Count(t) + 1
          && (t.Leaf? || Height(r.value.left) != Height(r.value.right)))
  }

  lemma {:induction false} CountAtLeastHeight<V(!new)>(t: Tree<V>)
    requires HeightsExact(t)
    ensures Count(t) >= Height(t) >= 0
  {
    PositiveBelow(t);
    if t.Node? {
      CountAtLeastHeight(t.left);
      CountAtLeastHeight(t.right);
    }
  }

  /** Two higher on the left, the rotation takes the height back. */
  lemma {:induction false} RotationLowers<V(!new)>(t: Tree<V>, left: Tree<V>)
    requires t.Node? && HeightsExact(t) && Height(t) <= 3 && Grows(t.left, Some(left))
    requires Height(left) >= Height(t.right) + 2
    ensures GrowLeft(t, left).Some? && Height(GrowLeft(t, left).value) <= Height(t)
  {
    PositiveBelow(t);
    PositiveBelow(t.left);
    PositiveBelow(left);
    PositiveBelow(left.left);
    PositiveBelow(left.right);
  }

  lemma {:induction false} LowGrowLeft<V(!new)>(t: Tree<V>, left: Tree<V>)
    requires t.Node? && HeightsExact(t) && Height(t) <= 3 && Grows(t.left, Some(left))
    ensures Grows(t, GrowLeft(t, left))
  {
    PositiveBelow(t);
    PositiveBelow(left);
    CountAtLeastHeight(t.right);
    if Height(left) >= Height(t.right) + 2 {
      RotationLowers(t, left);
      GrowLeftLaws(t, left, false);
    }
  }

  lemma {:induction false} RotationLowersRight<V(!new)>(t: Tree<V>, right: Tree<V>)
    requires t.Node? && HeightsExact(t) && Height(t) <= 3 && Grows(t.right, Some(right))
    requires Height(right) >= Height(t.left) + 2
    ensures GrowRight(t, right).Some? && Height(GrowRight(t, right).value) <= Height(t)
  {
    PositiveBelow(t);
    PositiveBelow(t.right);
    PositiveBelow(right);
    PositiveBelow(right.left);
    PositiveBelow(right.right);
  }

  lemma {:induction false} LowGrowRight<V(!new)>(t: Tree<V>, right: Tree<V>)
    requires t.Node? && HeightsExact(t) && Height(t) <= 3 && Grows(t.right, Some(right))
    ensures Grows(t, GrowRight(t, right))
  {
    PositiveBelow(t);
    PositiveBelow(right);
    CountAtLeastHeight(t.left);
    if Height(right) >= Height(t.left) + 2 {
      RotationLowersRight(t, right);
      GrowRightLaws(t, right, false);
    }
  }

  lemma {:induction false} LowInsert<V(!new)>(t: Tree<V>, v: V, cmp: (V, V) -> int)
    requires HeightsExact(t) && Height(t) <= 3
    ensures Grows(t, Insert(t, v, cmp))
  {
    PositiveBelow(t);
    if t.Node? {
      if cmp(t.value, v) > 0 {
        LowInsert(t.left, v, cmp);
        LowGrowLeft(t, Insert(t.left, v, cmp).value);
      } else if cmp(t.value, v) < 0 {
        LowInsert(t.right, v, cmp);
        LowGrowRight(t, Insert(t.right, v, cmp).value);
      }
    }
  }

  lemma {:induction false} LowDelete<V(!new)>(t: Tree<V>, v: V, cmp: (V, V) -> int)
    requires HeightsExact(t) && Height(t) <= 3
    ensures Delete(t, v, cmp).Some? && Height(Delete(t, v, cmp).value) <= Height(t)
  {
    DeleteFields(t, v, cmp, false);
    PositiveBelow(t);
    if t.Node? {
      if cmp(t.value, v) == 0 {
        if t.left.Node? {
          DeleteFields(t.left, GetMax(t.left), cmp, false);
          LowDelete(t.left, GetMax(t.left), cmp);
        }
      } else if cmp(t.value, v) > 0 {
        DeleteFields(t.left, v, cmp, false);
        LowDelete(t.left, v, cmp);
        LowShrinkLeft(t, Delete(t.left, v, cmp).value);
      } else {
        DeleteFields(t.right, v, cmp, false);
        LowDelete(t.right, v, cmp);
        LowShrinkRight(t, Delete(t.right, v, cmp).value);
      }
    }
  }

  lemma {:induction false} LowShrinkLeft<V(!new)>(t: Tree<V>, left: Tree<V>)
    requires t.Node? && HeightsExact(t) && Height(t) <= 3 && HeightsExact(left) && Height(left) <= Height(t.left)
    ensures ShrinkLeft(t, left).Some? ==> Height(ShrinkLeft(t, left).value) <= Height(t)
  {
    PositiveBelow(t);
    PositiveBelow(left);
    PositiveBelow(t.right);
    if t.right.Node? {
      PositiveBelow(t.right.left);
    }
  }

  lemma {:induction false} LowShrinkRight<V(!new)>(t: Tree<V>, right: Tree<V>)
    requires t.Node? && HeightsExact(t) && Height(t) <= 3 && HeightsExact(right) && Height(right) <= Height(t.right)
    ensures ShrinkRight(t, right).Some? ==> Height(ShrinkRight(t, right).value) <= Height(t)
  {
    PositiveBelow(t);
    PositiveBelow(right);
    PositiveBelow(t.left);
    if t.left.Node? {
      PositiveBelow(t.left.right);
    }
  }

  // ---------- runs over a set of values

  ghost predicate Over<V>(ops: seq<Op<V>>, values: iset<V>) {
    forall op <- ops :: op.v in values
  }

  /** No two of these values share a key. */
  ghost predicate Different<V>(x: seq<V>, cmp: (V, V) -> int) {
    forall i, j :: 0 <= i < j < |x| ==> cmp(x[i], x[j]) != 0
  }

  ghost predicate SevenKeys<V(!new)>(values: iset<V>, cmp: (V, V) -> int) {
    exists x: seq<V> :: SevenOf(x, values, cmp)
  }

  ghost predicate SevenOf<V>(x: seq<V>, values: iset<V>, cmp: (V, V) -> int) {
    |x| == 7 && (forall v <- x :: v in values) && Different(x, cmp)
  }

  lemma {:induction false} ContentFrom<V(!new)>(ops: seq<Op<V>>, values: iset<V>, cmp: (V, V) -> int)
    requires Over(ops, values)
    ensures forall v <- RunContent(ops, cmp) :: v in values
  {
    if ops != [] {
      var before := ops[..|ops| - 1];
      ContentFrom(before, values, cmp);
      assert ops[|ops| - 1] in ops;
      match ops[|ops| - 1]
      case Put(v) => PutSortedMembers(RunContent(before, cmp), v, cmp);
      case Drop(v) => WithoutLaws(RunContent(before, cmp), v, cmp);
    }
  }

  /** A tree that a run leaves holds fewer than seven values if there are no seven keys. */
  lemma {:induction false} AtMostSix<V(!new)>(ops: seq<Op<V>>, values: iset<V>, cmp: (V, V) -> int)
    requires TotalOrder(cmp) && Over(ops, values) && !SevenKeys(values, cmp) && Run(ops, cmp).Some?
    ensures Count(Run(ops, cmp).value) <= 6 && HeightsExact(Run(ops, cmp).value)
  {
    RunLaws(ops, cmp);
    ContentFrom(ops, values, cmp);
    var content := RunContent(ops, cmp);
    CountIsLength(Run(ops, cmp).value);
    if |content| > 6 {
      assert SevenOf(content[..7], values, cmp);
    }
  }

  lemma {:induction false} FewKeysGoThrough<V(!new)>(ops: seq<Op<V>>, values: iset<V>, cmp: (V, V) -> int)
    requires TotalOrder(cmp) && Over(ops, values) && !SevenKeys(values, cmp)
    ensures Run(ops, cmp).Some? && Height(Run(ops, cmp).value) <= 3
  {
    if ops != [] {
      var before := ops[..|ops| - 1];
      FewKeysGoThrough(before, values, cmp);
      AtMostSix(before, values, cmp);
      var t := Run(before, cmp).value;
      match ops[|ops| - 1]
      case Put(v) =>
        LowInsert(t, v, cmp);
        AtMostSix(ops, values, cmp);
      case Drop(v) => LowDelete(t, v, cmp);
    }
  }

  /** Values that share no key, put in order. */
  lemma {:induction false} InSortedOrder<V(!new)>(x: seq<V>, cmp: (V, V) -> int) returns (y: seq<V>)
    requires TotalOrder(cmp) && Different(x, cmp)
    ensures |y| == |x| && Sorted(y, cmp) && forall v <- y :: v in x
  {
    if x == [] {
      y := [];
    } else {
      var rest := InSortedOrder(x[1..], cmp);
      y := PutSorted(rest, x[0], cmp);
      PutSortedSorted(rest, x[0], cmp);
      PutSortedMembers(rest, x[0], cmp);
      PutSortedLength(rest, x[0], cmp);
      if Lookup(rest, x[0], cmp).Some? {
        var v := LookupIsIn(rest, x[0], cmp);
        Flip(cmp, v, x[0]);
        assert false;
      }
    }
  }

  lemma {:induction false} LookupIsIn<V(!new)>(s: seq<V>, v: V, cmp: (V, V) -> int) returns (x: V)
    requires Lookup(s, v, cmp).Some?
    ensures x in s && cmp(x, v) == 0
  {
    if cmp(s[0], v) == 0 {
      x := s[0];
    } else {
      x := LookupIsIn(s[1..], v, cmp);
    }
  }

  /**
   For any set of values: every run of inserts and deletes of them goes through, without a rotation
   through a missing child, if and only if no seven of them differ.
   */
  lemma {:induction false} RunsGoThroughIff<V(!new)>(values: iset<V>, cmp: (V, V) -> int)
    requires TotalOrder(cmp)
    ensures (forall ops: seq<Op<V>> | Over(ops, values) :: Run(ops, cmp).Some?) <==> !SevenKeys(values, cmp)
  {
    if SevenKeys(values, cmp) {
      var x :| SevenOf(x, values, cmp);
      var y := InSortedOrder(x, cmp);
      DeletesLoseBalance(y, cmp);
      OpsLength(y, 9);
      assert Over(FirstOps(y, 9), values);
    } else {
      forall ops: seq<Op<V>> | Over(ops, values) ensures Run(ops, cmp).Some? {
        FewKeysGoThrough(ops, values, cmp);
      }
    }
  }
}
