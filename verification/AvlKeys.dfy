/** The tree operations look at values only through the comparator: they commute with any change it does not see. */
module AvlKeys {
  import opened Wrappers
  import opened AvlSpec
  import opened AvlLaws

  /** A function that changes of a value only what the comparator does not look at. */
  ghost predicate KeepsKeys<V(!new)>(f: V -> V, cmp: (V, V) -> int) {
    forall v :: cmp(f(v), v) == 0
  }

  lemma {:induction false} SameSign<V(!new)>(f: V -> V, cmp: (V, V) -> int, a: V, b: V)
    requires TotalOrder(cmp) && KeepsKeys(f, cmp)
    ensures cmp(f(a), f(b)) < 0 <==> cmp(a, b) < 0
    ensures cmp(f(a), f(b)) == 0 <==> cmp(a, b) == 0
  {
    assert cmp(f(a), a) == 0 && cmp(f(b), b) == 0;
    Flip(cmp, f(a), a);
    Flip(cmp, f(b), b);
    Transitive(cmp, f(a), a, b);
    Transitive(cmp, f(a), b, f(b));
    Transitive(cmp, a, f(a), f(b));
    Transitive(cmp, a, f(b), b);
  }

  ghost function Mapped<V>(t: Option<Tree<V>>, f: V -> V): Option<Tree<V>> {
    if t.None? then None else Some(Map(t.value, f))
  }

  lemma {:induction false} MapNode<V>(t: Tree<V>, f: V -> V)
    ensures Height(Map(t, f)) == Height(t) && Size(Map(t, f)) == Size(t) && (Map(t, f).Leaf? <==> t.Leaf?)
    ensures t.Node? ==>
      Map(t, f) == t.(left := Map(t.left, f), right := Map(t.right, f), value := f(t.value))
      && Map(Refresh(t), f) == Refresh(Map(t, f))
  {
  }

  lemma {:induction false} RotationsMapped<V>(t: Tree<V>, f: V -> V)
    requires t.Node?
    ensures t.left.Node? ==> Map(t, f).left.Node? && Map(SimpleRotLeft(t), f) == SimpleRotLeft(Map(t, f))
    ensures t.right.Node? ==> Map(t, f).right.Node? && Map(SimpleRotRight(t), f) == SimpleRotRight(Map(t, f))
  {
    MapNode(t, f);
    if t.left.Node? {
      var low := t.(left := t.left.right);
      MapNode(t.left, f);
      MapNode(low, f);
      MapNode(t.left.(right := Refresh(low)), f);
    }
    if t.right.Node? {
      var low := t.(right := t.right.left);
      MapNode(t.right, f);
      MapNode(low, f);
      MapNode(t.right.(left := Refresh(low)), f);
    }
  }

  lemma {:induction false} BalanceMapped<V>(t: Tree<V>, f: V -> V)
    requires t.Node?
    ensures t.left.Node? ==> Map(t, f).left.Node? && BalanceLeft(Map(t, f)) == Mapped(BalanceLeft(t), f)
    ensures t.right.Node? ==> Map(t, f).right.Node? && BalanceRight(Map(t, f)) == Mapped(BalanceRight(t), f)
  {
    MapNode(t, f);
    RotationsMapped(t, f);
    if t.left.Node? {
      MapNode(t.left, f);
      MapNode(t.left.left, f);
      MapNode(t.left.right, f);
      if t.left.right.Node? {
        RotationsMapped(t.left, f);
        MapNode(t.(left := SimpleRotRight(t.left)), f);
        RotationsMapped(t.(left := SimpleRotRight(t.left)), f);
      }
    }
    if t.right.Node? {
      MapNode(t.right, f);
      MapNode(t.right.left, f);
      MapNode(t.right.right, f);
      if t.right.left.Node? {
        RotationsMapped(t.right, f);
        MapNode(t.(right := SimpleRotLeft(t.right)), f);
        RotationsMapped(t.(right := SimpleRotLeft(t.right)), f);
      }
    }
  }

  lemma {:induction false} GrowMapped<V>(t: Tree<V>, u: Tree<V>, f: V -> V)
    requires t.Node? && u.Node?
    ensures GrowLeft(Map(t, f), Map(u, f)) == Mapped(GrowLeft(t, u), f)
    ensures GrowRight(Map(t, f), Map(u, f)) == Mapped(GrowRight(t, u), f)
  {
    var a, b := SetHeight(t.(size := t.size + 1, left := u)), SetHeight(t.(size := t.size + 1, right := u));
    MapNode(t, f);
    MapNode(t.left, f);
    MapNode(t.right, f);
    MapNode(u, f);
    MapNode(a, f);
    MapNode(b, f);
    BalanceMapped(a, f);
    BalanceMapped(b, f);
  }

  /** Inserting a value with the same key into a tree with the same keys gives a tree with the same keys. */
  lemma {:induction false} InsertMapped<V(!new)>(t: Tree<V>, v: V, f: V -> V, cmp: (V, V) -> int)
    requires TotalOrder(cmp) && KeepsKeys(f, cmp)
    ensures Insert(Map(t, f), f(v), cmp) == Mapped(Insert(t, v, cmp), f)
  {
    MapNode(t, f);
    if t.Node? {
      SameSign(f, cmp, t.value, v);
      if cmp(t.value, v) > 0 {
        InsertMapped(t.left, v, f, cmp);
        if Insert(t.left, v, cmp).Some? {
          GrowMapped(t, Insert(t.left, v, cmp).value, f);
        }
      } else if cmp(t.value, v) < 0 {
        InsertMapped(t.right, v, f, cmp);
        if Insert(t.right, v, cmp).Some? {
          GrowMapped(t, Insert(t.right, v, cmp).value, f);
        }
      }
    }
  }

  lemma {:induction false} GetMaxMapped<V>(t: Tree<V>, f: V -> V)
    requires t.Node?
    ensures Map(t, f).Node? && GetMax(Map(t, f)) == f(GetMax(t))
  {
    MapNode(t, f);
    MapNode(t.right, f);
    if t.right.Node? {
      GetMaxMapped(t.right, f);
    }
  }

  lemma {:induction false} ShrinkMapped<V>(t: Tree<V>, u: Tree<V>, f: V -> V)
    requires t.Node?
    ensures ShrinkLeft(Map(t, f), Map(u, f)) == Mapped(ShrinkLeft(t, u), f)
    ensures ShrinkRight(Map(t, f), Map(u, f)) == Mapped(ShrinkRight(t, u), f)
  {
    var a, b := Refresh(t.(left := u)), Refresh(t.(right := u));
    MapNode(t, f);
    MapNode(t.left, f);
    MapNode(t.right, f);
    MapNode(u, f);
    MapNode(t.(left := u), f);
    MapNode(t.(right := u), f);
    BalanceMapped(a, f);
    BalanceMapped(b, f);
  }

  /** And so does deleting one. */
  lemma {:induction false} DeleteMapped<V(!new)>(t: Tree<V>, v: V, f: V -> V, cmp: (V, V) -> int)
    requires TotalOrder(cmp) && KeepsKeys(f, cmp)
    ensures Delete(Map(t, f), f(v), cmp) == Mapped(Delete(t, v, cmp), f)
  {
    MapNode(t, f);
    if t.Node? {
      SameSign(f, cmp, t.value, v);
      MapNode(t.left, f);
      if cmp(t.value, v) == 0 {
        if t.left.Node? {
          var m := GetMax(t.left);
          GetMaxMapped(t.left, f);
          DeleteMapped(t.left, m, f, cmp);
          if Delete(t.left, m, cmp).Some? {
            MapNode(t.(left := Delete(t.left, m, cmp).value, value := m), f);
          }
        }
      } else if cmp(t.value, v) > 0 {
        DeleteMapped(t.left, v, f, cmp);
        if Delete(t.left, v, cmp).Some? {
          ShrinkMapped(t, Delete(t.left, v, cmp).value, f);
        }
      } else {
        DeleteMapped(t.right, v, f, cmp);
        if Delete(t.right, v, cmp).Some? {
          ShrinkMapped(t, Delete(t.right, v, cmp).value, f);
        }
      }
    }
  }
}
