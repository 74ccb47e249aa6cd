/**
 What the operations of `AvlSpec` mean: content, order, exact heights, balance,
 sizes, and when a rotation would go through a missing child.
 */
module AvlLaws {
  import opened Wrappers
  import opened AvlSpec

  // ---------- comparators

  lemma Transitive<V(!new)>(cmp: (V, V) -> int, a: V, b: V, c: V)
    requires TotalOrder(cmp)
    ensures cmp(a, b) < 0 && cmp(b, c) <= 0 ==> cmp(a, c) < 0
    ensures cmp(a, b) <= 0 && cmp(b, c) < 0 ==> cmp(a, c) < 0
    ensures cmp(a, b) == 0 && cmp(b, c) == 0 ==> cmp(a, c) == 0
  {
    assert OrderLaw(cmp, a, b, c) && OrderLaw(cmp, b, c, a) && OrderLaw(cmp, c, a, b);
    assert OrderLaw(cmp, a, c, b) && OrderLaw(cmp, c, b, a) && OrderLaw(cmp, b, a, c);
  }

  lemma Flip<V(!new)>(cmp: (V, V) -> int, a: V, b: V)
    requires TotalOrder(cmp)
    ensures cmp(a, a) == 0
    ensures cmp(a, b) < 0 <==> cmp(b, a) > 0
    ensures cmp(a, b) == 0 <==> cmp(b, a) == 0
  {
    assert OrderLaw(cmp, a, b, a) && OrderLaw(cmp, b, a, b);
  }

  // ---------- sorted sequences

  lemma SortedParts<V(!new)>(a: seq<V>, x: V, b: seq<V>, cmp: (V, V) -> int)
    requires Sorted(a + [x] + b, cmp)
    ensures Sorted(a, cmp) && Sorted(b, cmp)
    ensures forall i :: 0 <= i < |a| ==> cmp(a[i], x) < 0
    ensures forall j :: 0 <= j < |b| ==> cmp(x, b[j]) < 0
  {
    var s := a + [x] + b;
    forall i, j | 0 <= i < j < |a| ensures cmp(a[i], a[j]) < 0 {
      assert s[i] == a[i] && s[j] == a[j];
    }
    forall i, j | 0 <= i < j < |b| ensures cmp(b[i], b[j]) < 0 {
      assert s[|a| + 1 + i] == b[i] && s[|a| + 1 + j] == b[j];
    }
    forall i | 0 <= i < |a| ensures cmp(a[i], x) < 0 {
      assert s[i] == a[i] && s[|a|] == x;
    }
    forall j | 0 <= j < |b| ensures cmp(x, b[j]) < 0 {
      assert s[|a|] == x && s[|a| + 1 + j] == b[j];
    }
  }

  lemma {:induction false} PutBefore<V(!new)>(a: seq<V>, x: V, b: seq<V>, v: V, cmp: (V, V) -> int)
    requires cmp(x, v) > 0
    ensures PutSorted(a + [x] + b, v, cmp) == PutSorted(a, v, cmp) + [x] + b
  {
    if a == [] {
      assert a + [x] + b == [x] + b;
    } else {
      assert a + [x] + b == [a[0]] + (a[1..] + [x] + b);
      PutBefore(a[1..], x, b, v, cmp);
    }
  }

  lemma {:induction false} PutAfter<V(!new)>(a: seq<V>, x: V, b: seq<V>, v: V, cmp: (V, V) -> int)
    requires TotalOrder(cmp)
    requires forall i :: 0 <= i < |a| ==> cmp(a[i], x) < 0
    requires cmp(x, v) < 0
    ensures PutSorted(a + [x] + b, v, cmp) == a + [x] + PutSorted(b, v, cmp)
  {
    if a == [] {
      assert a + [x] + b == [x] + b;
      assert ([x] + b)[1..] == b;
    } else {
      assert a + [x] + b == [a[0]] + (a[1..] + [x] + b);
      Transitive(cmp, a[0], x, v);
      PutAfter(a[1..], x, b, v, cmp);
    }
  }

  lemma {:induction false} PutAt<V(!new)>(a: seq<V>, x: V, b: seq<V>, v: V, cmp: (V, V) -> int)
    requires TotalOrder(cmp)
    requires forall i :: 0 <= i < |a| ==> cmp(a[i], x) < 0
    requires cmp(x, v) == 0
    ensures PutSorted(a + [x] + b, v, cmp) == a + [v] + b
  {
    if a == [] {
      assert a + [x] + b == [x] + b;
      assert ([x] + b)[1..] == b;
    } else {
      assert a + [x] + b == [a[0]] + (a[1..] + [x] + b);
      Transitive(cmp, a[0], x, v);
      PutAt(a[1..], x, b, v, cmp);
    }
  }

  lemma {:induction false} WithoutConcat<V(!new)>(a: seq<V>, b: seq<V>, v: V, cmp: (V, V) -> int)
    ensures Without(a + b, v, cmp) == Without(a, v, cmp) + Without(b, v, cmp)
  {
    if a == [] {
      assert a + b == b;
    } else {
      assert a + b == [a[0]] + (a[1..] + b);
      WithoutConcat(a[1..], b, v, cmp);
    }
  }

  lemma {:induction false} WithoutNone<V(!new)>(a: seq<V>, v: V, cmp: (V, V) -> int)
    requires forall i :: 0 <= i < |a| ==> cmp(a[i], v) != 0
    ensures Without(a, v, cmp) == a
  {
    if a != [] {
      WithoutNone(a[1..], v, cmp);
    }
  }

  lemma {:induction false} LookupConcat<V(!new)>(a: seq<V>, b: seq<V>, v: V, cmp: (V, V) -> int)
    ensures Lookup(a + b, v, cmp) == if Lookup(a, v, cmp).Some? then Lookup(a, v, cmp) else Lookup(b, v, cmp)
  {
    if a == [] {
      assert a + b == b;
    } else {
      assert a + b == [a[0]] + (a[1..] + b);
      LookupConcat(a[1..], b, v, cmp);
    }
  }

  lemma {:induction false} LookupNone<V(!new)>(a: seq<V>, v: V, cmp: (V, V) -> int)
    requires forall i :: 0 <= i < |a| ==> cmp(a[i], v) != 0
    ensures Lookup(a, v, cmp).None?
  {
    if a != [] {
      LookupNone(a[1..], v, cmp);
    }
  }

  lemma {:induction false} PutSortedMembers<V(!new)>(s: seq<V>, v: V, cmp: (V, V) -> int)
    ensures v in PutSorted(s, v, cmp)
    ensures forall x :: x in PutSorted(s, v, cmp) ==> x == v || x in s
    ensures forall x :: x in s && cmp(x, v) != 0 ==> x in PutSorted(s, v, cmp)
  {
    if s != [] && cmp(s[0], v) < 0 {
      PutSortedMembers(s[1..], v, cmp);
    }
  }

  /** Putting a value into a sorted sequence keeps it sorted. */
  lemma {:induction false} PutSortedSorted<V(!new)>(s: seq<V>, v: V, cmp: (V, V) -> int)
    requires TotalOrder(cmp) && Sorted(s, cmp)
    ensures Sorted(PutSorted(s, v, cmp), cmp)
  {
    if s != [] {
      assert Sorted(s[1..], cmp);
      if cmp(s[0], v) < 0 {
        PutSortedSorted(s[1..], v, cmp);
        PutSortedMembers(s[1..], v, cmp);
        var r := PutSorted(s[1..], v, cmp);
        forall j | 0 <= j < |r| ensures cmp(s[0], r[j]) < 0 {
          assert r[j] in r;
        }
      } else {
        forall j | 1 <= j < |s| ensures cmp(v, s[j]) < 0 {
          Flip(cmp, s[0], v);
          Transitive(cmp, v, s[0], s[j]);
        }
        Flip(cmp, s[0], v);
      }
    }
  }

  /** After a put, the new value is the one found under its key, and every other key finds what it did. */
  lemma {:induction false} PutSortedLookup<V(!new)>(s: seq<V>, v: V, w: V, cmp: (V, V) -> int)
    requires TotalOrder(cmp) && Sorted(s, cmp)
    ensures Lookup(PutSorted(s, v, cmp), w, cmp) == if cmp(v, w) == 0 then Some(v) else Lookup(s, w, cmp)
  {
    if s == [] {
    } else {
      assert Sorted(s[1..], cmp);
      Flip(cmp, s[0], v);
      Transitive(cmp, v, s[0], w);
      Transitive(cmp, s[0], v, w);
      if cmp(s[0], v) < 0 {
        Flip(cmp, w, s[0]);
        Transitive(cmp, s[0], w, v);
        Flip(cmp, v, w);
        PutSortedLookup(s[1..], v, w, cmp);
      } else if cmp(s[0], v) == 0 {
        assert ([v] + s[1..])[1..] == s[1..];
      } else {
        assert ([v] + s)[1..] == s;
      }
    }
  }

  lemma {:induction false} PutSortedLength<V(!new)>(s: seq<V>, v: V, cmp: (V, V) -> int)
    requires TotalOrder(cmp) && Sorted(s, cmp)
    ensures |PutSorted(s, v, cmp)| == |s| + if Lookup(s, v, cmp).Some? then 0 else 1
  {
    if s != [] {
      if cmp(s[0], v) < 0 {
        assert Sorted(s[1..], cmp);
        PutSortedLength(s[1..], v, cmp);
      } else if cmp(s[0], v) > 0 {
        forall i | 0 <= i < |s| ensures cmp(s[i], v) != 0 {
          Flip(cmp, s[0], v);
          Transitive(cmp, v, s[0], s[i]);
          Flip(cmp, v, s[i]);
        }
        LookupNone(s, v, cmp);
      }
    }
  }

  /** Taking a key out of a sorted sequence loses the value of that key and nothing else. */
  lemma {:induction false} WithoutLaws<V(!new)>(s: seq<V>, v: V, cmp: (V, V) -> int)
    ensures forall x :: x in Without(s, v, cmp) <==> x in s && cmp(x, v) != 0
    ensures Sorted(s, cmp) ==> Sorted(Without(s, v, cmp), cmp)
  {
    if s != [] {
      WithoutLaws(s[1..], v, cmp);
      if Sorted(s, cmp) {
        assert Sorted(s[1..], cmp);
        var r := Without(s[1..], v, cmp);
        forall j | 0 <= j < |r| ensures cmp(s[0], r[j]) < 0 {
          assert r[j] in r;
        }
      }
    }
  }

  // ---------- heights

  lemma {:induction false} HeightsArePositive<V(!new)>(t: Tree<V>)
    requires HeightsExact(t)
    ensures Height(t) >= 0 && (Height(t) == 0 <==> t.Leaf?)
  {
    if t.Node? {
      HeightsArePositive(t.left);
      HeightsArePositive(t.right);
    }
  }

  lemma PositiveBelow<V(!new)>(t: Tree<V>)
    requires HeightsExact(t)
    ensures t.Leaf? ==> Height(t) == 0
    ensures t.Node? ==> Height(t) > 0
    ensures t.Node? ==> Height(t.left) >= 0 && (Height(t.left) == 0 <==> t.left.Leaf?)
    ensures t.Node? ==> Height(t.right) >= 0 && (Height(t.right) == 0 <==> t.right.Leaf?)
  {
    HeightsArePositive(t);
    if t.Node? {
      HeightsArePositive(t.left);
      HeightsArePositive(t.right);
    }
  }

  // ---------- rotations

  lemma RefreshLaws<V(!new)>(t: Tree<V>, exact: bool)
    requires t.Node?
    ensures Inorder(Refresh(t)) == Inorder(t)
    ensures HeightsExact(t.left) && HeightsExact(t.right) ==> HeightsExact(Refresh(t))
    ensures Sizes(t.left, exact) && Sizes(t.right, exact) ==> Sizes(Refresh(t), exact)
  {
  }

  lemma RotLeftLaws<V(!new)>(t: Tree<V>, exact: bool)
    requires t.Node? && t.left.Node?
    ensures Inorder(SimpleRotLeft(t)) == Inorder(t)
    ensures HeightsExact(t.left) && HeightsExact(t.right) ==> HeightsExact(SimpleRotLeft(t))
    ensures Sizes(t.left, exact) && Sizes(t.right, exact) ==> Sizes(SimpleRotLeft(t), exact)
  {
    var l := t.left;
    var low := t.(left := l.right);
    RefreshLaws(low, exact);
    RefreshLaws(l.(right := Refresh(low)), exact);
    var a, b, c := Inorder(l.left), Inorder(l.right), Inorder(t.right);
    assert Inorder(t) == (a + [l.value] + b) + [t.value] + c;
    assert Inorder(l.(right := Refresh(low))) == a + [l.value] + (b + [t.value] + c);
  }

  lemma RotRightLaws<V(!new)>(t: Tree<V>, exact: bool)
    requires t.Node? && t.right.Node?
    ensures Inorder(SimpleRotRight(t)) == Inorder(t)
    ensures HeightsExact(t.left) && HeightsExact(t.right) ==> HeightsExact(SimpleRotRight(t))
    ensures Sizes(t.left, exact) && Sizes(t.right, exact) ==> Sizes(SimpleRotRight(t), exact)
  {
    var r := t.right;
    var low := t.(right := r.left);
    RefreshLaws(low, exact);
    RefreshLaws(r.(left := Refresh(low)), exact);
    var a, b, c := Inorder(t.left), Inorder(r.left), Inorder(r.right);
    assert Inorder(t) == a + [t.value] + (b + [r.value] + c);
    assert Inorder(r.(left := Refresh(low))) == (a + [t.value] + b) + [r.value] + c;
  }

  lemma {:induction false} BalanceLeftLaws<V(!new)>(t: Tree<V>, exact: bool)
    requires t.Node? && t.left.Node? && BalanceLeft(t).Some?
    ensures BalanceLeft(t).value.Node? && Inorder(BalanceLeft(t).value) == Inorder(t)
    ensures HeightsExact(t.left) && HeightsExact(t.right) ==> HeightsExact(BalanceLeft(t).value)
    ensures Sizes(t.left, exact) && Sizes(t.right, exact) ==> Sizes(BalanceLeft(t).value, exact)
  {
    if Height(t.left.left) > Height(t.left.right) {
      RotLeftLaws(t, exact);
    } else {
      RotRightLaws(t.left, exact);
      RotLeftLaws(t.(left := SimpleRotRight(t.left)), exact);
    }
  }

  lemma {:induction false} BalanceRightLaws<V(!new)>(t: Tree<V>, exact: bool)
    requires t.Node? && t.right.Node? && BalanceRight(t).Some?
    ensures BalanceRight(t).value.Node? && Inorder(BalanceRight(t).value) == Inorder(t)
    ensures HeightsExact(t.left) && HeightsExact(t.right) ==> HeightsExact(BalanceRight(t).value)
    ensures Sizes(t.left, exact) && Sizes(t.right, exact) ==> Sizes(BalanceRight(t).value, exact)
  {
    if Height(t.right.right) > Height(t.right.left) {
      RotRightLaws(t, exact);
    } else {
      RotLeftLaws(t.right, exact);
      RotRightLaws(t.(right := SimpleRotLeft(t.right)), exact);
    }
  }

  /** An insert that came back from the left subtree with `left`. */
  lemma {:induction false} GrowLeftLaws<V(!new)>(t: Tree<V>, left: Tree<V>, exact: bool)
    requires t.Node? && left.Node? && GrowLeft(t, left).Some?
    ensures Inorder(GrowLeft(t, left).value) == Inorder(left) + [t.value] + Inorder(t.right)
    ensures HeightsExact(left) && HeightsExact(t.right) ==> HeightsExact(GrowLeft(t, left).value)
    ensures Sizes(left, exact) && Sizes(t.right, exact)
            && t.size >= Count(left) + Count(t.right) && (exact ==> t.size == Count(left) + Count(t.right))
            ==> Sizes(GrowLeft(t, left).value, exact)
  {
    GrowLeftContent(t, left);
    GrowLeftHeights(t, left);
    if Sizes(left, exact) && Sizes(t.right, exact)
       && t.size >= Count(left) + Count(t.right) && (exact ==> t.size == Count(left) + Count(t.right)) {
      GrowLeftSizes(t, left, exact);
    }
  }

  lemma {:induction false} GrowLeftContent<V(!new)>(t: Tree<V>, left: Tree<V>)
    requires t.Node? && left.Node? && GrowLeft(t, left).Some?
    ensures Inorder(GrowLeft(t, left).value) == Inorder(left) + [t.value] + Inorder(t.right)
  {
    var u := SetHeight(t.(size := t.size + 1, left := left));
    if BalanceFactor(u) > 1 {
      BalanceLeftLaws(u, false);
    }
  }

  lemma {:induction false} GrowLeftHeights<V(!new)>(t: Tree<V>, left: Tree<V>)
    requires t.Node? && left.Node? && GrowLeft(t, left).Some?
    ensures HeightsExact(left) && HeightsExact(t.right) ==> HeightsExact(GrowLeft(t, left).value)
  {
    var u := SetHeight(t.(size := t.size + 1, left := left));
    if BalanceFactor(u) > 1 {
      BalanceLeftLaws(u, false);
    }
  }

  lemma BalanceLeftSizes<V(!new)>(t: Tree<V>, r: Tree<V>, exact: bool)
    requires t.Node? && t.left.Node? && BalanceLeft(t) == Some(r)
    requires Sizes(t.left, exact) && Sizes(t.right, exact)
    ensures Sizes(r, exact)
  {
    BalanceLeftLaws(t, exact);
  }

  lemma {:induction false} GrowLeftSizes<V(!new)>(t: Tree<V>, left: Tree<V>, exact: bool)
    requires t.Node? && left.Node? && GrowLeft(t, left).Some?
    requires Sizes(left, exact) && Sizes(t.right, exact)
    requires t.size >= Count(left) + Count(t.right) && (exact ==> t.size == Count(left) + Count(t.right))
    ensures Sizes(GrowLeft(t, left).value, exact)
  {
    var u := SetHeight(t.(size := t.size + 1, left := left));
    assert u.left == left && u.right == t.right && u.size == t.size + 1;
    var r := GrowLeft(t, left).value;
    if r != u {
      assert Some(r) == BalanceLeft(u);
      BalanceLeftSizes(u, r, exact);
    }
  }

  lemma {:induction false} GrowRightLaws<V(!new)>(t: Tree<V>, right: Tree<V>, exact: bool)
    requires t.Node? && right.Node? && GrowRight(t, right).Some?
    ensures Inorder(GrowRight(t, right).value) == Inorder(t.left) + [t.value] + Inorder(right)
    ensures HeightsExact(t.left) && HeightsExact(right) ==> HeightsExact(GrowRight(t, right).value)
    ensures Sizes(t.left, exact) && Sizes(right, exact)
            && t.size >= Count(t.left) + Count(right) && (exact ==> t.size == Count(t.left) + Count(right))
            ==> Sizes(GrowRight(t, right).value, exact)
  {
    GrowRightContent(t, right);
    GrowRightHeights(t, right);
    if Sizes(t.left, exact) && Sizes(right, exact)
       && t.size >= Count(t.left) + Count(right) && (exact ==> t.size == Count(t.left) + Count(right)) {
      GrowRightSizes(t, right, exact);
    }
  }

  lemma {:induction false} GrowRightContent<V(!new)>(t: Tree<V>, right: Tree<V>)
    requires t.Node? && right.Node? && GrowRight(t, right).Some?
    ensures Inorder(GrowRight(t, right).value) == Inorder(t.left) + [t.value] + Inorder(right)
  {
    var u := SetHeight(t.(size := t.size + 1, right := right));
    if BalanceFactor(u) > 1 {
      BalanceRightLaws(u, false);
    }
  }

  lemma {:induction false} GrowRightHeights<V(!new)>(t: Tree<V>, right: Tree<V>)
    requires t.Node? && right.Node? && GrowRight(t, right).Some?
    ensures HeightsExact(t.left) && HeightsExact(right) ==> HeightsExact(GrowRight(t, right).value)
  {
    var u := SetHeight(t.(size := t.size + 1, right := right));
    if BalanceFactor(u) > 1 {
      BalanceRightLaws(u, false);
    }
  }

  lemma BalanceRightSizes<V(!new)>(t: Tree<V>, r: Tree<V>, exact: bool)
    requires t.Node? && t.right.Node? && BalanceRight(t) == Some(r)
    requires Sizes(t.left, exact) && Sizes(t.right, exact)
    ensures Sizes(r, exact)
  {
    BalanceRightLaws(t, exact);
  }

  lemma {:induction false} GrowRightSizes<V(!new)>(t: Tree<V>, right: Tree<V>, exact: bool)
    requires t.Node? && right.Node? && GrowRight(t, right).Some?
    requires Sizes(t.left, exact) && Sizes(right, exact)
    requires t.size >= Count(t.left) + Count(right) && (exact ==> t.size == Count(t.left) + Count(right))
    ensures Sizes(GrowRight(t, right).value, exact)
  {
    var u := SetHeight(t.(size := t.size + 1, right := right));
    assert u.left == t.left && u.right == right && u.size == t.size + 1;
    var r := GrowRight(t, right).value;
    if r != u {
      assert Some(r) == BalanceRight(u);
      BalanceRightSizes(u, r, exact);
    }
  }

  /** A delete that came back from the left subtree with `left`. */
  lemma {:induction false} ShrinkLeftLaws<V(!new)>(t: Tree<V>, left: Tree<V>, exact: bool)
    requires t.Node?
    ensures HeightsExact(left) && HeightsExact(t.right) ==> ShrinkLeft(t, left).Some?
    ensures ShrinkLeft(t, left).Some? ==>
      var r := ShrinkLeft(t, left).value;
      && Inorder(r) == Inorder(left) + [t.value] + Inorder(t.right)
      && (HeightsExact(left) && HeightsExact(t.right) ==> HeightsExact(r))
      && (Sizes(left, exact) && Sizes(t.right, exact) ==> Sizes(r, exact))
  {
    var u := Refresh(t.(left := left));
    RefreshLaws(t.(left := left), exact);
    if HeightsExact(left) && HeightsExact(t.right) {
      PositiveBelow(left);
      PositiveBelow(t.right);
    }
    if Height(left) < Height(t.right) - 1 && t.right.Node? && BalanceRight(u).Some? {
      BalanceRightLaws(u, exact);
    }
  }

  lemma {:induction false} ShrinkRightLaws<V(!new)>(t: Tree<V>, right: Tree<V>, exact: bool)
    requires t.Node?
    ensures HeightsExact(t.left) && HeightsExact(right) ==> ShrinkRight(t, right).Some?
    ensures ShrinkRight(t, right).Some? ==>
      var r := ShrinkRight(t, right).value;
      && Inorder(r) == Inorder(t.left) + [t.value] + Inorder(right)
      && (HeightsExact(t.left) && HeightsExact(right) ==> HeightsExact(r))
      && (Sizes(t.left, exact) && Sizes(right, exact) ==> Sizes(r, exact))
  {
    var u := Refresh(t.(right := right));
    RefreshLaws(t.(right := right), exact);
    if HeightsExact(t.left) && HeightsExact(right) {
      PositiveBelow(t.left);
      PositiveBelow(right);
    }
    if Height(right) < Height(t.left) - 1 && t.left.Node? && BalanceLeft(u).Some? {
      BalanceLeftLaws(u, exact);
    }
  }

  // ---------- content

  /** Whenever an insert goes through, the tree holds the old content with the new value put in, in order. */
  lemma {:induction false} InsertContent<V(!new)>(t: Tree<V>, v: V, cmp: (V, V) -> int)
    requires TotalOrder(cmp) && Ordered(t, cmp)
    requires Insert(t, v, cmp).Some?
    ensures Inorder(Insert(t, v, cmp).value) == PutSorted(Inorder(t), v, cmp)
    ensures Ordered(Insert(t, v, cmp).value, cmp)
  {
    if t.Node? {
      SortedParts(Inorder(t.left), t.value, Inorder(t.right), cmp);
      if cmp(t.value, v) > 0 {
        InsertContent(t.left, v, cmp);
        PutBefore(Inorder(t.left), t.value, Inorder(t.right), v, cmp);
        GrowLeftLaws(t, Insert(t.left, v, cmp).value, false);
      } else if cmp(t.value, v) < 0 {
        InsertContent(t.right, v, cmp);
        PutAfter(Inorder(t.left), t.value, Inorder(t.right), v, cmp);
        GrowRightLaws(t, Insert(t.right, v, cmp).value, false);
      } else {
        PutAt(Inorder(t.left), t.value, Inorder(t.right), v, cmp);
      }
    }
    PutSortedSorted(Inorder(t), v, cmp);
  }

  /** Searching an ordered tree is looking the value up in its content, for every key. */
  lemma {:induction false} SearchIsLookup<V(!new)>(t: Tree<V>, v: V, cmp: (V, V) -> int)
    requires TotalOrder(cmp) && Ordered(t, cmp)
    ensures Search(t, v, cmp) == Lookup(Inorder(t), v, cmp)
  {
    if t.Node? {
      var a, b := Inorder(t.left), Inorder(t.right);
      SortedParts(a, t.value, b, cmp);
      LookupConcat(a + [t.value], b, v, cmp);
      LookupConcat(a, [t.value], v, cmp);
      assert [t.value][1..] == [];
      if cmp(t.value, v) > 0 {
        forall j | 0 <= j < |b| ensures cmp(b[j], v) != 0 {
          Flip(cmp, v, t.value);
          Transitive(cmp, v, t.value, b[j]);
          Flip(cmp, v, b[j]);
        }
        LookupNone(b, v, cmp);
        SearchIsLookup(t.left, v, cmp);
      } else {
        forall i | 0 <= i < |a| ensures cmp(a[i], v) != 0 {
          Transitive(cmp, a[i], t.value, v);
        }
        LookupNone(a, v, cmp);
        if cmp(t.value, v) < 0 {
          SearchIsLookup(t.right, v, cmp);
        }
      }
    }
  }

  lemma {:induction false} GetMaxIsLast<V(!new)>(t: Tree<V>)
    requires t.Node?
    ensures |Inorder(t)| > 0 && GetMax(t) == Inorder(t)[|Inorder(t)| - 1]
  {
    if t.right.Node? {
      GetMaxIsLast(t.right);
    }
  }

  /** In a sorted sequence, dropping the key of the last value drops the last position. */
  lemma {:induction false} WithoutLast<V(!new)>(a: seq<V>, cmp: (V, V) -> int)
    requires TotalOrder(cmp) && Sorted(a, cmp) && a != []
    ensures Without(a, a[|a| - 1], cmp) == a[..|a| - 1]
  {
    var m, rest := a[|a| - 1], a[..|a| - 1];
    Flip(cmp, m, m);
    assert a == rest + [m];
    WithoutConcat(rest, [m], m, cmp);
    assert [m][1..] == [];
    forall i | 0 <= i < |rest| ensures cmp(rest[i], m) != 0 {
      assert rest[i] == a[i];
    }
    WithoutNone(rest, m, cmp);
  }

  lemma WithoutThree<V(!new)>(a: seq<V>, x: V, b: seq<V>, v: V, cmp: (V, V) -> int)
    ensures cmp(x, v) == 0 ==> Without(a + [x] + b, v, cmp) == Without(a, v, cmp) + Without(b, v, cmp)
    ensures cmp(x, v) != 0 ==> Without(a + [x] + b, v, cmp) == Without(a, v, cmp) + [x] + Without(b, v, cmp)
  {
    WithoutConcat(a + [x], b, v, cmp);
    WithoutConcat(a, [x], v, cmp);
    assert [x][1..] == [];
  }

  lemma WithoutAbove<V(!new)>(a: seq<V>, x: V, v: V, cmp: (V, V) -> int)
    requires TotalOrder(cmp) && cmp(x, v) >= 0 && forall j :: 0 <= j < |a| ==> cmp(x, a[j]) < 0
    ensures Without(a, v, cmp) == a
  {
    forall j | 0 <= j < |a| ensures cmp(a[j], v) != 0 {
      Flip(cmp, v, x);
      Transitive(cmp, v, x, a[j]);
      Flip(cmp, v, a[j]);
    }
    WithoutNone(a, v, cmp);
  }

  lemma WithoutBelow<V(!new)>(a: seq<V>, x: V, v: V, cmp: (V, V) -> int)
    requires TotalOrder(cmp) && cmp(x, v) <= 0 && forall i :: 0 <= i < |a| ==> cmp(a[i], x) < 0
    ensures Without(a, v, cmp) == a
  {
    forall i | 0 <= i < |a| ensures cmp(a[i], v) != 0 {
      Transitive(cmp, a[i], x, v);
    }
    WithoutNone(a, v, cmp);
  }

  /** Where the key of `v` can be in a sorted sequence split at `x`. */
  lemma WithoutSplit<V(!new)>(a: seq<V>, x: V, b: seq<V>, v: V, cmp: (V, V) -> int)
    requires TotalOrder(cmp) && Sorted(a + [x] + b, cmp)
    ensures cmp(x, v) == 0 ==> Without(a + [x] + b, v, cmp) == a + b
    ensures cmp(x, v) > 0 ==> Without(a + [x] + b, v, cmp) == Without(a, v, cmp) + [x] + b
    ensures cmp(x, v) < 0 ==> Without(a + [x] + b, v, cmp) == a + [x] + Without(b, v, cmp)
  {
    SortedParts(a, x, b, cmp);
    WithoutThree(a, x, b, v, cmp);
    if cmp(x, v) >= 0 {
      WithoutAbove(b, x, v, cmp);
    }
    if cmp(x, v) <= 0 {
      WithoutBelow(a, x, v, cmp);
    }
  }

  /** On any ordered tree, balanced or not, a delete that goes through removes exactly the given key. */
  lemma {:induction false} DeleteContent<V(!new)>(t: Tree<V>, v: V, cmp: (V, V) -> int)
    requires TotalOrder(cmp) && Ordered(t, cmp)
    requires Delete(t, v, cmp).Some?
    ensures Inorder(Delete(t, v, cmp).value) == Without(Inorder(t), v, cmp)
    ensures Ordered(Delete(t, v, cmp).value, cmp)
    decreases t
  {
    if t.Node? {
      var a, b := Inorder(t.left), Inorder(t.right);
      SortedParts(a, t.value, b, cmp);
      WithoutSplit(a, t.value, b, v, cmp);
      if cmp(t.value, v) == 0 {
        if t.left.Node? {
          var m := GetMax(t.left);
          GetMaxIsLast(t.left);
          DeleteContent(t.left, m, cmp);
          WithoutLast(a, cmp);
          RefreshLaws(t.(left := Delete(t.left, m, cmp).value, value := m), false);
          assert a[..|a| - 1] + [m] == a;
        }
      } else if cmp(t.value, v) > 0 {
        DeleteContent(t.left, v, cmp);
        ShrinkLeftLaws(t, Delete(t.left, v, cmp).value, false);
      } else {
        DeleteContent(t.right, v, cmp);
        ShrinkRightLaws(t, Delete(t.right, v, cmp).value, false);
      }
    }
    WithoutLaws(Inorder(t), v, cmp);
  }

  // ---------- heights and sizes

  lemma {:induction false} CountIsLength<V(!new)>(t: Tree<V>)
    ensures Count(t) == |Inorder(t)|
  {
    if t.Node? {
      CountIsLength(t.left);
      CountIsLength(t.right);
    }
  }

  /**
   Under every completed insert heights stay exact and no stored size falls below the number
   of nodes; sizes that were exact stay exact when the value had no equal in the tree.
   */
  lemma {:induction false} InsertFields<V(!new)>(t: Tree<V>, v: V, cmp: (V, V) -> int, exact: bool)
    requires TotalOrder(cmp) && Ordered(t, cmp)
    requires Insert(t, v, cmp).Some?
    ensures HeightsExact(t) ==> HeightsExact(Insert(t, v, cmp).value)
    ensures Sizes(t, exact) && (exact ==> Search(t, v, cmp).None?) ==> Sizes(Insert(t, v, cmp).value, exact)
  {
    if t.Node? {
      SortedParts(Inorder(t.left), t.value, Inorder(t.right), cmp);
      if cmp(t.value, v) > 0 {
        InsertFields(t.left, v, cmp, exact);
        InsertCounts(t.left, v, cmp);
        GrowLeftLaws(t, Insert(t.left, v, cmp).value, exact);
      } else if cmp(t.value, v) < 0 {
        InsertFields(t.right, v, cmp, exact);
        InsertCounts(t.right, v, cmp);
        GrowRightLaws(t, Insert(t.right, v, cmp).value, exact);
      }
    }
  }

  lemma InsertCounts<V(!new)>(t: Tree<V>, v: V, cmp: (V, V) -> int)
    requires TotalOrder(cmp) && Ordered(t, cmp)
    requires Insert(t, v, cmp).Some?
    ensures Count(Insert(t, v, cmp).value) == Count(t) + if Search(t, v, cmp).Some? then 0 else 1
  {
    InsertContent(t, v, cmp);
    PutSortedLength(Inorder(t), v, cmp);
    CountIsLength(t);
    CountIsLength(Insert(t, v, cmp).value);
    SearchIsLookup(t, v, cmp);
  }

  /**
   Delete never rotates through a missing child, on any tree with exact heights, balanced or
   not; it keeps heights exact and sizes an upper bound (exact if they were).
   */
  lemma {:induction false} DeleteFields<V(!new)>(t: Tree<V>, v: V, cmp: (V, V) -> int, exact: bool)
    requires HeightsExact(t)
    ensures Delete(t, v, cmp).Some?
    ensures HeightsExact(Delete(t, v, cmp).value)
    ensures Sizes(t, exact) ==> Sizes(Delete(t, v, cmp).value, exact)
    decreases t
  {
    if t.Node? {
      if cmp(t.value, v) == 0 {
        if t.left.Node? {
          var m := GetMax(t.left);
          DeleteFields(t.left, m, cmp, exact);
          RefreshLaws(t.(left := Delete(t.left, m, cmp).value, value := m), exact);
        }
      } else if cmp(t.value, v) > 0 {
        DeleteFields(t.left, v, cmp, exact);
        ShrinkLeftLaws(t, Delete(t.left, v, cmp).value, exact);
      } else {
        DeleteFields(t.right, v, cmp, exact);
        ShrinkRightLaws(t, Delete(t.right, v, cmp).value, exact);
      }
    }
  }

  // ---------- balance

  /** A nonempty subtree that a rebalanced insert made taller leans to one side. */
  ghost predicate Leans<V>(t: Tree<V>) {
    t.Node? && Height(t.left) != Height(t.right)
  }

  lemma RefreshBalanced<V(!new)>(t: Tree<V>)
    requires t.Node? && Balanced(t.left) && Balanced(t.right) && BalanceFactor(t) <= 1
    ensures Balanced(Refresh(t))
  {
  }

  lemma BalanceLeftRestores<V(!new)>(u: Tree<V>)
    requires u.Node? && u.left.Node?
    requires Balanced(u.left) && Balanced(u.right) && HeightsExact(u.left) && HeightsExact(u.right)
    requires Height(u.left) == Height(u.right) + 2 && Leans(u.left)
    ensures BalanceLeft(u).Some?
    ensures Balanced(BalanceLeft(u).value) && Height(BalanceLeft(u).value) == Height(u.left)
  {
    var l := u.left;
    HeightsArePositive(u.right);
    PositiveBelow(l);
    if Height(l.left) > Height(l.right) {
      var low := u.(left := l.right);
      RefreshBalanced(low);
      RefreshBalanced(l.(right := Refresh(low)));
    } else {
      PositiveBelow(l.right);
      var outer, inner := l.(right := l.right.left), u.(left := l.right.right);
      RefreshBalanced(outer);
      RefreshBalanced(inner);
      var lifted := SimpleRotRight(l);
      assert lifted.Node? && lifted.right == l.right.right;
      RefreshBalanced(lifted.(right := Refresh(inner)));
    }
  }

  lemma BalanceRightRestores<V(!new)>(u: Tree<V>)
    requires u.Node? && u.right.Node?
    requires Balanced(u.left) && Balanced(u.right) && HeightsExact(u.left) && HeightsExact(u.right)
    requires Height(u.right) == Height(u.left) + 2 && Leans(u.right)
    ensures BalanceRight(u).Some?
    ensures Balanced(BalanceRight(u).value) && Height(BalanceRight(u).value) == Height(u.right)
  {
    var r := u.right;
    HeightsArePositive(u.left);
    PositiveBelow(r);
    if Height(r.right) > Height(r.left) {
      var low := u.(right := r.left);
      RefreshBalanced(low);
      RefreshBalanced(r.(left := Refresh(low)));
    } else {
      PositiveBelow(r.left);
      var outer, inner := r.(left := r.left.right), u.(right := r.left.left);
      RefreshBalanced(outer);
      RefreshBalanced(inner);
      var lifted := SimpleRotLeft(r);
      assert lifted.Node? && lifted.left == r.left.left;
      RefreshBalanced(lifted.(left := Refresh(inner)));
    }
  }

  /** What holds of `t` and of the left subtree that an insert below it returned. */
  ghost predicate GrewBalanced<V>(t: Tree<V>, left: Tree<V>) {
    && Balanced(left) && HeightsExact(left)
    && Height(t) <= Height(left) <= Height(t) + 1
    && (t.Node? && Height(left) == Height(t) + 1 ==> Leans(left))
  }

  lemma {:induction false} GrowLeftKeepsBalance<V(!new)>(t: Tree<V>, left: Tree<V>)
    requires t.Node? && left.Node? && Balanced(t) && HeightsExact(t) && GrewBalanced(t.left, left)
    ensures GrowLeft(t, left).Some? && GrewBalanced(t, GrowLeft(t, left).value)
  {
    PositiveBelow(t);
    var u := SetHeight(t.(size := t.size + 1, left := left));
    if BalanceFactor(u) > 1 {
      BalanceLeftRestores(u);
      BalanceLeftLaws(u, false);
    }
  }

  lemma {:induction false} GrowRightKeepsBalance<V(!new)>(t: Tree<V>, right: Tree<V>)
    requires t.Node? && right.Node? && Balanced(t) && HeightsExact(t) && GrewBalanced(t.right, right)
    ensures GrowRight(t, right).Some? && GrewBalanced(t, GrowRight(t, right).value)
  {
    PositiveBelow(t);
    var u := SetHeight(t.(size := t.size + 1, right := right));
    if BalanceFactor(u) > 1 {
      BalanceRightRestores(u);
      BalanceRightLaws(u, false);
    }
  }

  /**
   Inserting into a balanced tree with exact heights uses only rotation children that exist,
   gives a balanced tree with exact heights, and raises the height by at most one; a
   nonempty tree that grew is never evenly balanced.
   */
  lemma {:induction false} InsertKeepsBalance<V(!new)>(t: Tree<V>, v: V, cmp: (V, V) -> int)
    requires Balanced(t) && HeightsExact(t)
    ensures Insert(t, v, cmp).Some?
    ensures Balanced(Insert(t, v, cmp).value) && HeightsExact(Insert(t, v, cmp).value)
    ensures Height(t) <= Height(Insert(t, v, cmp).value) <= Height(t) + 1
    ensures t.Node? && Height(Insert(t, v, cmp).value) == Height(t) + 1 ==> Leans(Insert(t, v, cmp).value)
  {
    if t.Node? {
      if cmp(t.value, v) > 0 {
        InsertKeepsBalance(t.left, v, cmp);
        GrowLeftKeepsBalance(t, Insert(t.left, v, cmp).value);
      } else if cmp(t.value, v) < 0 {
        InsertKeepsBalance(t.right, v, cmp);
        GrowRightKeepsBalance(t, Insert(t.right, v, cmp).value);
      }
    }
  }

  // ---------- when stored sizes stay exact

  /** Overwriting a value in a balanced tree changes no height, so it rotates nothing. */
  lemma {:induction false} OverwriteKeepsHeight<V(!new)>(t: Tree<V>, v: V, cmp: (V, V) -> int)
    requires Balanced(t) && HeightsExact(t) && Search(t, v, cmp).Some?
    ensures Insert(t, v, cmp).Some? && Height(Insert(t, v, cmp).value) == Height(t)
    ensures cmp(t.value, v) != 0 ==> Insert(t, v, cmp).value.size == t.size + 1
  {
    PositiveBelow(t);
    if cmp(t.value, v) > 0 {
      OverwriteKeepsHeight(t.left, v, cmp);
    } else if cmp(t.value, v) < 0 {
      OverwriteKeepsHeight(t.right, v, cmp);
    }
  }

  /**
   The sizes stored in a balanced tree stay exact if and only if the inserted value has no equal in
   the tree, or its equal is at the root: every other overwrite counts the value again on its way down.
   */
  lemma {:induction false} InsertSizesIff<V(!new)>(t: Tree<V>, v: V, cmp: (V, V) -> int)
    requires TotalOrder(cmp) && Ordered(t, cmp) && Balanced(t) && HeightsExact(t) && Sizes(t, true)
    ensures Insert(t, v, cmp).Some?
    ensures Sizes(Insert(t, v, cmp).value, true) <==>
            Search(t, v, cmp).None? || cmp(t.value, v) == 0
  {
    InsertKeepsBalance(t, v, cmp);
    InsertFields(t, v, cmp, true);
    InsertCounts(t, v, cmp);
    if Search(t, v, cmp).Some? {
      OverwriteKeepsHeight(t, v, cmp);
    }
  }

  // ---------- when an insert goes through, on any tree

  /** A single node that the insert of `v` lands in, or an empty place for it. */
  ghost predicate LandsIn<V>(t: Tree<V>, v: V, cmp: (V, V) -> int) {
    t.Leaf? || (cmp(t.value, v) == 0 && t.left.Leaf? && t.right.Leaf?)
  }

  /** The search path for `v` ends below a node whose other subtree has height 3 or more. */
  ghost predicate EndsBesideTall<V>(t: Tree<V>, v: V, cmp: (V, V) -> int) {
    t.Node? && cmp(t.value, v) != 0 &&
    if cmp(t.value, v) > 0
    then if LandsIn(t.left, v, cmp) then Height(t.right) >= 3 else EndsBesideTall(t.left, v, cmp)
    else if LandsIn(t.right, v, cmp) then Height(t.left) >= 3 else EndsBesideTall(t.right, v, cmp)
  }

  lemma {:induction false} GrowLeftIff<V(!new)>(t: Tree<V>, left: Tree<V>)
    requires t.Node? && left.Node? && HeightsExact(t.right) && HeightsExact(left)
    ensures GrowLeft(t, left).Some? <==> !(Height(left) == 1 && Height(t.right) >= 3)
    ensures GrowLeft(t, left).Some? ==> HeightsExact(GrowLeft(t, left).value) && Height(GrowLeft(t, left).value) > 1
  {
    PositiveBelow(left);
    PositiveBelow(t.right);
    if GrowLeft(t, left).Some? {
      GrowLeftLaws(t, left, false);
      TwoValuesAreTall(GrowLeft(t, left).value, Inorder(left), t.value, Inorder(t.right));
    }
  }

  lemma {:induction false} GrowRightIff<V(!new)>(t: Tree<V>, right: Tree<V>)
    requires t.Node? && right.Node? && HeightsExact(t.left) && HeightsExact(right)
    ensures GrowRight(t, right).Some? <==> !(Height(right) == 1 && Height(t.left) >= 3)
    ensures GrowRight(t, right).Some? ==>
      HeightsExact(GrowRight(t, right).value) && Height(GrowRight(t, right).value) > 1
  {
    PositiveBelow(right);
    PositiveBelow(t.left);
    if GrowRight(t, right).Some? {
      GrowRightLaws(t, right, false);
      TwoValuesAreTall(GrowRight(t, right).value, Inorder(t.left), t.value, Inorder(right));
    }
  }

  lemma TwoValuesAreTall<V(!new)>(t: Tree<V>, a: seq<V>, x: V, b: seq<V>)
    requires HeightsExact(t) && Inorder(t) == a + [x] + b && (a != [] || b != [])
    ensures Height(t) > 1
  {
    PositiveBelow(t);
    assert |Inorder(t)| > 1;
  }

  /**
   On any tree with exact heights, an insert goes through exactly when its search path does
   not end beside a subtree of height 3 or more; otherwise a rotation dereferences NULL.
   */
  lemma {:induction false} InsertGoesThroughIff<V(!new)>(t: Tree<V>, v: V, cmp: (V, V) -> int)
    requires HeightsExact(t)
    ensures Insert(t, v, cmp).Some? <==> !EndsBesideTall(t, v, cmp)
    ensures Insert(t, v, cmp).Some? ==> HeightsExact(Insert(t, v, cmp).value)
    ensures Insert(t, v, cmp).Some? ==> (LandsIn(t, v, cmp) <==> Height(Insert(t, v, cmp).value) == 1)
  {
    PositiveBelow(t);
    if t.Node? {
      if cmp(t.value, v) > 0 {
        InsertGoesThroughIff(t.left, v, cmp);
        if Insert(t.left, v, cmp).Some? {
          GrowLeftIff(t, Insert(t.left, v, cmp).value);
        }
      } else if cmp(t.value, v) < 0 {
        InsertGoesThroughIff(t.right, v, cmp);
        if Insert(t.right, v, cmp).Some? {
          GrowRightIff(t, Insert(t.right, v, cmp).value);
        }
      }
    }
  }

  // ---------- search depth

  function Fib(n: nat): nat {
    if n < 2 then n else Fib(n - 1) + Fib(n - 2)
  }

  lemma {:induction false} FibMonotone(m: nat, n: nat)
    requires m <= n
    ensures Fib(m) <= Fib(n)
    decreases n
  {
    if m < n {
      FibMonotone(m, n - 1);
    }
  }

  /** A balanced tree of height h holds at least Fib(h + 2) - 1 values. */
  lemma {:induction false} BalancedIsBig<V(!new)>(t: Tree<V>)
    requires Balanced(t) && HeightsExact(t)
    ensures Height(t) >= 0 && Count(t) >= Fib(Height(t) + 2) - 1
  {
    HeightsArePositive(t);
    if t.Node? {
      BalancedIsBig(t.left);
      BalancedIsBig(t.right);
      var h := Height(t);
      FibMonotone(h, Height(t.left) + 2);
      FibMonotone(h, Height(t.right) + 2);
      assert Fib(h + 2) == Fib(h + 1) + Fib(h);
    }
  }

  /** The tree that a run of inserts builds from the empty tree. */
  ghost function Built<V>(vs: seq<V>, cmp: (V, V) -> int): Option<Tree<V>> {
    if vs == [] then Some(Leaf)
    else
      match Built(vs[..|vs| - 1], cmp)
      case None => None
      case Some(t) => Insert(t, vs[|vs| - 1], cmp)
  }

  /** The content that the same run should leave: the last value given for each key, in order. */
  ghost function Expected<V>(vs: seq<V>, cmp: (V, V) -> int): seq<V> {
    if vs == [] then [] else PutSorted(Expected(vs[..|vs| - 1], cmp), vs[|vs| - 1], cmp)
  }

  /**
   An index built by inserts alone, as the shared-file index is: every insert goes through, the
   content is the last value of each key in order, a search finds exactly that value, sizes
   cover, and the height is logarithmic in the number of values.
   */
  lemma {:induction false} InsertOnlyIndex<V(!new)>(vs: seq<V>, cmp: (V, V) -> int)
    requires TotalOrder(cmp)
    ensures Built(vs, cmp).Some?
    ensures var t := Built(vs, cmp).value;
      && Inorder(t) == Expected(vs, cmp) && Ordered(t, cmp)
      && Balanced(t) && HeightsExact(t) && Sizes(t, false)
      && Height(t) >= 0 && Count(t) >= Fib(Height(t) + 2) - 1
      && forall v :: Search(t, v, cmp) == Lookup(Expected(vs, cmp), v, cmp)
  {
    if vs != [] {
      var us, v := vs[..|vs| - 1], vs[|vs| - 1];
      InsertOnlyIndex(us, cmp);
      var t := Built(us, cmp).value;
      InsertKeepsBalance(t, v, cmp);
      InsertContent(t, v, cmp);
      InsertFields(t, v, cmp, false);
    }
    var t := Built(vs, cmp).value;
    BalancedIsBig(t);
    forall v ensures Search(t, v, cmp) == Lookup(Expected(vs, cmp), v, cmp) {
      SearchIsLookup(t, v, cmp);
    }
  }

  // ---------- runs of inserts and deletes

  datatype Op<V> = Put(v: V) | Drop(v: V)

  /** The tree after a run, or None if some insert of the run dereferences NULL. */
  ghost function Run<V>(ops: seq<Op<V>>, cmp: (V, V) -> int): Option<Tree<V>> {
    if ops == [] then Some(Leaf)
    else
      match Run(ops[..|ops| - 1], cmp)
      case None => None
      case Some(t) =>
        match ops[|ops| - 1]
        case Put(v) => Insert(t, v, cmp)
        case Drop(v) => Delete(t, v, cmp)
  }

  ghost function RunContent<V>(ops: seq<Op<V>>, cmp: (V, V) -> int): seq<V> {
    if ops == [] then []
    else
      var s := RunContent(ops[..|ops| - 1], cmp);
      match ops[|ops| - 1]
      case Put(v) => PutSorted(s, v, cmp)
      case Drop(v) => Without(s, v, cmp)
  }

  /** No put of the run meets a value that compares equal. */
  ghost predicate NoOverwrite<V>(ops: seq<Op<V>>, cmp: (V, V) -> int) {
    ops != [] ==>
      && NoOverwrite(ops[..|ops| - 1], cmp)
      && (ops[|ops| - 1].Put? ==> Lookup(RunContent(ops[..|ops| - 1], cmp), ops[|ops| - 1].v, cmp).None?)
  }

  /**
   After any completed run of inserts and deletes the tree is ordered, its heights are exact,
   its content is that of the same run on a sorted list, and no stored size is too small;
   stored sizes are exact when no insert of the run overwrote a value.
   */
  lemma {:induction false} RunLaws<V(!new)>(ops: seq<Op<V>>, cmp: (V, V) -> int)
    requires TotalOrder(cmp) && Run(ops, cmp).Some?
    ensures var t := Run(ops, cmp).value;
      && Inorder(t) == RunContent(ops, cmp) && Ordered(t, cmp) && HeightsExact(t)
      && Sizes(t, false) && (NoOverwrite(ops, cmp) ==> Sizes(t, true))
  {
    if ops != [] {
      var before := ops[..|ops| - 1];
      RunLaws(before, cmp);
      var t := Run(before, cmp).value;
      match ops[|ops| - 1]
      case Put(v) =>
        InsertContent(t, v, cmp);
        InsertFields(t, v, cmp, false);
        InsertFields(t, v, cmp, true);
        SearchIsLookup(t, v, cmp);
      case Drop(v) =>
        DeleteContent(t, v, cmp);
        DeleteFields(t, v, cmp, false);
        DeleteFields(t, v, cmp, true);
    }
  }
}
