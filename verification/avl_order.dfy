/**
 * Order and contents of the value-level tree: the search-tree order is the
 * same thing as an ascending in-order traversal, `findAt` decides membership,
 * `sizeTraverse` counts the stored intervals and `findMinimum` finds the least.
 */
module AvlOrder {
  import opened IntervalType
  import opened IntervalB
  import opened AvlModel

  /** The traversal holds exactly the stored intervals. */
  lemma {:induction false} InOrderElements(t: Tree)
    ensures forall y :: y in InOrder(t) <==> y in Elements(t)
  {
    match t
    case Nil =>
    case Node(l, _, r, _, _) =>
      InOrderElements(l);
      InOrderElements(r);
  }

  /** Two ascending sequences whose elements compare in order join into one. */
  lemma AscendingAppend(a: seq<IntervalB>, b: seq<IntervalB>)
    requires StrictlyAscending(a) && StrictlyAscending(b)
    requires forall x, y :: x in a && y in b ==> Compare(x, y) == LessThan
    ensures StrictlyAscending(a + b)
  {
    var s := a + b;
    forall i, j | 0 <= i < j < |s| ensures Compare(s[i], s[j]) == LessThan {
      if j < |a| {
        assert s[i] == a[i] && s[j] == a[j];
      } else if i >= |a| {
        assert s[i] == b[i - |a|] && s[j] == b[j - |a|];
      } else {
        assert s[i] == a[i] && s[j] == b[j - |a|];
        assert s[i] in a && s[j] in b;
      }
    }
  }

  /** Both parts of an ascending sequence ascend, and every element of the first precedes the second. */
  lemma AscendingParts(a: seq<IntervalB>, b: seq<IntervalB>)
    requires StrictlyAscending(a + b)
    ensures StrictlyAscending(a) && StrictlyAscending(b)
    ensures forall x, y :: x in a && y in b ==> Compare(x, y) == LessThan
  {
    var s := a + b;
    forall i, j | 0 <= i < j < |a| ensures Compare(a[i], a[j]) == LessThan {
      assert s[i] == a[i] && s[j] == a[j];
    }
    forall i, j | 0 <= i < j < |b| ensures Compare(b[i], b[j]) == LessThan {
      assert s[|a| + i] == b[i] && s[|a| + j] == b[j];
    }
    forall x, y | x in a && y in b ensures Compare(x, y) == LessThan {
      var i :| 0 <= i < |a| && a[i] == x;
      var j :| 0 <= j < |b| && b[j] == y;
      assert s[i] == x && s[|a| + j] == y;
    }
  }

  /** An ordered tree's in-order traversal ascends strictly. */
  lemma {:induction false} OrderedAscends(t: Tree)
    requires Ordered(t)
    ensures StrictlyAscending(InOrder(t))
  {
    if t.Node? {
      var a, v, b := InOrder(t.left), t.interval, InOrder(t.right);
      OrderedAscends(t.left);
      OrderedAscends(t.right);
      InOrderElements(t.left);
      InOrderElements(t.right);
      AscendingAppend(a, [v]);
      forall x, y | x in a + [v] && y in b ensures Compare(x, y) == LessThan {
        if x in a {
          CompareTransitive(x, v, y);
        }
      }
      AscendingAppend(a + [v], b);
      assert InOrder(t) == (a + [v]) + b;
    }
  }

  /** A tree whose in-order traversal ascends strictly is ordered. */
  lemma {:induction false} AscendingOrdered(t: Tree)
    requires StrictlyAscending(InOrder(t))
    ensures Ordered(t)
  {
    if t.Node? {
      var a, v, b := InOrder(t.left), t.interval, InOrder(t.right);
      assert InOrder(t) == (a + [v]) + b;
      AscendingParts(a + [v], b);
      AscendingParts(a, [v]);
      assert v in a + [v];
      AscendingOrdered(t.left);
      AscendingOrdered(t.right);
      InOrderElements(t.left);
      InOrderElements(t.right);
    }
  }

  /** Search-tree order holds exactly when the in-order traversal ascends strictly. */
  lemma OrderedIffAscending(t: Tree)
    ensures Ordered(t) <==> StrictlyAscending(InOrder(t))
  {
    if Ordered(t) {
      OrderedAscends(t);
    }
    if StrictlyAscending(InOrder(t)) {
      AscendingOrdered(t);
    }
  }

  /** `findAt` answers membership in an ordered tree. */
  lemma {:induction false} FindCorrect(t: Tree, x: IntervalB)
    requires Ordered(t)
    ensures Find(t, x) <==> x in Elements(t)
  {
    match t
    case Nil =>
    case Node(l, v, r, _, _) =>
      FindCorrect(l, x);
      FindCorrect(r, x);
  }

  /** `sizeTraverse` counts the traversal; in an ordered tree, the distinct stored intervals. */
  lemma {:induction false} SizeCounts(t: Tree)
    requires Ordered(t)
    ensures Size(t) == |InOrder(t)| == |Elements(t)|
  {
    if t.Node? {
      var l, v, r := t.left, t.interval, t.right;
      SizeCounts(l);
      SizeCounts(r);
      var L, R := Elements(l), Elements(r);
      assert (L + {v}) !! R by {
        forall y | y in L + {v} ensures y !in R {
          assert y in L ==> Compare(y, v) == LessThan;
        }
      }
      assert |L + {v}| == |L| + 1;
      assert |(L + {v}) + R| == |L + {v}| + |R|;
      assert |InOrder(t)| == |InOrder(l)| + 1 + |InOrder(r)|;
    }
  }

  /** `findMinimum` yields the least stored interval. */
  lemma {:induction false} FindMinimumIsLeast(t: Tree)
    requires t.Node? && Ordered(t)
    ensures FindMinimum(t).interval in Elements(t)
    ensures forall y :: y in Elements(t) && y != FindMinimum(t).interval ==> Compare(FindMinimum(t).interval, y) == LessThan
  {
    if t.left.Node? {
      FindMinimumIsLeast(t.left);
    }
  }

  /** Any value-preserving reshaping that keeps the traversal keeps the order. */
  lemma SameInOrderSameOrder(t: Tree, u: Tree)
    requires InOrder(t) == InOrder(u)
    ensures Ordered(t) <==> Ordered(u)
  {
    OrderedIffAscending(t);
    OrderedIffAscending(u);
  }

  /** `balance` (and so every rotation) keeps the search-tree order. */
  lemma BalanceKeepsOrder(t: Tree)
    requires t.Node?
    ensures Ordered(Balance(t)) <==> Ordered(t)
  {
    BalanceKeepsContents(t);
    SameInOrderSameOrder(t, Balance(t));
  }
}
