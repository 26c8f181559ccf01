/**
 * Correctness of the recursive `create` and `removeAt`: ordered-set
 * semantics, the three tree invariants, and the bound on how the subtree
 * height changes. Heights and order are argued separately at every level.
 */
module AvlUpdate {
  import opened IntervalType
  import opened IntervalB
  import opened AvlModel
  import opened AvlOrder
  import opened AvlBalance

  // ---------------------------------------------------------------------
  // The unwinding step

  /**
   * The unwinding step (`updateMaximum`, `updateHeight`, `balance`) applied
   * to a node whose children satisfy the height invariants and differ in
   * stored height by at most two: the node satisfies them afterwards, and
   * its height is that of its taller child plus one, or one less when it
   * rotated. It rotates, and publishes an event, exactly when the children
   * differ by two.
   */
  lemma {:induction false} RestoreHeights(t: Tree)
    requires t.Node? && HeightsOk(t.left) && HeightsOk(t.right)
    requires HeightBalanced(t.left) && HeightBalanced(t.right)
    requires -2 <= Height(t.left) - Height(t.right) <= 2
    ensures HeightsOk(Restore(t)) && HeightBalanced(Restore(t))
    ensures RestoreEvents(t) == [] <==> -1 <= Height(t.left) - Height(t.right) <= 1
    ensures Height(Restore(t)) == 1 + Max(Height(t.left), Height(t.right))
         || (Height(t.left) - Height(t.right) in {-2, 2}
             && Height(Restore(t)) == Max(Height(t.left), Height(t.right)))
  {
    var m := UpdateMaximum(t);
    UpdateMaximumKeepsHeights(t.left);
    UpdateMaximumKeepsHeights(t.right);
    var u := UpdateHeight(m);
    assert Height(m.left) == Height(t.left) && Height(m.right) == Height(t.right);
    assert HeightsOk(u);
    BalanceRestores(u);
  }

  /** The unwinding step keeps the search-tree order and the contents. */
  lemma RestoreOrdered(t: Tree)
    requires t.Node?
    ensures Ordered(Restore(t)) <==> Ordered(t)
    ensures Elements(Restore(t)) == Elements(t)
  {
    var u := UpdateHeight(UpdateMaximum(t));
    UpdateMaximumKeepsContents(t);
    assert Ordered(u) <==> Ordered(UpdateMaximum(t));
    BalanceKeepsOrder(u);
    RestoreKeepsContents(t);
  }

  /** A node's stored height: one more than its taller child, or at most 1 without children. */
  lemma StoredHeight(t: Tree)
    requires t.Node? && HeightsOk(t)
    ensures t.left.Node? || t.right.Node? ==> Height(t) == 1 + Max(Height(t.left), Height(t.right))
    ensures t.left.Nil? && t.right.Nil? ==> Height(t) <= 1
  {
  }

  // ---------------------------------------------------------------------
  // create

  /** Heights after an insertion into the left subtree, one level up. */
  lemma {:induction false} CreateHeightsLeft(t: Tree, l': Tree)
    requires t.Node? && HeightsOk(t) && HeightBalanced(t)
    requires HeightsOk(l') && HeightBalanced(l')
    requires Height(t.left) <= Height(l') <= Height(t.left) + 1
    requires t.left.Nil? ==> Height(l') == 0
    ensures var r := Restore(t.(left := l'));
      HeightsOk(r) && HeightBalanced(r) && Height(t) <= Height(r) <= Height(t) + 1
  {
    RestoreHeights(t.(left := l'));
    StoredHeight(t);
  }

  /** Heights after an insertion into the right subtree, one level up. */
  lemma {:induction false} CreateHeightsRight(t: Tree, r': Tree)
    requires t.Node? && HeightsOk(t) && HeightBalanced(t)
    requires HeightsOk(r') && HeightBalanced(r')
    requires Height(t.right) <= Height(r') <= Height(t.right) + 1
    requires t.right.Nil? ==> Height(r') == 0
    ensures var r := Restore(t.(right := r'));
      HeightsOk(r) && HeightBalanced(r) && Height(t) <= Height(r) <= Height(t) + 1
  {
    RestoreHeights(t.(right := r'));
    StoredHeight(t);
  }

  /** Order and contents after an insertion into the left subtree, one level up. */
  lemma {:induction false} CreateOrderLeft(t: Tree, x: IntervalB, l': Tree)
    requires t.Node? && Ordered(t) && Compare(x, t.interval) == LessThan
    requires Ordered(l') && Elements(l') == Elements(t.left) + {x}
    ensures Ordered(t.(left := l'))
    ensures Ordered(Restore(t.(left := l'))) && Elements(Restore(t.(left := l'))) == Elements(t) + {x}
  {
    var n := t.(left := l');
    assert Ordered(n) by {
      forall y | y in Elements(l') ensures Compare(y, t.interval) == LessThan {
      }
    }
    RestoreOrdered(n);
  }

  /** Order and contents after an insertion into the right subtree, one level up. */
  lemma {:induction false} CreateOrderRight(t: Tree, x: IntervalB, r': Tree)
    requires t.Node? && Ordered(t) && Compare(x, t.interval) == MoreThan
    requires Ordered(r') && Elements(r') == Elements(t.right) + {x}
    ensures Ordered(t.(right := r'))
    ensures Ordered(Restore(t.(right := r'))) && Elements(Restore(t.(right := r'))) == Elements(t) + {x}
  {
    var n := t.(right := r');
    assert Ordered(n) by {
      forall y | y in Elements(r') ensures Compare(y, t.interval) == MoreThan {
      }
    }
    RestoreOrdered(n);
  }

  /**
   * `create` inserts exactly when no stored interval compares EQUAL; the new
   * subtree is ordered, AVL-balanced in stored heights, holds the old
   * intervals plus the new one, and is one level taller at most.
   */
  lemma {:induction false} CreateCorrect(t: Tree, x: IntervalB)
    requires Invariant(t)
    ensures Create(t, x).Duplicate? <==> x in Elements(t)
    ensures Create(t, x).Inserted? ==>
      var r := Create(t, x).root;
      && r.Node? && Invariant(r) && Elements(r) == Elements(t) + {x}
      && Height(t) <= Height(r) <= Height(t) + 1
  {
    match t
    case Nil =>
    case Node(l, v, r, _, _) =>
      FindCorrect(t, x);
      match Compare(x, v)
      case Equal =>
      case LessThan =>
        CreateCorrect(l, x);
        FindCorrect(l, x);
        if Create(l, x).Inserted? {
          var l' := Create(l, x).root;
          CreateHeightsLeft(t, l');
          CreateOrderLeft(t, x, l');
        }
      case MoreThan =>
        CreateCorrect(r, x);
        FindCorrect(r, x);
        if Create(r, x).Inserted? {
          var r' := Create(r, x).root;
          CreateHeightsRight(t, r');
          CreateOrderRight(t, x, r');
        }
  }

  // ---------------------------------------------------------------------
  // removeAt

  /** Heights after a removal from the left subtree, one level up. */
  lemma {:induction false} RemoveHeightsLeft(t: Tree, l': Tree)
    requires t.Node? && t.left.Node? && HeightsOk(t) && HeightBalanced(t)
    requires HeightsOk(l') && HeightBalanced(l')
    requires Height(t.left) - 1 <= Height(l') <= Height(t.left)
    ensures var r := Restore(t.(left := l'));
      HeightsOk(r) && HeightBalanced(r) && Height(t) - 1 <= Height(r) <= Height(t)
  {
    RestoreHeights(t.(left := l'));
    StoredHeight(t);
  }

  /** Heights after a removal from the right subtree, one level up. */
  lemma {:induction false} RemoveHeightsRight(t: Tree, r': Tree)
    requires t.Node? && t.right.Node? && HeightsOk(t) && HeightBalanced(t)
    requires HeightsOk(r') && HeightBalanced(r')
    requires Height(t.right) - 1 <= Height(r') <= Height(t.right)
    ensures var r := Restore(t.(right := r'));
      HeightsOk(r) && HeightBalanced(r) && Height(t) - 1 <= Height(r) <= Height(t)
  {
    RestoreHeights(t.(right := r'));
    StoredHeight(t);
  }

  /** Order and contents after a removal from the left subtree, one level up. */
  lemma {:induction false} RemoveOrderLeft(t: Tree, x: IntervalB, l': Tree)
    requires t.Node? && Ordered(t) && Compare(x, t.interval) == LessThan
    requires Ordered(l') && Elements(l') == Elements(t.left) - {x}
    ensures Ordered(t.(left := l'))
    ensures Ordered(Restore(t.(left := l'))) && Elements(Restore(t.(left := l'))) == Elements(t) - {x}
  {
    var n := t.(left := l');
    assert Ordered(n) by {
      forall y | y in Elements(l') ensures Compare(y, t.interval) == LessThan {
      }
    }
    assert x != t.interval && x !in Elements(t.right);
    RestoreOrdered(n);
  }

  /** Order and contents after a removal from the right subtree, one level up. */
  lemma {:induction false} RemoveOrderRight(t: Tree, x: IntervalB, r': Tree)
    requires t.Node? && Ordered(t) && Compare(x, t.interval) == MoreThan
    requires Ordered(r') && Elements(r') == Elements(t.right) - {x}
    ensures Ordered(t.(right := r'))
    ensures Ordered(Restore(t.(right := r'))) && Elements(Restore(t.(right := r'))) == Elements(t) - {x}
  {
    var n := t.(right := r');
    assert Ordered(n) by {
      forall y | y in Elements(r') ensures Compare(y, t.interval) == MoreThan {
      }
    }
    assert x != t.interval && x !in Elements(t.left);
    RestoreOrdered(n);
  }

  /**
   * Successor splicing: a node with two children that takes the interval `s`
   * of its right subtree's minimum, over the right subtree `r'` from which
   * `s` was removed, is ordered again and has lost exactly its old interval.
   */
  lemma {:induction false} SpliceOrder(t: Tree, r': Tree)
    requires t.Node? && t.right.Node? && Ordered(t)
    requires Ordered(r') && Elements(r') == Elements(t.right) - {FindMinimum(t.right).interval}
    ensures var n := Node(t.left, FindMinimum(t.right).interval, r', t.maximum, t.height);
      Ordered(n) && Elements(n) == Elements(t) - {t.interval}
  {
    var s := FindMinimum(t.right).interval;
    FindMinimumIsLeast(t.right);
    var n := Node(t.left, s, r', t.maximum, t.height);
    assert Compare(t.interval, s) == LessThan;
    forall y | y in Elements(t.left) ensures Compare(y, s) == LessThan {
      CompareTransitive(y, t.interval, s);
    }
    forall y | y in Elements(r') ensures Compare(y, s) == MoreThan {
      CompareAntisymmetric(s, y);
    }
    assert t.interval !in Elements(t.left) && t.interval !in Elements(t.right);
  }

  /**
   * The node that took its successor's interval, restored: invariant kept,
   * exactly the old interval gone, and at most one level lower.
   */
  lemma {:induction false} RemoveBranchStep(t: Tree, r': Tree)
    requires t.Node? && t.left.Node? && t.right.Node? && Invariant(t)
    requires Invariant(r') && Elements(r') == Elements(t.right) - {FindMinimum(t.right).interval}
    requires Height(t.right) - 1 <= Height(r') <= Height(t.right)
    ensures var n := Node(t.left, FindMinimum(t.right).interval, r', t.maximum, t.height);
      && Ordered(n)
      && Invariant(Restore(n)) && Elements(Restore(n)) == Elements(t) - {t.interval}
      && Height(t) - 1 <= Height(Restore(n)) <= Height(t)
  {
    var n := Node(t.left, FindMinimum(t.right).interval, r', t.maximum, t.height);
    SpliceOrder(t, r');
    RestoreOrdered(n);
    RestoreHeights(n);
    StoredHeight(t);
  }

  /**
   * `removeAt` removes exactly when a stored interval compares EQUAL; the new
   * subtree is ordered, AVL-balanced in stored heights, holds the old
   * intervals but that one, and is one level lower at most.
   */
  lemma {:induction false} RemoveCorrect(t: Tree, x: IntervalB)
    requires Invariant(t)
    ensures RemoveAt(t, x).Nonexistent? <==> x !in Elements(t)
    ensures RemoveAt(t, x).Removed? ==>
      var r := RemoveAt(t, x).root;
      && Invariant(r) && Elements(r) == Elements(t) - {x}
      && Height(t) - 1 <= Height(r) <= Height(t)
  {
    match t
    case Nil =>
    case Node(l, v, r, m, h) =>
      FindCorrect(t, x);
      match Compare(x, v)
      case Equal =>
        assert x == v && v !in Elements(l) && v !in Elements(r);
        if l.Node? && r.Node? {
          var s := FindMinimum(r).interval;
          FindMinimumIsLeast(r);
          RemoveCorrect(r, s);
          RemoveBranchStep(t, RemoveAt(r, s).root);
        }
      case LessThan =>
        RemoveCorrect(l, x);
        FindCorrect(l, x);
        if RemoveAt(l, x).Removed? {
          var l' := RemoveAt(l, x).root;
          RemoveHeightsLeft(t, l');
          RemoveOrderLeft(t, x, l');
        }
      case MoreThan =>
        RemoveCorrect(r, x);
        FindCorrect(r, x);
        if RemoveAt(r, x).Removed? {
          var r' := RemoveAt(r, x).root;
          RemoveHeightsRight(t, r');
          RemoveOrderRight(t, x, r');
        }
  }
}
