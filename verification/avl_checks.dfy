/**
 * The run-time checks of the linked tree never fire: `checkInvariants`
 * (run by every `takeOwnershipLeft`/`takeOwnershipRight` on the node and on
 * the child it adopts), the LEFT_HEAVY/RIGHT_HEAVY postcondition of the
 * double rotations, and `validateAt`. Each lemma here states, for one step
 * of the algorithm, the facts about the model that those checks rely on.
 */
module AvlChecks {
  import opened IntervalType
  import opened IntervalB
  import opened AvlModel
  import opened AvlOrder
  import opened AvlBalance
  import opened AvlUpdate

  /** What `balance` may assume of the node it is given. */
  ghost predicate BalanceReady(t: Tree)
  {
    && t.Node? && Ordered(t) && HeightsOk(t)
    && HeightBalanced(t.left) && HeightBalanced(t.right)
    && -2 <= BalanceFactorRaw(t) <= 2
  }

  /** The invariant makes every `validateAt` check pass. */
  lemma {:induction false} InvariantPassesChecks(t: Tree)
    requires Invariant(t)
    ensures ChecksPass(t)
  {
    if t.Node? {
      InvariantPassesChecks(t.left);
      InvariantPassesChecks(t.right);
    }
  }

  /** An ordered tree passes `checkInvariants` at its root. */
  lemma OrderedLocally(t: Tree)
    requires Ordered(t)
    ensures LocallyOrdered(t)
  {
  }

  /**
   * `updateMaximum` then `updateHeight` on a node whose children are AVL
   * trees differing in stored height by at most two leaves a node `balance`
   * can take.
   */
  lemma UnwindReady(n: Tree)
    requires n.Node? && Ordered(n)
    requires HeightsOk(n.left) && HeightsOk(n.right) && HeightBalanced(n.left) && HeightBalanced(n.right)
    requires -2 <= Height(n.left) - Height(n.right) <= 2
    ensures BalanceReady(AvlModel.UpdateHeight(UpdateMaximum(n)))
  {
    var m := UpdateMaximum(n);
    var u := AvlModel.UpdateHeight(m);
    UpdateMaximumKeepsContents(n);
    UpdateMaximumKeepsHeights(n.left);
    UpdateMaximumKeepsHeights(n.right);
    assert m.left == UpdateMaximum(n.left) && m.right == UpdateMaximum(n.right);
    assert Height(m.left) == Height(n.left) && Height(m.right) == Height(n.right);
    assert u == m.(height := u.height);
    assert Ordered(u) by {
      assert Ordered(m);
    }
    UpdateHeightOk(m);
    assert BalanceFactorRaw(u) == Height(n.left) - Height(n.right);
  }

  // ---------------------------------------------------------------------
  // create

  /** One level of `create` unwinding after an insertion on the left. */
  lemma CreateStepLeft(t: Tree, x: IntervalB)
    requires t.Node? && Invariant(t) && Compare(x, t.interval) == LessThan
    requires Create(t.left, x).Inserted?
    ensures var l' := Create(t.left, x).root;
      && Create(t, x) == Inserted(Restore(t.(left := l')))
      && CreateEvents(t, x) == CreateEvents(t.left, x) + RestoreEvents(t.(left := l'))
      && LocallyOrdered(l') && LocallyOrdered(t.(left := l'))
      && BalanceReady(AvlModel.UpdateHeight(UpdateMaximum(t.(left := l'))))
  {
    var l' := Create(t.left, x).root;
    CreateCorrect(t.left, x);
    CreateOrderLeft(t, x, l');
    StoredHeight(t);
    UnwindReady(t.(left := l'));
  }

  /** One level of `create` unwinding after an insertion on the right. */
  lemma CreateStepRight(t: Tree, x: IntervalB)
    requires t.Node? && Invariant(t) && Compare(x, t.interval) == MoreThan
    requires Create(t.right, x).Inserted?
    ensures var r' := Create(t.right, x).root;
      && Create(t, x) == Inserted(Restore(t.(right := r')))
      && CreateEvents(t, x) == CreateEvents(t.right, x) + RestoreEvents(t.(right := r'))
      && LocallyOrdered(r') && LocallyOrdered(t.(right := r'))
      && BalanceReady(AvlModel.UpdateHeight(UpdateMaximum(t.(right := r'))))
  {
    var r' := Create(t.right, x).root;
    CreateCorrect(t.right, x);
    CreateOrderRight(t, x, r');
    StoredHeight(t);
    UnwindReady(t.(right := r'));
  }

  // ---------------------------------------------------------------------
  // removeAt

  /** One level of `removeAt` unwinding after a removal on the left. */
  lemma RemoveStepLeft(t: Tree, x: IntervalB)
    requires t.Node? && Invariant(t) && Compare(x, t.interval) == LessThan
    requires RemoveAt(t.left, x).Removed?
    ensures var l' := RemoveAt(t.left, x).root;
      && RemoveAt(t, x) == Removed(Restore(t.(left := l')))
      && RemoveEvents(t, x) == RemoveEvents(t.left, x) + RestoreEvents(t.(left := l'))
      && LocallyOrdered(l') && LocallyOrdered(t.(left := l'))
      && BalanceReady(AvlModel.UpdateHeight(UpdateMaximum(t.(left := l'))))
  {
    var l' := RemoveAt(t.left, x).root;
    RemoveCorrect(t.left, x);
    RemoveOrderLeft(t, x, l');
    StoredHeight(t);
    UnwindReady(t.(left := l'));
  }

  /** One level of `removeAt` unwinding after a removal on the right. */
  lemma RemoveStepRight(t: Tree, x: IntervalB)
    requires t.Node? && Invariant(t) && Compare(x, t.interval) == MoreThan
    requires RemoveAt(t.right, x).Removed?
    ensures var r' := RemoveAt(t.right, x).root;
      && RemoveAt(t, x) == Removed(Restore(t.(right := r')))
      && RemoveEvents(t, x) == RemoveEvents(t.right, x) + RestoreEvents(t.(right := r'))
      && LocallyOrdered(r') && LocallyOrdered(t.(right := r'))
      && BalanceReady(AvlModel.UpdateHeight(UpdateMaximum(t.(right := r'))))
  {
    var r' := RemoveAt(t.right, x).root;
    RemoveCorrect(t.right, x);
    RemoveOrderRight(t, x, r');
    StoredHeight(t);
    UnwindReady(t.(right := r'));
  }

  /**
   * The two-children case of `removeAt`: the successor is always found and
   * removed from the right subtree, and the node that took its interval
   * passes the checks and can be balanced.
   */
  lemma RemoveStepBranch(t: Tree, x: IntervalB)
    requires t.Node? && t.left.Node? && t.right.Node? && Invariant(t) && Compare(x, t.interval) == Equal
    ensures RemoveAt(t.right, FindMinimum(t.right).interval).Removed?
    ensures var s := FindMinimum(t.right).interval;
      var r' := RemoveAt(t.right, s).root;
      var u := Tree.Node(t.left, s, r', t.maximum, t.height);
      && RemoveAt(t, x) == Removed(Restore(u))
      && RemoveEvents(t, x) == RemoveEvents(t.right, s) + [Deleted(Branch, x)] + RestoreEvents(u)
      && LocallyOrdered(r') && LocallyOrdered(u)
      && BalanceReady(AvlModel.UpdateHeight(UpdateMaximum(u)))
  {
    var s := FindMinimum(t.right).interval;
    FindMinimumIsLeast(t.right);
    RemoveCorrect(t.right, s);
    var r' := RemoveAt(t.right, s).root;
    var n := Tree.Node(t.left, s, r', t.maximum, t.height);
    SpliceOrder(t, r');
    StoredHeight(t);
    UnwindReady(n);
  }

  // ---------------------------------------------------------------------
  // Rotations

  /** The two `checkInvariants` runs of `rotateRR` pass. */
  lemma RotateRRChecks(c: Tree)
    requires c.Node? && c.left.Node? && Ordered(c)
    ensures var c' := c.(left := c.left.right);
      && LocallyOrdered(c.left.right) && LocallyOrdered(c')
      && LocallyOrdered(c.left.(right := c'))
  {
    var b := c.left;
    OrderedLocally(b);
    OrderedLocally(b.right);
    assert b.interval in Elements(c.left);
    assert b.right.Node? ==> b.right.interval in Elements(b.right);
    forall y | y in Elements(b.right) ensures Compare(y, c.interval) == LessThan {
    }
    forall y | y in Elements(c.right) ensures Compare(y, b.interval) == MoreThan {
      CompareTransitive(b.interval, c.interval, y);
    }
  }

  /** The two `checkInvariants` runs of `rotateLL` pass. */
  lemma RotateLLChecks(a: Tree)
    requires a.Node? && a.right.Node? && Ordered(a)
    ensures var a' := a.(right := a.right.left);
      && LocallyOrdered(a.right.left) && LocallyOrdered(a')
      && LocallyOrdered(a.right.(left := a'))
  {
    var b := a.right;
    OrderedLocally(b);
    OrderedLocally(b.left);
    assert b.interval in Elements(a.right);
    assert b.left.Node? ==> b.left.interval in Elements(b.left);
    forall y | y in Elements(a.left) ensures Compare(y, b.interval) == LessThan {
      CompareTransitive(y, a.interval, b.interval);
    }
  }

  /**
   * `rotateRL`: after the inner left rotation the node adopts the new left
   * subtree, passes `checkInvariants`, is LEFT_HEAVY (the checked
   * postcondition) and still ordered for the outer right rotation.
   */
  lemma RotateRLChecks(c: Tree)
    requires BalanceReady(c) && BalanceFactorRaw(c) == 2 && c.left.Node? && BalanceFactorRaw(c.left) < 0
    ensures c.left.right.Node?
    ensures var c' := c.(left := RotateLL(c.left));
      && LocallyOrdered(RotateLL(c.left)) && Ordered(c') && LocallyOrdered(c')
      && BalanceFactorOf(c') == LeftHeavy
  {
    TallNodeIsInner(c);
    var c' := c.(left := RotateLL(c.left));
    assert Ordered(c') by {
      RotateLLKeepsContents(c.left);
      SameInOrderSameOrder(c.left, RotateLL(c.left));
    }
    RotateRLInnerPostcondition(c);
  }

  /**
   * `rotateLR`: after the inner right rotation the node adopts the new right
   * subtree, passes `checkInvariants`, is RIGHT_HEAVY (the checked
   * postcondition) and still ordered for the outer left rotation.
   */
  lemma RotateLRChecks(c: Tree)
    requires BalanceReady(c) && BalanceFactorRaw(c) == -2 && c.right.Node? && BalanceFactorRaw(c.right) > 0
    ensures c.right.left.Node?
    ensures var c' := c.(right := RotateRR(c.right));
      && LocallyOrdered(RotateRR(c.right)) && Ordered(c') && LocallyOrdered(c')
      && BalanceFactorOf(c') == RightHeavy
  {
    TallNodeIsInner(c);
    var c' := c.(right := RotateRR(c.right));
    assert Ordered(c') by {
      RotateRRKeepsContents(c.right);
      SameInOrderSameOrder(c.right, RotateRR(c.right));
    }
    RotateLRInnerPostcondition(c);
  }
}
