/**
 * The AVL argument in stored heights. A node reaching `balance` has balanced
 * children and a balance factor within [-2, 2]; `balance` leaves every node
 * of the subtree balanced, keeps the stored heights consistent, and its root
 * is at most one lower than before.
 */
module AvlBalance {
  import opened IntervalType
  import opened IntervalB
  import opened AvlModel

  /** A node whose stored height is at least 2 has a child and stores 1 + its taller child. */
  lemma TallNodeIsInner(t: Tree)
    requires t.Node? && HeightsOk(t) && t.height >= 2
    ensures t.height == 1 + Max(Height(t.left), Height(t.right))
  {
  }

  /** `updateHeight` makes the node's own stored height consistent. */
  lemma UpdateHeightOk(t: Tree)
    requires t.Node? && HeightsOk(t.left) && HeightsOk(t.right)
    ensures HeightsOk(UpdateHeight(t))
    ensures Height(UpdateHeight(t)) == 1 + Max(Height(t.left), Height(t.right))
  {
  }

  /** Single right rotation of a left-heavy node whose left child does not lean right. */
  lemma {:induction false} RotateRRBalances(c: Tree)
    requires c.Node? && c.left.Node? && HeightsOk(c)
    requires HeightBalanced(c.left) && HeightBalanced(c.right)
    requires BalanceFactorRaw(c) == 2 && BalanceFactorRaw(c.left) >= 0
    ensures HeightsOk(RotateRR(c)) && HeightBalanced(RotateRR(c))
    ensures Height(RotateRR(c)) == if BalanceFactorRaw(c.left) == 0 then Height(c) else Height(c) - 1
  {
    var b := c.left;
    var k := Height(c.right);
    TallNodeIsInner(b);
    TallNodeIsInner(c);
    var c' := UpdateHeight(c.(left := b.right));
    UpdateHeightOk(c.(left := b.right));
    UpdateHeightOk(b.(right := c'));
  }

  /** Single left rotation of a right-heavy node whose right child does not lean left. */
  lemma {:induction false} RotateLLBalances(a: Tree)
    requires a.Node? && a.right.Node? && HeightsOk(a)
    requires HeightBalanced(a.left) && HeightBalanced(a.right)
    requires BalanceFactorRaw(a) == -2 && BalanceFactorRaw(a.right) <= 0
    ensures HeightsOk(RotateLL(a)) && HeightBalanced(RotateLL(a))
    ensures Height(RotateLL(a)) == if BalanceFactorRaw(a.right) == 0 then Height(a) else Height(a) - 1
  {
    var b := a.right;
    TallNodeIsInner(b);
    TallNodeIsInner(a);
    var a' := UpdateHeight(a.(right := b.left));
    UpdateHeightOk(a.(right := b.left));
    UpdateHeightOk(b.(left := a'));
  }

  /** A child's child sits one or two below the child, or is missing under a low child. */
  lemma {:induction false} GrandchildHeights(x: Tree)
    requires x.Node? && HeightsOk(x) && HeightBalanced(x) && x.height >= 1
    ensures Height(x.left) <= x.height - 1 && Height(x.right) <= x.height - 1
    ensures Height(x.left) >= x.height - 2 && Height(x.right) >= x.height - 2
    ensures Max(Height(x.left), Height(x.right)) == x.height - 1
  {
  }

  /**
   * The double-rotation postcondition: once the left child of a left-heavy
   * node leaning right has been rotated left, the node is LEFT_HEAVY.
   */
  lemma {:induction false} RotateRLInnerPostcondition(c: Tree)
    requires c.Node? && c.left.Node? && c.left.right.Node? && HeightsOk(c)
    requires HeightBalanced(c.left) && HeightBalanced(c.right)
    requires BalanceFactorRaw(c) == 2 && BalanceFactorRaw(c.left) < 0
    ensures BalanceFactorOf(c.(left := RotateLL(c.left))) == LeftHeavy
    ensures Height(RotateLL(c.left)) == Height(c.left)
  {
    var b := c.left;
    var x := b.right;
    TallNodeIsInner(b);
    GrandchildHeights(x);
    var b' := UpdateHeight(b.(right := x.left));
    assert Height(b') == Height(b) - 1;
  }

  /** The mirror image: after the inner right rotation the node is RIGHT_HEAVY. */
  lemma {:induction false} RotateLRInnerPostcondition(c: Tree)
    requires c.Node? && c.right.Node? && c.right.left.Node? && HeightsOk(c)
    requires HeightBalanced(c.left) && HeightBalanced(c.right)
    requires BalanceFactorRaw(c) == -2 && BalanceFactorRaw(c.right) > 0
    ensures BalanceFactorOf(c.(right := RotateRR(c.right))) == RightHeavy
    ensures Height(RotateRR(c.right)) == Height(c.right)
  {
    var b := c.right;
    var x := b.left;
    TallNodeIsInner(b);
    GrandchildHeights(x);
    var b' := UpdateHeight(b.(left := x.right));
    assert Height(b') == Height(b) - 1;
  }

  /** Double right rotation of a left-heavy node whose left child leans right. */
  lemma {:induction false} RotateRLBalances(c: Tree)
    requires c.Node? && c.left.Node? && c.left.right.Node? && HeightsOk(c)
    requires HeightBalanced(c.left) && HeightBalanced(c.right)
    requires BalanceFactorRaw(c) == 2 && BalanceFactorRaw(c.left) < 0
    ensures HeightsOk(RotateRL(c)) && HeightBalanced(RotateRL(c))
    ensures Height(RotateRL(c)) == Height(c) - 1
  {
    var b := c.left;
    var x := b.right;
    var k := Height(c.right);
    TallNodeIsInner(b);
    TallNodeIsInner(c);
    GrandchildHeights(x);
    var b' := UpdateHeight(b.(right := x.left));
    UpdateHeightOk(b.(right := x.left));
    var x' := UpdateHeight(x.(left := b'));
    UpdateHeightOk(x.(left := b'));
    assert RotateLL(b) == x';
    var c1 := c.(left := x');
    var c' := UpdateHeight(c1.(left := x'.right));
    UpdateHeightOk(c1.(left := x'.right));
    UpdateHeightOk(x'.(right := c'));
    assert RotateRL(c) == UpdateHeight(x'.(right := c'));
  }

  /** Double left rotation of a right-heavy node whose right child leans left. */
  lemma {:induction false} RotateLRBalances(c: Tree)
    requires c.Node? && c.right.Node? && c.right.left.Node? && HeightsOk(c)
    requires HeightBalanced(c.left) && HeightBalanced(c.right)
    requires BalanceFactorRaw(c) == -2 && BalanceFactorRaw(c.right) > 0
    ensures HeightsOk(RotateLR(c)) && HeightBalanced(RotateLR(c))
    ensures Height(RotateLR(c)) == Height(c) - 1
  {
    var b := c.right;
    var x := b.left;
    TallNodeIsInner(b);
    TallNodeIsInner(c);
    GrandchildHeights(x);
    var b' := UpdateHeight(b.(left := x.right));
    UpdateHeightOk(b.(left := x.right));
    var x' := UpdateHeight(x.(right := b'));
    UpdateHeightOk(x.(right := b'));
    assert RotateRR(b) == x';
    var c1 := c.(right := x');
    var c' := UpdateHeight(c1.(right := x'.left));
    UpdateHeightOk(c1.(right := x'.left));
    UpdateHeightOk(x'.(left := c'));
    assert RotateLR(c) == UpdateHeight(x'.(left := c'));
  }

  /** `balance` at a LEFT_HEAVY node picks RL or RR and ends one level lower or at the same height. */
  lemma {:induction false} BalanceLeftHeavy(t: Tree)
    requires t.Node? && HeightsOk(t) && HeightBalanced(t.left) && HeightBalanced(t.right)
    requires BalanceFactorRaw(t) == 2
    ensures HeightsOk(Balance(t)) && HeightBalanced(Balance(t))
    ensures Height(t) - 1 <= Height(Balance(t)) <= Height(t)
  {
    TallNodeIsInner(t);
    assert BalanceFactorOf(t) == LeftHeavy;
    if BalanceFactorRaw(t.left) < 0 {
      assert Balance(t) == RotateRL(t);
      RotateRLBalances(t);
    } else {
      assert Balance(t) == RotateRR(t);
      RotateRRBalances(t);
    }
  }

  /** `balance` at a RIGHT_HEAVY node picks LR or LL and ends one level lower or at the same height. */
  lemma {:induction false} BalanceRightHeavy(t: Tree)
    requires t.Node? && HeightsOk(t) && HeightBalanced(t.left) && HeightBalanced(t.right)
    requires BalanceFactorRaw(t) == -2
    ensures HeightsOk(Balance(t)) && HeightBalanced(Balance(t))
    ensures Height(t) - 1 <= Height(Balance(t)) <= Height(t)
  {
    TallNodeIsInner(t);
    assert BalanceFactorOf(t) == RightHeavy;
    if BalanceFactorRaw(t.right) > 0 {
      assert Balance(t) == RotateLR(t);
      RotateLRBalances(t);
    } else {
      assert Balance(t) == RotateLL(t);
      RotateLLBalances(t);
    }
  }

  /**
   * `balance` restores the balance invariant at a node whose children are
   * balanced and whose factor is within [-2, 2]; the subtree keeps its height
   * or, after a rotation, may lose one level.
   */
  lemma {:induction false} BalanceRestores(t: Tree)
    requires t.Node? && HeightsOk(t) && HeightBalanced(t.left) && HeightBalanced(t.right)
    requires -2 <= BalanceFactorRaw(t) <= 2
    ensures HeightsOk(Balance(t)) && HeightBalanced(Balance(t))
    ensures Height(Balance(t)) == Height(t)
         || (!IsBalanced(BalanceFactorOf(t)) && Height(Balance(t)) == Height(t) - 1)
  {
    if BalanceFactorRaw(t) == 2 {
      BalanceLeftHeavy(t);
    } else if BalanceFactorRaw(t) == -2 {
      BalanceRightHeavy(t);
    }
  }
}
