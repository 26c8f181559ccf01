/**
 * The linked interval tree: mutable `Node` objects with left/right child
 * references, each caching the maximum interval of its subtree and its
 * height, and the `IntervalTree` object that owns the root. Every node
 * carries a ghost `Model`, the `AvlModel.Tree` value its subtree stands for,
 * and a ghost `Repr`, the nodes of its subtree; each method states its
 * effect as the corresponding `AvlModel` function applied to the old model.
 * The parent back-reference is not modelled.
 */
module IntervalTrees {
  import opened Wrappers
  import opened IntervalType
  import opened IntervalB
  import opened AvlModel
  import opened AvlOrder
  import opened AvlUpdate
  import opened AvlQueries
  import opened AvlChecks
  import opened AvlSets

  /** The subtree value of a possibly missing node. */
  ghost function ModelOf(n: Node?): Tree
    reads n
  {
    if n == null then Nil else n.Model
  }

  /** The nodes of a possibly missing node's subtree. */
  ghost function ReprOf(n: Node?): set<Node>
    reads n
  {
    if n == null then {} else n.Repr
  }

  /** Appending two event batches in turn appends their concatenation. */
  lemma AppendAssociative(e: seq<Change>, a: seq<Change>, b: seq<Change>)
    ensures (e + a) + b == e + (a + b)
  {
  }

  /**
   * The copying loop of `toArray(a)`: the intervals go, in order, into the
   * first slots of `output`; the later slots keep what they held.
   */
  method CopyInto(output: array<Option<IntervalB>>, elements: seq<IntervalB>)
    requires |elements| <= output.Length
    modifies output
    ensures forall i :: 0 <= i < |elements| ==> output[i] == Some(elements[i])
    ensures forall i :: |elements| <= i < output.Length ==> output[i] == old(output[i])
  {
    for index := 0 to |elements|
      invariant forall i :: 0 <= i < index ==> output[i] == Some(elements[i])
      invariant forall i :: |elements| <= i < output.Length ==> output[i] == old(output[i])
    {
      output[index] := Some(elements[index]);
    }
  }

  class Node {
    var interval: IntervalB
    var left: Node?
    var right: Node?
    var maximum: IntervalB
    var height: nat
    ghost var Model: Tree
    ghost var Repr: set<Node>

    /**
     * The subtree is a finite tree of distinct nodes: the footprint holds the
     * node and its children's footprints, which do not overlap and do not
     * hold the node; every model matches its node's fields and children.
     */
    ghost predicate Valid()
      reads this, Repr
      ensures Valid() ==> this in Repr && Model.Node?
      decreases Repr
    {
      && this in Repr
      && (left != null ==> left in Repr && left.Repr <= Repr && this !in left.Repr && left.Valid())
      && (right != null ==> right in Repr && right.Repr <= Repr && this !in right.Repr && right.Valid())
      && (left != null && right != null ==> left.Repr !! right.Repr)
      && Model == Tree.Node(if left == null then Nil else left.Model, interval,
                            if right == null then Nil else right.Model, maximum, height)
    }

    /** `Node(interval)`: a childless node whose maximum is its interval, height 0. */
    constructor (x: IntervalB)
      ensures Valid() && fresh(Repr) && Repr == {this}
      ensures Model == NewLeaf(x)
    {
      interval := x;
      maximum := x;
      left := null;
      right := null;
      height := 0;
      Model := NewLeaf(x);
      Repr := {this};
    }

    /**
     * `updateMaximum`: recomputes the cached maxima of the whole subtree and
     * returns this node's.
     */
    method UpdateMaximum() returns (r: IntervalB)
      requires Valid()
      modifies Repr
      ensures Valid() && Repr == old(Repr)
      ensures Model == AvlModel.UpdateMaximum(old(Model))
      ensures r == maximum
      decreases Repr
    {
      ghost var t := Model;
      var newMaximum := maximum;
      if left != null {
        var m := left.UpdateMaximum();
        newMaximum := UpperMaximum(maximum, m);
      }
      if right != null {
        var m := right.UpdateMaximum();
        newMaximum := UpperMaximum(maximum, m);
      }
      assert left != null ==> left.Valid() && left.Model == AvlModel.UpdateMaximum(t.left);
      assert right != null ==> right.Valid() && right.Model == AvlModel.UpdateMaximum(t.right);
      maximum := newMaximum;
      Model := Tree.Node(if left == null then Nil else left.Model, interval,
                         if right == null then Nil else right.Model, maximum, height);
      r := newMaximum;
    }

    /** `leftHeight`: the left child's stored height, 0 when there is none. */
    function LeftHeight(): (h: nat)
      reads this, Repr
      requires Valid()
      ensures h == Height(Model.left)
    {
      assert left != null ==> left.Valid();
      if left == null then 0 else left.height
    }

    /** `rightHeight`: the right child's stored height, 0 when there is none. */
    function RightHeight(): (h: nat)
      reads this, Repr
      requires Valid()
      ensures h == Height(Model.right)
    {
      assert right != null ==> right.Valid();
      if right == null then 0 else right.height
    }

    /** `balanceFactorRaw`: left height minus right height. */
    function BalanceFactorRaw(): (d: int)
      reads this, Repr
      requires Valid()
      ensures d == AvlModel.BalanceFactorRaw(Model)
    {
      LeftHeight() - RightHeight()
    }

    /** `balanceFactor`. */
    function Factor(): (f: BalanceFactor)
      reads this, Repr
      requires Valid()
      ensures f == BalanceFactorOf(Model)
    {
      Classify(BalanceFactorRaw())
    }

    /** `checkInvariants`, without the reference-identity checks. */
    function CheckInvariants(): (ok: bool)
      reads this, Repr
      requires Valid()
      ensures ok == LocallyOrdered(Model)
    {
      assert left != null ==> left.Valid();
      assert right != null ==> right.Valid();
      && (left != null ==> Compare(left.interval, interval) == LessThan)
      && (right != null ==> Compare(right.interval, interval) == MoreThan)
    }

    /** `updateHeight`: one more than the taller child. */
    method UpdateHeight()
      requires Valid()
      modifies this
      ensures Valid() && Repr == old(Repr)
      ensures left == old(left) && right == old(right)
      ensures interval == old(interval) && maximum == old(maximum)
      ensures Model == AvlModel.UpdateHeight(old(Model))
    {
      assert left != null ==> left.Valid();
      assert right != null ==> right.Valid();
      var lh := if left == null then 0 else left.height;
      var rh := if right == null then 0 else right.height;
      height := Max(lh, rh) + 1;
      Model := Model.(height := height);
    }

    /**
     * `takeOwnershipLeft`: adopts `node` (possibly null) as the left child.
     * The `checkInvariants` runs on the adopted node and on this node pass.
     */
    method TakeOwnershipLeft(node: Node?)
      requires node != null ==> node.Valid() && this !in node.Repr
      requires right != null ==> right.Valid() && this !in right.Repr
      requires node != null && right != null ==> node.Repr !! right.Repr
      requires LocallyOrdered(ModelOf(node))
      requires LocallyOrdered(Tree.Node(ModelOf(node), interval, ModelOf(right), maximum, height))
      modifies this
      ensures Valid() && Repr == {this} + ReprOf(node) + ReprOf(right)
      ensures left == node && right == old(right)
      ensures interval == old(interval) && maximum == old(maximum) && height == old(height)
      ensures Model == Tree.Node(ModelOf(node), interval, ModelOf(right), maximum, height)
    {
      left := node;
      Repr := {this} + ReprOf(left) + ReprOf(right);
      Model := Tree.Node(ModelOf(left), interval, ModelOf(right), maximum, height);
    }

    /**
     * `takeOwnershipRight`: adopts `node` (possibly null) as the right child.
     * The `checkInvariants` runs on the adopted node and on this node pass.
     */
    method TakeOwnershipRight(node: Node?)
      requires node != null ==> node.Valid() && this !in node.Repr
      requires left != null ==> left.Valid() && this !in left.Repr
      requires node != null && left != null ==> node.Repr !! left.Repr
      requires LocallyOrdered(ModelOf(node))
      requires LocallyOrdered(Tree.Node(ModelOf(left), interval, ModelOf(node), maximum, height))
      modifies this
      ensures Valid() && Repr == {this} + ReprOf(left) + ReprOf(node)
      ensures right == node && left == old(left)
      ensures interval == old(interval) && maximum == old(maximum) && height == old(height)
      ensures Model == Tree.Node(ModelOf(left), interval, ModelOf(node), maximum, height)
    {
      right := node;
      Repr := {this} + ReprOf(left) + ReprOf(right);
      Model := Tree.Node(ModelOf(left), interval, ModelOf(right), maximum, height);
    }

    /**
     * The rotation step for one node: adopt `node` as the left child, then
     * recompute the height.
     */
    method AdoptLeft(node: Node?)
      requires node != null ==> node.Valid() && this !in node.Repr
      requires right != null ==> right.Valid() && this !in right.Repr
      requires node != null && right != null ==> node.Repr !! right.Repr
      requires LocallyOrdered(ModelOf(node))
      requires LocallyOrdered(Tree.Node(ModelOf(node), interval, ModelOf(right), maximum, height))
      modifies this
      ensures Valid() && Repr == {this} + ReprOf(node) + ReprOf(right)
      ensures left == node && right == old(right)
      ensures interval == old(interval) && maximum == old(maximum)
      ensures Model == AvlModel.UpdateHeight(Tree.Node(ModelOf(node), interval, ModelOf(right), maximum, old(height)))
    {
      TakeOwnershipLeft(node);
      UpdateHeight();
    }

    /**
     * The rotation step for one node: adopt `node` as the right child, then
     * recompute the height.
     */
    method AdoptRight(node: Node?)
      requires node != null ==> node.Valid() && this !in node.Repr
      requires left != null ==> left.Valid() && this !in left.Repr
      requires node != null && left != null ==> node.Repr !! left.Repr
      requires LocallyOrdered(ModelOf(node))
      requires LocallyOrdered(Tree.Node(ModelOf(left), interval, ModelOf(node), maximum, height))
      modifies this
      ensures Valid() && Repr == {this} + ReprOf(left) + ReprOf(node)
      ensures right == node && left == old(left)
      ensures interval == old(interval) && maximum == old(maximum)
      ensures Model == AvlModel.UpdateHeight(Tree.Node(ModelOf(left), interval, ModelOf(node), maximum, old(height)))
    {
      TakeOwnershipRight(node);
      UpdateHeight();
    }

    /** `setInterval`: replaces the interval; the cached maximum is left alone. */
    method SetInterval(x: IntervalB)
      requires Valid()
      modifies this
      ensures Valid() && Repr == old(Repr) && left == old(left) && right == old(right)
      ensures interval == x && maximum == old(maximum) && height == old(height)
      ensures Model == old(Model).(interval := x)
    {
      interval := x;
      Model := Tree.Node(ModelOf(left), interval, ModelOf(right), maximum, height);
    }
  }

  class IntervalTree {
    var root: Node?
    var validation: bool
    /** Every change published to the listener, oldest first. */
    ghost var Events: seq<Change>
    ghost var Model: Tree
    ghost var Repr: set<object>

    /** The tree owns its nodes, its model is the root's, and the AVL search-tree invariant holds. */
    ghost predicate Valid()
      reads this, Repr
    {
      && this in Repr
      && (root != null ==> root in Repr && root.Repr <= Repr && root.Valid())
      && Model == ModelOf(root)
      && Invariant(Model)
    }

    /** `publish`: hands one change to the listener. */
    ghost method Publish(c: Change)
      modifies this`Events
      ensures Events == old(Events) + [c]
    {
      Events := Events + [c];
    }

    /** `rotateRR`: the left child `b` of `c` becomes the subtree root. */
    method RotateRR(c: Node) returns (b: Node)
      requires c.Valid() && c.left != null && Ordered(c.Model)
      modifies c, c.left
      ensures b == old(c.left) && b.Valid() && b.Repr <= old(c.Repr)
      ensures b.Model == AvlModel.RotateRR(old(c.Model))
    {
      b := c.left;
      RotateRRChecks(c.Model);
      c.AdoptLeft(b.right);
      b.AdoptRight(c);
    }

    /** `rotateLL`: the right child `b` of `a` becomes the subtree root. */
    method RotateLL(a: Node) returns (b: Node)
      requires a.Valid() && a.right != null && Ordered(a.Model)
      modifies a, a.right
      ensures b == old(a.right) && b.Valid() && b.Repr <= old(a.Repr)
      ensures b.Model == AvlModel.RotateLL(old(a.Model))
    {
      b := a.right;
      RotateLLChecks(a.Model);
      a.AdoptRight(b.left);
      b.AdoptLeft(a);
    }

    /** The first half of `rotateRL`: the left child is rotated left and re-adopted. */
    method RotateLeftChildLeft(c: Node)
      requires c.Valid() && BalanceReady(c.Model) && AvlModel.BalanceFactorRaw(c.Model) == 2
      requires c.Model.left.Node? && AvlModel.BalanceFactorRaw(c.Model.left) < 0
      modifies c, c.left, c.left.right
      ensures c.Valid() && c.Repr <= old(c.Repr) && c.left == old(c.left.right)
      ensures c.Model == old(c.Model).(left := AvlModel.RotateLL(old(c.Model).left))
    {
      RotateRLChecks(c.Model);
      var l := RotateLL(c.left);
      c.TakeOwnershipLeft(l);
    }

    /**
     * `rotateRL`: the left child is rotated left and re-adopted; the node is
     * then LEFT_HEAVY (the checked postcondition) and is rotated right.
     */
    method RotateRL(c: Node) returns (r: Node)
      requires c.Valid() && BalanceReady(c.Model) && AvlModel.BalanceFactorRaw(c.Model) == 2
      requires c.Model.left.Node? && AvlModel.BalanceFactorRaw(c.Model.left) < 0
      modifies c, c.left, c.left.right
      ensures r.Valid() && r.Repr <= old(c.Repr)
      ensures r.Model == AvlModel.RotateRL(old(c.Model))
    {
      RotateRLChecks(c.Model);
      RotateLeftChildLeft(c);
      var f := c.Factor();
      assert f == LeftHeavy;
      r := RotateRR(c);
    }

    /** The first half of `rotateLR`: the right child is rotated right and re-adopted. */
    method RotateRightChildRight(c: Node)
      requires c.Valid() && BalanceReady(c.Model) && AvlModel.BalanceFactorRaw(c.Model) == -2
      requires c.Model.right.Node? && AvlModel.BalanceFactorRaw(c.Model.right) > 0
      modifies c, c.right, c.right.left
      ensures c.Valid() && c.Repr <= old(c.Repr) && c.right == old(c.right.left)
      ensures c.Model == old(c.Model).(right := AvlModel.RotateRR(old(c.Model).right))
    {
      RotateLRChecks(c.Model);
      var r := RotateRR(c.right);
      c.TakeOwnershipRight(r);
    }

    /**
     * `rotateLR`: the right child is rotated right and re-adopted; the node
     * is then RIGHT_HEAVY (the checked postcondition) and is rotated left.
     */
    method RotateLR(c: Node) returns (r: Node)
      requires c.Valid() && BalanceReady(c.Model) && AvlModel.BalanceFactorRaw(c.Model) == -2
      requires c.Model.right.Node? && AvlModel.BalanceFactorRaw(c.Model.right) > 0
      modifies c, c.right, c.right.left
      ensures r.Valid() && r.Repr <= old(c.Repr)
      ensures r.Model == AvlModel.RotateLR(old(c.Model))
    {
      RotateLRChecks(c.Model);
      RotateRightChildRight(c);
      var f := c.Factor();
      assert f == RightHeavy;
      r := RotateLL(c);
    }

    /**
     * `balance`: rotates a LEFT_HEAVY or RIGHT_HEAVY node, choosing the
     * rotation by the heavy child's balance factor, and publishes it.
     */
    method Balance(current: Node) returns (n: Node)
      requires current.Valid() && BalanceReady(current.Model)
      modifies this`Events, current.Repr
      ensures n.Valid() && n.Repr <= old(current.Repr)
      ensures n.Model == AvlModel.Balance(old(current.Model))
      ensures Events == old(Events) + BalanceEvents(old(current.Model))
    {
      var f := current.Factor();
      match f
      case LeftHeavy =>
        assert current.left != null && current.left.Valid();
        var g := current.left.Factor();
        if g == RightHeavy || g == LeaningRight {
          Publish(Balanced(RL, current.interval));
          n := RotateRL(current);
        } else {
          Publish(Balanced(RR, current.interval));
          n := RotateRR(current);
        }
      case RightHeavy =>
        assert current.right != null && current.right.Valid();
        var g := current.right.Factor();
        if g == LeftHeavy || g == LeaningLeft {
          Publish(Balanced(LR, current.interval));
          n := RotateLR(current);
        } else {
          Publish(Balanced(LL, current.interval));
          n := RotateLL(current);
        }
      case _ =>
        n := current;
    }

    /**
     * The unwinding step of `create` and `removeAt` at one node:
     * `updateMaximum`, `updateHeight`, then `balance`.
     */
    method Restore(current: Node) returns (n: Node)
      requires current.Valid() && BalanceReady(AvlModel.UpdateHeight(UpdateMaximum(current.Model)))
      modifies this`Events, current.Repr
      ensures n.Valid() && n.Repr <= old(current.Repr)
      ensures n.Model == AvlModel.Restore(old(current.Model))
      ensures Events == old(Events) + RestoreEvents(old(current.Model))
    {
      var m := current.UpdateMaximum();
      current.UpdateHeight();
      n := Balance(current);
    }

    /**
     * One level of unwinding once the left subtree has been rebuilt as `l`:
     * `takeOwnershipLeft(l)`, then `updateMaximum`, `updateHeight`, `balance`.
     */
    method UnwindLeft(current: Node, l: Node?) returns (n: Node)
      requires l != null ==> l.Valid() && current !in l.Repr
      requires current.right != null ==> current.right.Valid() && current !in current.right.Repr
      requires l != null && current.right != null ==> l.Repr !! current.right.Repr
      requires LocallyOrdered(ModelOf(l))
      requires LocallyOrdered(Tree.Node(ModelOf(l), current.interval, ModelOf(current.right), current.maximum, current.height))
      requires BalanceReady(AvlModel.UpdateHeight(UpdateMaximum(
        Tree.Node(ModelOf(l), current.interval, ModelOf(current.right), current.maximum, current.height))))
      modifies this`Events, current, ReprOf(l), ReprOf(current.right)
      ensures n.Valid() && n.Repr <= {current} + old(ReprOf(l)) + old(ReprOf(current.right))
      ensures n.Model == AvlModel.Restore(
        old(Tree.Node(ModelOf(l), current.interval, ModelOf(current.right), current.maximum, current.height)))
      ensures Events == old(Events) + RestoreEvents(
        old(Tree.Node(ModelOf(l), current.interval, ModelOf(current.right), current.maximum, current.height)))
    {
      current.TakeOwnershipLeft(l);
      n := Restore(current);
    }

    /**
     * One level of unwinding once the right subtree has been rebuilt as `r`:
     * `takeOwnershipRight(r)`, then `updateMaximum`, `updateHeight`, `balance`.
     */
    method UnwindRight(current: Node, r: Node?) returns (n: Node)
      requires r != null ==> r.Valid() && current !in r.Repr
      requires current.left != null ==> current.left.Valid() && current !in current.left.Repr
      requires r != null && current.left != null ==> r.Repr !! current.left.Repr
      requires LocallyOrdered(ModelOf(r))
      requires LocallyOrdered(Tree.Node(ModelOf(current.left), current.interval, ModelOf(r), current.maximum, current.height))
      requires BalanceReady(AvlModel.UpdateHeight(UpdateMaximum(
        Tree.Node(ModelOf(current.left), current.interval, ModelOf(r), current.maximum, current.height))))
      modifies this`Events, current, ReprOf(r), ReprOf(current.left)
      ensures n.Valid() && n.Repr <= {current} + old(ReprOf(current.left)) + old(ReprOf(r))
      ensures n.Model == AvlModel.Restore(
        old(Tree.Node(ModelOf(current.left), current.interval, ModelOf(r), current.maximum, current.height)))
      ensures Events == old(Events) + RestoreEvents(
        old(Tree.Node(ModelOf(current.left), current.interval, ModelOf(r), current.maximum, current.height)))
    {
      current.TakeOwnershipRight(r);
      n := Restore(current);
    }

    // -------------------------------------------------------------------
    // Insertion

    /**
     * `create`: inserts `x` below `current` and returns the new subtree
     * root. A duplicate (DuplicateIntervalException) changes nothing.
     */
    method CreateAt(current: Node?, x: IntervalB) returns (n: Node?, inserted: bool)
      requires current != null ==> current.Valid() && Invariant(current.Model)
      modifies this`Events, ReprOf(current)
      ensures inserted <==> Create(old(ModelOf(current)), x).Inserted?
      ensures inserted ==> n != null && n.Valid() && fresh(n.Repr - old(ReprOf(current)))
      ensures inserted ==> n.Model == Create(old(ModelOf(current)), x).root
      ensures !inserted ==> n == current && unchanged(old(ReprOf(current)))
      ensures Events == old(Events) + CreateEvents(old(ModelOf(current)), x)
      decreases ReprOf(current)
    {
      if current == null {
        Publish(Created(x));
        n := new Node(x);
        var m := n.UpdateMaximum();
        inserted := true;
        return;
      }
      match Compare(x, current.interval)
      case Equal =>
        n, inserted := current, false;
      case LessThan =>
        n, inserted := CreateLeft(current, x);
      case MoreThan =>
        n, inserted := CreateRight(current, x);
    }

    /** `create` descending to the left of `current`. */
    method CreateLeft(current: Node, x: IntervalB) returns (n: Node?, inserted: bool)
      requires current.Valid() && Invariant(current.Model) && Compare(x, current.interval) == LessThan
      modifies this`Events, current.Repr
      ensures inserted <==> Create(old(current.Model), x).Inserted?
      ensures inserted ==> n != null && n.Valid() && fresh(n.Repr - old(current.Repr))
      ensures inserted ==> n.Model == Create(old(current.Model), x).root
      ensures !inserted ==> n == current && unchanged(old(current.Repr))
      ensures Events == old(Events) + CreateEvents(old(current.Model), x)
      decreases current.Repr, 0
    {
      ghost var t, R, E := current.Model, current.Repr, Events;
      ghost var S := ReprOf(current.right);
      assert ReprOf(current.left) <= R && S <= R;
      var l, ok := CreateAt(current.left, x);
      if !ok {
        n, inserted := current, false;
        return;
      }
      CreateStepLeft(t, x);
      ghost var u := Tree.Node(ModelOf(l), current.interval, ModelOf(current.right), current.maximum, current.height);
      assert u == t.(left := Create(t.left, x).root);
      assert ReprOf(current.right) == S;
      n := UnwindLeft(current, l);
      AppendAssociative(E, CreateEvents(t.left, x), RestoreEvents(u));
      inserted := true;
    }

    /** `create` descending to the right of `current`. */
    method CreateRight(current: Node, x: IntervalB) returns (n: Node?, inserted: bool)
      requires current.Valid() && Invariant(current.Model) && Compare(x, current.interval) == MoreThan
      modifies this`Events, current.Repr
      ensures inserted <==> Create(old(current.Model), x).Inserted?
      ensures inserted ==> n != null && n.Valid() && fresh(n.Repr - old(current.Repr))
      ensures inserted ==> n.Model == Create(old(current.Model), x).root
      ensures !inserted ==> n == current && unchanged(old(current.Repr))
      ensures Events == old(Events) + CreateEvents(old(current.Model), x)
      decreases current.Repr, 0
    {
      ghost var t, R, E := current.Model, current.Repr, Events;
      ghost var S := ReprOf(current.left);
      assert ReprOf(current.right) <= R && S <= R;
      var r, ok := CreateAt(current.right, x);
      if !ok {
        n, inserted := current, false;
        return;
      }
      CreateStepRight(t, x);
      ghost var u := Tree.Node(ModelOf(current.left), current.interval, ModelOf(r), current.maximum, current.height);
      assert u == t.(right := Create(t.right, x).root);
      assert ReprOf(current.left) == S;
      n := UnwindRight(current, r);
      AppendAssociative(E, CreateEvents(t.right, x), RestoreEvents(u));
      inserted := true;
    }

    // -------------------------------------------------------------------
    // Removal

    /** `findMinimum`: the leftmost node below `current`. */
    function FindMinimum(current: Node): (m: Node)
      reads current.Repr
      requires current.Valid()
      ensures m.Valid() && m.Model == AvlModel.FindMinimum(current.Model)
      decreases current.Repr
    {
      if current.left != null then FindMinimum(current.left) else current
    }

    /**
     * `removeAt`: removes `x` from below `current` and returns the new
     * subtree root. A missing interval (NonexistentIntervalException)
     * changes nothing.
     */
    method RemoveAt(current: Node?, x: IntervalB) returns (n: Node?, removed: bool)
      requires current != null ==> current.Valid() && Invariant(current.Model)
      modifies this`Events, ReprOf(current)
      ensures removed <==> AvlModel.RemoveAt(old(ModelOf(current)), x).Removed?
      ensures removed ==> n != null ==> n.Valid() && n.Repr <= old(ReprOf(current))
      ensures removed ==> ModelOf(n) == AvlModel.RemoveAt(old(ModelOf(current)), x).root
      ensures !removed ==> n == current && unchanged(old(ReprOf(current)))
      ensures Events == old(Events) + RemoveEvents(old(ModelOf(current)), x)
      decreases ReprOf(current), 3
    {
      if current == null {
        n, removed := null, false;
        return;
      }
      match Compare(x, current.interval)
      case Equal =>
        n := RemoveHere(current, x);
        removed := true;
      case LessThan =>
        n, removed := RemoveLeft(current, x);
      case MoreThan =>
        n, removed := RemoveRight(current, x);
    }

    /**
     * `removeAt` at the node holding `x`: a leaf disappears, a node with one
     * child is replaced by it, and a node with two children takes over its
     * successor's interval.
     */
    method RemoveHere(current: Node, x: IntervalB) returns (n: Node?)
      requires current.Valid() && Invariant(current.Model) && Compare(x, current.interval) == Equal
      modifies this`Events, current.Repr
      ensures AvlModel.RemoveAt(old(current.Model), x).Removed?
      ensures n != null ==> n.Valid() && n.Repr <= old(current.Repr)
      ensures ModelOf(n) == AvlModel.RemoveAt(old(current.Model), x).root
      ensures Events == old(Events) + RemoveEvents(old(current.Model), x)
      decreases current.Repr, 2
    {
      if current.left == null && current.right == null {
        Publish(Deleted(Leaf, x));
        n := null;
      } else if (current.left != null) != (current.right != null) {
        if current.left != null {
          Publish(Deleted(SingleParentL, x));
          n := current.left;
        } else {
          Publish(Deleted(SingleParentR, x));
          n := current.right;
        }
      } else {
        n := RemoveBranch(current, x);
      }
    }

    /**
     * `removeAt` at a node with two children: the node takes the interval of
     * the leftmost node of its right subtree, which is then removed there.
     */
    method RemoveBranch(current: Node, x: IntervalB) returns (n: Node)
      requires current.Valid() && Invariant(current.Model) && Compare(x, current.interval) == Equal
      requires current.left != null && current.right != null
      modifies this`Events, current.Repr
      ensures n.Valid() && n.Repr <= old(current.Repr)
      ensures AvlModel.RemoveAt(old(current.Model), x) == Removed(n.Model)
      ensures Events == old(Events) + RemoveEvents(old(current.Model), x)
      decreases current.Repr, 1
    {
      ghost var t := current.Model;
      var successor := FindMinimum(current.right);
      current.SetInterval(successor.interval);
      n := RemoveSuccessor(current, x, t);
    }

    /**
     * The rest of `removeAt` at a node with two children whose model was
     * `t`, once the node holds its successor's interval: the successor is
     * removed from the right subtree, which the node re-adopts.
     */
    method RemoveSuccessor(current: Node, x: IntervalB, ghost t: Tree) returns (n: Node)
      requires t.Node? && t.left.Node? && t.right.Node? && Invariant(t) && Compare(x, t.interval) == Equal
      requires current.Valid() && current.Model == t.(interval := AvlModel.FindMinimum(t.right).interval)
      modifies this`Events, current.Repr
      ensures n.Valid() && n.Repr <= old(current.Repr)
      ensures AvlModel.RemoveAt(t, x) == Removed(n.Model)
      ensures Events == old(Events) + RemoveEvents(t, x)
      decreases current.Repr, 0
    {
      ghost var E := Events;
      ghost var S := ReprOf(current.left);
      RemoveStepBranch(t, x);
      var s := current.interval;
      assert current.right != null && current.right.Valid();
      var r, ok := RemoveAt(current.right, s);
      assert ok;
      assert ReprOf(current.left) == S;
      ghost var u := Tree.Node(ModelOf(current.left), current.interval, ModelOf(r), current.maximum, current.height);
      assert u == Tree.Node(t.left, s, AvlModel.RemoveAt(t.right, s).root, t.maximum, t.height);
      ghost var A, E' := RemoveEvents(t.right, s), Events;
      n := UnwindBranch(current, r, x);
      assert Events == E' + [Deleted(Branch, x)] + RestoreEvents(u);
      AppendAssociative(E, A, [Deleted(Branch, x)]);
      AppendAssociative(E, A + [Deleted(Branch, x)], RestoreEvents(u));
    }

    /**
     * The end of `removeAt` at a node with two children, once the successor
     * is gone from the right subtree `r`: `takeOwnershipRight(r)`,
     * `updateMaximum`, `updateHeight`, the Branch deletion is published, and
     * `balance`.
     */
    method UnwindBranch(current: Node, r: Node?, x: IntervalB) returns (n: Node)
      requires r != null ==> r.Valid() && current !in r.Repr
      requires current.left != null ==> current.left.Valid() && current !in current.left.Repr
      requires r != null && current.left != null ==> r.Repr !! current.left.Repr
      requires LocallyOrdered(ModelOf(r))
      requires LocallyOrdered(Tree.Node(ModelOf(current.left), current.interval, ModelOf(r), current.maximum, current.height))
      requires BalanceReady(AvlModel.UpdateHeight(UpdateMaximum(
        Tree.Node(ModelOf(current.left), current.interval, ModelOf(r), current.maximum, current.height))))
      modifies this`Events, current, ReprOf(r), ReprOf(current.left)
      ensures n.Valid() && n.Repr <= {current} + old(ReprOf(current.left)) + old(ReprOf(r))
      ensures n.Model == AvlModel.Restore(
        old(Tree.Node(ModelOf(current.left), current.interval, ModelOf(r), current.maximum, current.height)))
      ensures Events == old(Events) + [Deleted(Branch, x)] + RestoreEvents(
        old(Tree.Node(ModelOf(current.left), current.interval, ModelOf(r), current.maximum, current.height)))
    {
      current.TakeOwnershipRight(r);
      var m := current.UpdateMaximum();
      current.UpdateHeight();
      Publish(Deleted(Branch, x));
      n := Balance(current);
    }

    /** `removeAt` descending to the left of `current`. */
    method RemoveLeft(current: Node, x: IntervalB) returns (n: Node?, removed: bool)
      requires current.Valid() && Invariant(current.Model) && Compare(x, current.interval) == LessThan
      modifies this`Events, current.Repr
      ensures removed <==> AvlModel.RemoveAt(old(current.Model), x).Removed?
      ensures removed ==> n != null && n.Valid() && n.Repr <= old(current.Repr)
      ensures removed ==> n.Model == AvlModel.RemoveAt(old(current.Model), x).root
      ensures !removed ==> n == current && unchanged(old(current.Repr))
      ensures Events == old(Events) + RemoveEvents(old(current.Model), x)
      decreases current.Repr, 2
    {
      ghost var t, R, E := current.Model, current.Repr, Events;
      ghost var S := ReprOf(current.right);
      assert ReprOf(current.left) <= R && S <= R;
      var l, ok := RemoveAt(current.left, x);
      if !ok {
        n, removed := current, false;
        return;
      }
      RemoveStepLeft(t, x);
      ghost var u := Tree.Node(ModelOf(l), current.interval, ModelOf(current.right), current.maximum, current.height);
      assert u == t.(left := AvlModel.RemoveAt(t.left, x).root);
      assert ReprOf(current.right) == S;
      n := UnwindLeft(current, l);
      AppendAssociative(E, RemoveEvents(t.left, x), RestoreEvents(u));
      removed := true;
    }

    /** `removeAt` descending to the right of `current`. */
    method RemoveRight(current: Node, x: IntervalB) returns (n: Node?, removed: bool)
      requires current.Valid() && Invariant(current.Model) && Compare(x, current.interval) == MoreThan
      modifies this`Events, current.Repr
      ensures removed <==> AvlModel.RemoveAt(old(current.Model), x).Removed?
      ensures removed ==> n != null && n.Valid() && n.Repr <= old(current.Repr)
      ensures removed ==> n.Model == AvlModel.RemoveAt(old(current.Model), x).root
      ensures !removed ==> n == current && unchanged(old(current.Repr))
      ensures Events == old(Events) + RemoveEvents(old(current.Model), x)
      decreases current.Repr, 2
    {
      ghost var t, R, E := current.Model, current.Repr, Events;
      ghost var S := ReprOf(current.left);
      assert ReprOf(current.right) <= R && S <= R;
      var r, ok := RemoveAt(current.right, x);
      if !ok {
        n, removed := current, false;
        return;
      }
      RemoveStepRight(t, x);
      ghost var u := Tree.Node(ModelOf(current.left), current.interval, ModelOf(r), current.maximum, current.height);
      assert u == t.(right := AvlModel.RemoveAt(t.right, x).root);
      assert ReprOf(current.left) == S;
      n := UnwindRight(current, r);
      AppendAssociative(E, RemoveEvents(t.right, x), RestoreEvents(u));
      removed := true;
    }
  
    // -------------------------------------------------------------------
    // Traversals

    /** `sizeTraverse`: one for every node below `current`. */
    function SizeTraverse(current: Node?): (n: nat)
      reads if current == null then {} else current.Repr
      requires current != null ==> current.Valid()
      ensures n == AvlModel.Size(ModelOf(current))
      decreases if current == null then {} else current.Repr
    {
      if current == null then 0
      else
        assert current.left != null ==> current.left.Valid();
        assert current.right != null ==> current.right.Valid();
        1 + SizeTraverse(current.left) + SizeTraverse(current.right)
    }

    /** `findAt`: the search for `x` below `current`, guided by `compare`. */
    function FindAt(current: Node?, x: IntervalB): (b: bool)
      reads if current == null then {} else current.Repr
      requires current != null ==> current.Valid()
      ensures b == AvlModel.Find(ModelOf(current), x)
      decreases if current == null then {} else current.Repr
    {
      if current == null then false
      else
        assert current.left != null ==> current.left.Valid();
        assert current.right != null ==> current.right.Valid();
        match Compare(x, current.interval)
        case Equal => true
        case LessThan => FindAt(current.left, x)
        case MoreThan => FindAt(current.right, x)
    }

    /**
     * `overlappingAt`: the node's interval when it overlaps `q`, and a
     * child's results only when the child's cached maximum overlaps `q`.
     */
    function OverlappingAt(current: Node, q: IntervalB): (r: seq<IntervalB>)
      reads current.Repr
      requires current.Valid()
      ensures r == AvlModel.OverlappingAt(current.Model, q)
      decreases current.Repr
    {
      assert current.left != null ==> current.left.Valid();
      assert current.right != null ==> current.right.Valid();
      var here := if Overlaps(q, current.interval) then [current.interval] else [];
      var left := if current.left != null && Overlaps(current.left.maximum, q) then OverlappingAt(current.left, q) else [];
      var right := if current.right != null && Overlaps(current.right.maximum, q) then OverlappingAt(current.right, q) else [];
      left + here + right
    }

    /** `all`, mapped to the intervals: left subtree, node, right subtree. */
    function All(current: Node?): (r: seq<IntervalB>)
      reads if current == null then {} else current.Repr
      requires current != null ==> current.Valid()
      ensures r == InOrder(ModelOf(current))
      decreases if current == null then {} else current.Repr
    {
      if current == null then []
      else
        assert current.left != null ==> current.left.Valid();
        assert current.right != null ==> current.right.Valid();
        All(current.left) + [current.interval] + All(current.right)
    }

    /**
     * `validateAt`: `checkInvariants` and a balanced balance factor at every
     * node below `current`; false where the Java code throws.
     */
    function ValidateAt(current: Node?): (passed: bool)
      reads if current == null then {} else current.Repr
      requires current != null ==> current.Valid()
      ensures passed == ChecksPass(ModelOf(current))
      decreases if current == null then {} else current.Repr
    {
      if current == null then true
      else
        assert current.left != null ==> current.left.Valid();
        assert current.right != null ==> current.right.Valid();
        && current.CheckInvariants()
        && IsBalanced(current.Factor())
        && ValidateAt(current.left)
        && ValidateAt(current.right)
    }

    // -------------------------------------------------------------------
    // The tree operations

    /** `create()`: an empty tree with validation off. */
    constructor ()
      ensures Valid() && fresh(Repr) && Repr == {this}
      ensures root == null && Model == Nil && Events == [] && !validation
    {
      root := null;
      validation := false;
      Events := [];
      Model := Nil;
      Repr := {this};
    }

    /** `validate`: never throws on a valid tree. */
    function Validate(): (passed: bool)
      reads this, Repr
      requires Valid()
      ensures passed
    {
      InvariantPassesChecks(Model);
      ValidateAt(root)
    }

    /** `enableInternalValidation`. */
    method EnableInternalValidation(enabled: bool)
      requires Valid()
      modifies this`validation
      ensures Valid() && validation == enabled
    {
      validation := enabled;
    }

    /** `size`: the number of stored intervals. */
    function Size(): (n: nat)
      reads this, Repr
      requires Valid()
      ensures n == |Elements(Model)|
    {
      SizeCounts(Model);
      SizeTraverse(root)
    }

    /** `isEmpty`. */
    function IsEmpty(): (b: bool)
      reads this, Repr
      requires Valid()
      ensures b <==> Elements(Model) == {}
    {
      assert root != null ==> root.Model.interval in Elements(Model);
      root == null
    }

    /** `find`: whether exactly `x` is stored. */
    function Find(x: IntervalB): (b: bool)
      reads this, Repr
      requires Valid()
      ensures b <==> x in Elements(Model)
    {
      FindCorrect(Model, x);
      FindAt(root, x)
    }

    /**
     * `overlapping`: stored intervals overlapping `q`, in ascending order.
     * The pruning by cached maxima makes this the model's `Overlapping`,
     * which need not list every overlapping stored interval.
     */
    function Overlapping(q: IntervalB): (r: seq<IntervalB>)
      reads this, Repr
      requires Valid()
      ensures r == AvlModel.Overlapping(Model, q)
      ensures forall y :: y in r ==> y in Elements(Model) && Overlaps(q, y)
      ensures StrictlyAscending(r)
    {
      OverlappingSound(Model, q);
      if root == null then [] else OverlappingAt(root, q)
    }

    /** `iterator`: every stored interval once, in ascending order. */
    function Iterator(): (r: seq<IntervalB>)
      reads this, Repr
      requires Valid()
      ensures r == InOrder(Model)
      ensures StrictlyAscending(r)
      ensures forall y :: y in r <==> y in Elements(Model)
    {
      OrderedAscends(Model);
      InOrderElements(Model);
      All(root)
    }

    /** `toArray()`: a new array of the stored intervals in iteration order. */
    method ToArray() returns (output: array<IntervalB>)
      requires Valid()
      ensures fresh(output) && output[..] == Iterator()
    {
      var elements := All(root);
      output := new IntervalB[|elements|];
      for index := 0 to output.Length
        invariant output[..index] == elements[..index]
      {
        output[index] := elements[index];
      }
    }

    /**
     * `prepareArray`: a new array of exactly `size()` empty slots when `a` is
     * too short; otherwise `a`, with the slot just past the intervals
     * cleared when it is longer.
     */
    method PrepareArray(a: array<Option<IntervalB>>) returns (output: array<Option<IntervalB>>)
      requires Valid()
      modifies a
      ensures a.Length < |Elements(Model)| ==>
        fresh(output) && output.Length == |Elements(Model)| && a[..] == old(a[..])
        && forall i :: 0 <= i < output.Length ==> output[i] == None
      ensures a.Length == |Elements(Model)| ==> output == a && a[..] == old(a[..])
      ensures a.Length > |Elements(Model)| ==> output == a && a[..] == old(a[..])[|Elements(Model)| := None]
    {
      var size := Size();
      if a.Length < size {
        output := new Option<IntervalB>[size](_ => None);
        return;
      }
      if a.Length > size {
        a[size] := None;
      }
      output := a;
    }

    /**
     * `toArray(a)`: the stored intervals in iteration order, written into
     * `a` when it is long enough and into a new array otherwise.
     */
    method ToArrayInto(a: array<Option<IntervalB>>) returns (output: array<Option<IntervalB>>)
      requires Valid()
      modifies a
      ensures var e := InOrder(Model);
        && output.Length == Max(a.Length, |e|)
        && (output != a ==> fresh(output) && a[..] == old(a[..]))
        && (a.Length < |e| <==> output != a)
        && (forall i :: 0 <= i < |e| ==> output[i] == Some(e[i]))
        && (a.Length > |e| ==> output[|e|] == None)
        && (output == a ==> forall i :: |e| < i < a.Length ==> a[i] == old(a[i]))
    {
      var elements := All(root);
      SizeCounts(Model);
      output := PrepareArray(a);
      CopyInto(output, elements);
    }

    /** `clear`: publishes the clearing and forgets every node. */
    method Clear()
      requires Valid()
      modifies this
      ensures Valid() && root == null && Model == Nil && Repr == {this}
      ensures Events == old(Events) + [Cleared] && validation == old(validation)
    {
      Publish(Cleared);
      SetRoot(null);
    }

    /** Assignment to `root`: the tree now owns `n`'s subtree and stands for its model. */
    method SetRoot(n: Node?)
      requires n != null ==> n.Valid() && Invariant(n.Model)
      modifies this`root, this`Model, this`Repr
      ensures Valid() && root == n && Model == ModelOf(n) && Repr == {this} + ReprOf(n)
    {
      root := n;
      Model := ModelOf(n);
      Repr := {this} + ReprOf(n);
    }

    /** The end of `insert` and `remove`: `validate` when validation is on, which never throws. */
    method ValidateIfEnabled()
      requires Valid()
    {
      if validation {
        var passed := Validate();
        assert passed;
      }
    }

    /**
     * `insert`: adds `x` unless an equal interval is stored, publishing the
     * creation and every rotation; then `validate` when validation is on.
     */
    method Insert(x: IntervalB) returns (b: bool)
      requires Valid()
      modifies Repr
      ensures Valid() && fresh(Repr - old(Repr)) && validation == old(validation)
      ensures b <==> x !in old(Elements(Model))
      ensures Model == Inserting(old(Model), x)
      ensures Elements(Model) == old(Elements(Model)) + {x}
      ensures Events == old(Events) + CreateEvents(old(Model), x)
    {
      ghost var t := Model;
      CreateCorrect(t, x);
      var n, inserted := CreateAt(root, x);
      if !inserted {
        return false;
      }
      SetRoot(n);
      ValidateIfEnabled();
      b := true;
    }

    /**
     * `remove`: takes `x` out if it is stored, publishing the deletion and
     * every rotation; then `validate` when validation is on.
     */
    method Remove(x: IntervalB) returns (b: bool)
      requires Valid()
      modifies Repr
      ensures Valid() && Repr <= old(Repr) && validation == old(validation)
      ensures b <==> x in old(Elements(Model))
      ensures Model == Removing(old(Model), x)
      ensures Elements(Model) == old(Elements(Model)) - {x}
      ensures Events == old(Events) + RemoveEvents(old(Model), x)
    {
      ghost var t, R := Model, Repr;
      RemoveCorrect(t, x);
      var n, removed := RemoveAt(root, x);
      if !removed {
        return false;
      }
      assert ReprOf(n) <= R;
      SetRoot(n);
      ValidateIfEnabled();
      b := true;
    }
  
    // -------------------------------------------------------------------
    // The bulk `java.util.Set` operations of `IntervalTreeType`

    /** `containsAll`: whether every interval of `c` is stored. */
    method ContainsAll(c: seq<IntervalB>) returns (present: bool)
      requires Valid()
      ensures present <==> forall y :: y in c ==> y in Elements(Model)
    {
      present := true;
      for i := 0 to |c|
        invariant present <==> forall j :: 0 <= j < i ==> c[j] in Elements(Model)
      {
        present := present && Find(c[i]);
      }
    }

    /**
     * `addAll`: inserts the intervals of `c` in turn; the result says
     * whether the set changed.
     */
    method AddAll(c: seq<IntervalB>) returns (changed: bool)
      requires Valid()
      modifies Repr
      ensures Valid() && fresh(Repr - old(Repr)) && validation == old(validation)
      ensures Model == InsertingAll(old(Model), c)
      ensures Events == old(Events) + InsertingAllEvents(old(Model), c)
      ensures forall y :: y in Elements(Model) <==> y in old(Elements(Model)) || y in c
      ensures changed <==> Elements(Model) != old(Elements(Model))
    {
      ghost var t, E := Model, Events;
      changed := false;
      for i := 0 to |c|
        invariant Valid() && fresh(Repr - old(Repr)) && validation == old(validation)
        invariant Model == InsertingAll(t, c[..i])
        invariant Events == E + InsertingAllEvents(t, c[..i])
        invariant Elements(t) <= Elements(Model)
        invariant changed <==> Elements(Model) != Elements(t)
      {
        ghost var M := Model;
        var b := Insert(c[i]);
        changed := changed || b;
        assert c[..i + 1][..i] == c[..i];
        AppendAssociative(E, InsertingAllEvents(t, c[..i]), CreateEvents(M, c[i]));
      }
      assert c[..|c|] == c;
      InsertingAllAdds(t, c);
    }

    /**
     * `removeAll`: removes the intervals of `c` in turn; the result says
     * whether the set changed.
     */
    method RemoveAll(c: seq<IntervalB>) returns (changed: bool)
      requires Valid()
      modifies Repr
      ensures Valid() && Repr <= old(Repr) && validation == old(validation)
      ensures Model == RemovingAll(old(Model), c)
      ensures Events == old(Events) + RemovingAllEvents(old(Model), c)
      ensures forall y :: y in Elements(Model) <==> y in old(Elements(Model)) && y !in c
      ensures changed <==> Elements(Model) != old(Elements(Model))
    {
      ghost var t, E := Model, Events;
      changed := false;
      for i := 0 to |c|
        invariant Valid() && Repr <= old(Repr) && validation == old(validation)
        invariant Model == RemovingAll(t, c[..i])
        invariant Events == E + RemovingAllEvents(t, c[..i])
        invariant Elements(Model) <= Elements(t)
        invariant changed <==> Elements(Model) != Elements(t)
      {
        ghost var M := Model;
        var b := Remove(c[i]);
        changed := changed || b;
        assert c[..i + 1][..i] == c[..i];
        AppendAssociative(E, RemovingAllEvents(t, c[..i]), RemoveEvents(M, c[i]));
      }
      assert c[..|c|] == c;
      RemovingAllTakes(t, c);
    }

    /** One pass of the `retainAll` loop: `x` is removed unless `c` contains it. */
    method RetainStep(x: IntervalB, c: seq<IntervalB>, changed: bool) returns (changed': bool)
      requires Valid()
      modifies Repr
      ensures Valid() && Repr <= old(Repr) && validation == old(validation)
      ensures Model == (if x in c then old(Model) else Removing(old(Model), x))
      ensures Events == old(Events) + (if x in c then [] else RemoveEvents(old(Model), x))
      ensures Elements(Model) <= old(Elements(Model))
      ensures changed' <==> changed || Elements(Model) != old(Elements(Model))
    {
      changed' := changed;
      if x !in c {
        var b := Remove(x);
        changed' := changed || b;
      }
    }

    /**
     * `retainAll`: removes, from a snapshot of the stored intervals taken in
     * iteration order, each one `c` does not contain; the result says
     * whether the set changed.
     */
    method RetainAll(c: seq<IntervalB>) returns (changed: bool)
      requires Valid()
      modifies Repr
      ensures Valid() && Repr <= old(Repr) && validation == old(validation)
      ensures Model == RemovingAll(old(Model), Rejected(InOrder(old(Model)), c))
      ensures Events == old(Events) + RemovingAllEvents(old(Model), Rejected(InOrder(old(Model)), c))
      ensures forall y :: y in Elements(Model) <==> y in old(Elements(Model)) && y in c
      ensures changed <==> Elements(Model) != old(Elements(Model))
    {
      ghost var t, E := Model, Events;
      var existing := All(root);
      changed := false;
      for i := 0 to |existing|
        invariant Valid() && Repr <= old(Repr) && validation == old(validation)
        invariant Model == RemovingAll(t, Rejected(existing[..i], c))
        invariant Events == E + RemovingAllEvents(t, Rejected(existing[..i], c))
        invariant Elements(Model) <= Elements(t)
        invariant changed <==> Elements(Model) != Elements(t)
      {
        RejectedStep(t, existing, c, i);
        ghost var R, M := RemovingAllEvents(t, Rejected(existing[..i], c)), Model;
        changed := RetainStep(existing[i], c, changed);
        AppendAssociative(E, R, if existing[i] in c then [] else RemoveEvents(M, existing[i]));
      }
      assert existing[..|existing|] == existing;
      RetainingKeeps(t, c);
    }
  }
}
