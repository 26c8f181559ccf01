/**
 * The interval tree's algorithm on immutable values. A `Tree` is a snapshot
 * of the linked `Node` objects: every node carries its interval, its cached
 * `maximum` interval and its stored `height`, exactly as the mutable nodes do.
 * Each function below follows one routine of the tree (the recursive
 * insert/remove that return the new subtree root, `balance`, the four
 * rotations, `updateMaximum`, `updateHeight`, the queries), including its
 * quirks: fresh leaves keep height 0, `updateMaximum` never shrinks a cached
 * maximum and lets the right child's contribution replace the left one's,
 * and overlap pruning is done with the cached maximum.
 */
module AvlModel {
  import opened IntervalType
  import opened IntervalB

  datatype Tree =
    | Nil
    | Node(left: Tree, interval: IntervalB, right: Tree, maximum: IntervalB, height: nat)

  /** BALANCED, BALANCED_LEANING_LEFT, BALANCED_LEANING_RIGHT, LEFT_HEAVY, RIGHT_HEAVY. */
  datatype BalanceFactor = Even | LeaningLeft | LeaningRight | LeftHeavy | RightHeavy

  /** The four rotation shapes named in Balanced events ("RL", "RR", "LR", "LL"). */
  datatype RotationKind = RL | RR | LR | LL

  /** The deletion cases named in Deleted events. */
  datatype DeletionKind = Leaf | SingleParentL | SingleParentR | Branch

  /** The change events published to the tree's listener. */
  datatype Change =
    | Created(interval: IntervalB)
    | Deleted(deletion: DeletionKind, interval: IntervalB)
    | Balanced(rotation: RotationKind, interval: IntervalB)
    | Cleared

  /** The outcome of `create`: DuplicateIntervalException, or the new subtree root. */
  datatype Insertion = Duplicate | Inserted(root: Tree)

  /** The outcome of `removeAt`: NonexistentIntervalException, or the new subtree root. */
  datatype Removal = Nonexistent | Removed(root: Tree)

  // ---------------------------------------------------------------------
  // Contents and invariants

  /** The stored intervals. */
  ghost function Elements(t: Tree): set<IntervalB>
  {
    match t
    case Nil => {}
    case Node(l, v, r, _, _) => Elements(l) + {v} + Elements(r)
  }

  /** Search-tree order: left descendants compare LESS_THAN, right ones MORE_THAN. */
  ghost predicate Ordered(t: Tree)
  {
    match t
    case Nil => true
    case Node(l, v, r, _, _) =>
      && Ordered(l) && Ordered(r)
      && (forall y :: y in Elements(l) ==> Compare(y, v) == LessThan)
      && (forall y :: y in Elements(r) ==> Compare(y, v) == MoreThan)
  }

  /**
   * What the stored heights satisfy: a node with a child stores one more
   * than its taller child (a missing child counting 0); a node without
   * children stores 0 (fresh) or 1 (recomputed after losing its children).
   */
  ghost predicate HeightsOk(t: Tree)
  {
    match t
    case Nil => true
    case Node(l, _, r, _, h) =>
      && HeightsOk(l) && HeightsOk(r)
      && (if l.Nil? && r.Nil? then h <= 1 else h == 1 + Max(Height(l), Height(r)))
  }

  /** Every node's balance factor, in stored heights, is within [-1, 1]. */
  ghost predicate HeightBalanced(t: Tree)
  {
    match t
    case Nil => true
    case Node(l, _, r, _, _) =>
      HeightBalanced(l) && HeightBalanced(r) && -1 <= Height(l) - Height(r) <= 1
  }

  /** The invariant every public operation keeps. */
  ghost predicate Invariant(t: Tree)
  {
    Ordered(t) && HeightsOk(t) && HeightBalanced(t)
  }

  /** A sequence in strictly ascending `compare` order. */
  ghost predicate StrictlyAscending(s: seq<IntervalB>)
  {
    forall i, j :: 0 <= i < j < |s| ==> Compare(s[i], s[j]) == LessThan
  }

  // ---------------------------------------------------------------------
  // Heights and balance factors

  /** `Math.max`. */
  function Max(a: int, b: int): int
  {
    if a >= b then a else b
  }

  /** `leftHeight`/`rightHeight`: the stored height, 0 for a missing child. */
  function Height(t: Tree): nat
  {
    if t.Nil? then 0 else t.height
  }

  /** `balanceFactorRaw`. */
  function BalanceFactorRaw(t: Tree): int
    requires t.Node?
  {
    Height(t.left) - Height(t.right)
  }

  /** `isBalanced`. */
  predicate IsBalanced(f: BalanceFactor)
  {
    f.Even? || f.LeaningLeft? || f.LeaningRight?
  }

  /** `balanceFactor`'s five-way classification of a height difference. */
  function Classify(delta: int): (f: BalanceFactor)
    ensures IsBalanced(f) <==> -1 <= delta <= 1
    ensures f == LeftHeavy <==> delta >= 2
    ensures f == RightHeavy <==> delta <= -2
    ensures f == Even <==> delta == 0
    ensures f == LeaningLeft <==> delta == 1
    ensures f == LeaningRight <==> delta == -1
  {
    if delta > 1 then LeftHeavy
    else if delta > 0 then LeaningLeft
    else if delta < -1 then RightHeavy
    else if delta < 0 then LeaningRight
    else Even
  }

  /** `balanceFactor` of a node. */
  function BalanceFactorOf(t: Tree): (f: BalanceFactor)
    requires t.Node?
    ensures IsBalanced(f) <==> -1 <= BalanceFactorRaw(t) <= 1
    ensures f == LeftHeavy <==> BalanceFactorRaw(t) >= 2
    ensures f == RightHeavy <==> BalanceFactorRaw(t) <= -2
    ensures f == Even <==> BalanceFactorRaw(t) == 0
    ensures f == LeaningLeft <==> BalanceFactorRaw(t) == 1
    ensures f == LeaningRight <==> BalanceFactorRaw(t) == -1
  {
    Classify(BalanceFactorRaw(t))
  }

  /**
   * `checkInvariants`: a present left child's interval compares LESS_THAN
   * the node's, a present right child's MORE_THAN.
   */
  predicate LocallyOrdered(t: Tree)
  {
    t.Node? ==>
      && (t.left.Node? ==> Compare(t.left.interval, t.interval) == LessThan)
      && (t.right.Node? ==> Compare(t.right.interval, t.interval) == MoreThan)
  }

  /** What `validateAt` checks at every node: `checkInvariants` and a balanced factor. */
  predicate ChecksPass(t: Tree)
  {
    match t
    case Nil => true
    case Node(l, _, r, _, _) =>
      LocallyOrdered(t) && IsBalanced(BalanceFactorOf(t)) && ChecksPass(l) && ChecksPass(r)
  }

  /** `updateHeight`. */
  function UpdateHeight(t: Tree): Tree
    requires t.Node?
  {
    t.(height := Max(Height(t.left), Height(t.right)) + 1)
  }

  // ---------------------------------------------------------------------
  // Traversals

  /** `all`, mapped to the nodes' intervals: left subtree, node, right subtree. */
  function InOrder(t: Tree): seq<IntervalB>
  {
    match t
    case Nil => []
    case Node(l, v, r, _, _) => InOrder(l) + [v] + InOrder(r)
  }

  /** `sizeTraverse`: every node holds an interval, so every node counts 1. */
  function Size(t: Tree): (n: nat)
    ensures n == |InOrder(t)|
  {
    match t
    case Nil => 0
    case Node(l, _, r, _, _) => 1 + Size(l) + Size(r)
  }

  /** `findAt`. */
  function Find(t: Tree, x: IntervalB): (b: bool)
    ensures b ==> x in Elements(t)
  {
    match t
    case Nil => false
    case Node(l, v, r, _, _) =>
      match Compare(x, v)
      case Equal => true
      case LessThan => Find(l, x)
      case MoreThan => Find(r, x)
  }

  /** `findMinimum`: the left-most node of a non-empty subtree. */
  function FindMinimum(t: Tree): (m: Tree)
    requires t.Node?
    ensures m.Node? && m.left.Nil?
  {
    if t.left.Node? then FindMinimum(t.left) else t
  }

  /**
   * `overlappingAt`: the node's own interval when the query overlaps it, and
   * a child's subtree only when that child's cached maximum overlaps the query.
   */
  function OverlappingAt(t: Tree, q: IntervalB): seq<IntervalB>
    requires t.Node?
  {
    var here := if Overlaps(q, t.interval) then [t.interval] else [];
    var left := if t.left.Node? && Overlaps(t.left.maximum, q) then OverlappingAt(t.left, q) else [];
    var right := if t.right.Node? && Overlaps(t.right.maximum, q) then OverlappingAt(t.right, q) else [];
    left + here + right
  }

  /** `overlapping`: nothing for an empty tree. */
  function Overlapping(t: Tree, q: IntervalB): seq<IntervalB>
  {
    if t.Nil? then [] else OverlappingAt(t, q)
  }

  // ---------------------------------------------------------------------
  // Augmentation

  /**
   * `updateMaximum`: recomputes the cached maxima of the whole subtree. Each
   * node starts from its own cached maximum (so it never shrinks and keeps
   * its lower bound); the left child's contribution is replaced by the right
   * child's when both exist. Nothing but the maxima changes.
   */
  function UpdateMaximum(t: Tree): (r: Tree)
    ensures r.Nil? <==> t.Nil?
    ensures t.Node? ==> r.interval == t.interval && r.height == t.height
    ensures t.Node? ==> r.maximum.lower == t.maximum.lower && r.maximum.upper >= t.maximum.upper
    ensures t.Node? ==> (r.left.Nil? <==> t.left.Nil?) && (r.right.Nil? <==> t.right.Nil?)
  {
    match t
    case Nil => Nil
    case Node(l, v, r, m, h) =>
      var l' := UpdateMaximum(l);
      var r' := UpdateMaximum(r);
      var withLeft := if l.Node? then UpperMaximum(m, l'.maximum) else m;
      var withRight := if r.Node? then UpperMaximum(m, r'.maximum) else withLeft;
      Node(l', v, r', withRight, h)
  }

  /** `updateMaximum` changes nothing but cached maxima: the contents and their order stay. */
  lemma {:induction false} UpdateMaximumKeepsContents(t: Tree)
    ensures InOrder(UpdateMaximum(t)) == InOrder(t) && Elements(UpdateMaximum(t)) == Elements(t)
    ensures Ordered(UpdateMaximum(t)) == Ordered(t)
  {
    if t.Node? {
      UpdateMaximumKeepsContents(t.left);
      UpdateMaximumKeepsContents(t.right);
    }
  }

  /** `updateMaximum` changes nothing but cached maxima: the stored heights stay. */
  lemma {:induction false} UpdateMaximumKeepsHeights(t: Tree)
    ensures Height(UpdateMaximum(t)) == Height(t)
    ensures HeightsOk(UpdateMaximum(t)) == HeightsOk(t)
    ensures HeightBalanced(UpdateMaximum(t)) == HeightBalanced(t)
  {
    if t.Node? {
      UpdateMaximumKeepsHeights(t.left);
      UpdateMaximumKeepsHeights(t.right);
    }
  }

  // ---------------------------------------------------------------------
  // Rotations and balancing

  /** `rotateRR` ("single right"): the left child becomes the subtree root. */
  function RotateRR(c: Tree): (r: Tree)
    requires c.Node? && c.left.Node?
    ensures r.Node? && r.interval == c.left.interval && r.right.Node? && r.right.interval == c.interval
  {
    var b := c.left;
    var c' := UpdateHeight(c.(left := b.right));
    UpdateHeight(b.(right := c'))
  }

  /** `rotateLL` ("single left"): the right child becomes the subtree root. */
  function RotateLL(a: Tree): (r: Tree)
    requires a.Node? && a.right.Node?
    ensures r.Node? && r.interval == a.right.interval && r.left.Node? && r.left.interval == a.interval
  {
    var b := a.right;
    var a' := UpdateHeight(a.(right := b.left));
    UpdateHeight(b.(left := a'))
  }

  /** `rotateRL` ("double right"): rotate the left child left, then this node right. */
  function RotateRL(c: Tree): (r: Tree)
    requires c.Node? && c.left.Node? && c.left.right.Node?
    ensures r.Node? && r.interval == c.left.right.interval
  {
    RotateRR(c.(left := RotateLL(c.left)))
  }

  /** `rotateLR` ("double left"): rotate the right child right, then this node left. */
  function RotateLR(c: Tree): (r: Tree)
    requires c.Node? && c.right.Node? && c.right.left.Node?
    ensures r.Node? && r.interval == c.right.left.interval
  {
    RotateLL(c.(right := RotateRR(c.right)))
  }

  /** `balance`: the rotation chosen from this node's and one child's balance factor. */
  function Balance(t: Tree): (r: Tree)
    requires t.Node?
    ensures r.Node?
    ensures IsBalanced(BalanceFactorOf(t)) ==> r == t
  {
    match BalanceFactorOf(t)
    case LeftHeavy =>
      (match BalanceFactorOf(t.left)
       case RightHeavy | LeaningRight => RotateRL(t)
       case _ => RotateRR(t))
    case RightHeavy =>
      (match BalanceFactorOf(t.right)
       case LeftHeavy | LeaningLeft => RotateLR(t)
       case _ => RotateLL(t))
    case _ => t
  }

  /** The Balanced event `balance` publishes, if it rotates. */
  function BalanceEvents(t: Tree): (e: seq<Change>)
    requires t.Node?
    ensures |e| <= 1
    ensures e == [] <==> IsBalanced(BalanceFactorOf(t))
    ensures forall i :: 0 <= i < |e| ==> e[i].Balanced? && e[i].interval == t.interval
  {
    match BalanceFactorOf(t)
    case LeftHeavy =>
      (match BalanceFactorOf(t.left)
       case RightHeavy | LeaningRight => [Balanced(RL, t.interval)]
       case _ => [Balanced(RR, t.interval)])
    case RightHeavy =>
      (match BalanceFactorOf(t.right)
       case LeftHeavy | LeaningLeft => [Balanced(LR, t.interval)]
       case _ => [Balanced(LL, t.interval)])
    case _ => []
  }

  /** The rotations rearrange nodes only: the in-order traversal and the contents stay. */
  /** Moving the brackets in a five-part concatenation, as a rotation does to the traversal. */
  lemma Regroup(x: seq<IntervalB>, u: seq<IntervalB>, y: seq<IntervalB>, v: seq<IntervalB>, z: seq<IntervalB>)
    ensures x + u + (y + v + z) == (x + u + y) + v + z
  {
  }

  lemma RotateRRKeepsContents(c: Tree)
    requires c.Node? && c.left.Node?
    ensures InOrder(RotateRR(c)) == InOrder(c) && Elements(RotateRR(c)) == Elements(c)
  {
    var b := c.left;
    var c' := UpdateHeight(c.(left := b.right));
    var x, y, z := InOrder(b.left), InOrder(b.right), InOrder(c.right);
    assert InOrder(c') == y + [c.interval] + z;
    assert InOrder(RotateRR(c)) == x + [b.interval] + (y + [c.interval] + z);
    assert InOrder(c) == (x + [b.interval] + y) + [c.interval] + z;
    Regroup(x, [b.interval], y, [c.interval], z);
    assert Elements(c') == Elements(b.right) + {c.interval} + Elements(c.right);
    assert Elements(RotateRR(c)) == Elements(b.left) + {b.interval} + Elements(c');
  }

  lemma RotateLLKeepsContents(a: Tree)
    requires a.Node? && a.right.Node?
    ensures InOrder(RotateLL(a)) == InOrder(a) && Elements(RotateLL(a)) == Elements(a)
  {
    var b := a.right;
    var a' := UpdateHeight(a.(right := b.left));
    var x, y, z := InOrder(a.left), InOrder(b.left), InOrder(b.right);
    assert InOrder(a') == x + [a.interval] + y;
    assert InOrder(RotateLL(a)) == (x + [a.interval] + y) + [b.interval] + z;
    assert InOrder(a) == x + [a.interval] + (y + [b.interval] + z);
    Regroup(x, [a.interval], y, [b.interval], z);
    assert Elements(a') == Elements(a.left) + {a.interval} + Elements(b.left);
    assert Elements(RotateLL(a)) == Elements(a') + {b.interval} + Elements(b.right);
  }

  lemma RotateRLKeepsContents(c: Tree)
    requires c.Node? && c.left.Node? && c.left.right.Node?
    ensures InOrder(RotateRL(c)) == InOrder(c) && Elements(RotateRL(c)) == Elements(c)
  {
    RotateLLKeepsContents(c.left);
    RotateRRKeepsContents(c.(left := RotateLL(c.left)));
  }

  lemma RotateLRKeepsContents(c: Tree)
    requires c.Node? && c.right.Node? && c.right.left.Node?
    ensures InOrder(RotateLR(c)) == InOrder(c) && Elements(RotateLR(c)) == Elements(c)
  {
    RotateRRKeepsContents(c.right);
    RotateLLKeepsContents(c.(right := RotateRR(c.right)));
  }

  /** `balance` rotates at most: the in-order traversal and the contents stay. */
  lemma BalanceKeepsContents(t: Tree)
    requires t.Node?
    ensures InOrder(Balance(t)) == InOrder(t) && Elements(Balance(t)) == Elements(t)
  {
    match BalanceFactorOf(t)
    case LeftHeavy =>
      if BalanceFactorOf(t.left) == RightHeavy || BalanceFactorOf(t.left) == LeaningRight {
        RotateRLKeepsContents(t);
      } else {
        RotateRRKeepsContents(t);
      }
    case RightHeavy =>
      if BalanceFactorOf(t.right) == LeftHeavy || BalanceFactorOf(t.right) == LeaningLeft {
        RotateLRKeepsContents(t);
      } else {
        RotateLLKeepsContents(t);
      }
    case _ =>
  }

  /** What every level does while unwinding: `updateMaximum`, `updateHeight`, `balance`. */
  function Restore(t: Tree): (r: Tree)
    requires t.Node?
    ensures r.Node?
  {
    Balance(UpdateHeight(UpdateMaximum(t)))
  }

  /** The unwinding step keeps the in-order traversal and the contents. */
  lemma RestoreKeepsContents(t: Tree)
    requires t.Node?
    ensures InOrder(Restore(t)) == InOrder(t) && Elements(Restore(t)) == Elements(t)
  {
    UpdateMaximumKeepsContents(t);
    BalanceKeepsContents(UpdateHeight(UpdateMaximum(t)));
  }

  /** The events published by `Restore`. */
  function RestoreEvents(t: Tree): seq<Change>
    requires t.Node?
  {
    BalanceEvents(UpdateHeight(UpdateMaximum(t)))
  }

  // ---------------------------------------------------------------------
  // Insertion and removal

  /** The node `create` builds for a new interval: its maximum is the interval, its height 0. */
  function NewLeaf(x: IntervalB): Tree
  {
    Node(Nil, x, Nil, x, 0)
  }

  /** `create`: insert below `t`, returning the new subtree root. */
  function Create(t: Tree, x: IntervalB): (r: Insertion)
    ensures r.Duplicate? <==> Find(t, x)
    ensures r.Inserted? ==> r.root.Node?
  {
    match t
    case Nil => Inserted(NewLeaf(x))
    case Node(l, v, r, _, _) =>
      match Compare(x, v)
      case Equal => Duplicate
      case LessThan =>
        (match Create(l, x)
         case Duplicate => Duplicate
         case Inserted(l') => Inserted(Restore(t.(left := l'))))
      case MoreThan =>
        (match Create(r, x)
         case Duplicate => Duplicate
         case Inserted(r') => Inserted(Restore(t.(right := r'))))
  }

  /** The events `create` publishes, in order. */
  function CreateEvents(t: Tree, x: IntervalB): seq<Change>
  {
    match t
    case Nil => [Created(x)]
    case Node(l, v, r, _, _) =>
      match Compare(x, v)
      case Equal => []
      case LessThan =>
        (match Create(l, x)
         case Duplicate => []
         case Inserted(l') => CreateEvents(l, x) + RestoreEvents(t.(left := l')))
      case MoreThan =>
        (match Create(r, x)
         case Duplicate => []
         case Inserted(r') => CreateEvents(r, x) + RestoreEvents(t.(right := r')))
  }

  /**
   * `removeAt`: remove from below `t`, returning the new subtree root. A node
   * with two children takes its in-order successor's interval and the
   * successor is removed from the right subtree.
   */
  function RemoveAt(t: Tree, x: IntervalB): (r: Removal)
    ensures r.Removed? ==> Find(t, x)
  {
    match t
    case Nil => Nonexistent
    case Node(l, v, r, m, h) =>
      match Compare(x, v)
      case Equal =>
        if l.Nil? && r.Nil? then Removed(Nil)
        else if l.Nil? != r.Nil? then Removed(if l.Node? then l else r)
        else
          var s := FindMinimum(r).interval;
          (match RemoveAt(r, s)
           case Nonexistent => Nonexistent
           case Removed(r') => Removed(Restore(Node(l, s, r', m, h))))
      case LessThan =>
        (match RemoveAt(l, x)
         case Nonexistent => Nonexistent
         case Removed(l') => Removed(Restore(t.(left := l'))))
      case MoreThan =>
        (match RemoveAt(r, x)
         case Nonexistent => Nonexistent
         case Removed(r') => Removed(Restore(t.(right := r'))))
  }

  /** The events `removeAt` publishes, in order. */
  function RemoveEvents(t: Tree, x: IntervalB): seq<Change>
  {
    match t
    case Nil => []
    case Node(l, v, r, m, h) =>
      match Compare(x, v)
      case Equal =>
        if l.Nil? && r.Nil? then [Deleted(Leaf, x)]
        else if l.Nil? != r.Nil? then [Deleted(if l.Node? then SingleParentL else SingleParentR, x)]
        else
          var s := FindMinimum(r).interval;
          (match RemoveAt(r, s)
           case Nonexistent => []
           case Removed(r') => RemoveEvents(r, s) + [Deleted(Branch, x)] + RestoreEvents(Node(l, s, r', m, h)))
      case LessThan =>
        (match RemoveAt(l, x)
         case Nonexistent => []
         case Removed(l') => RemoveEvents(l, x) + RestoreEvents(t.(left := l')))
      case MoreThan =>
        (match RemoveAt(r, x)
         case Nonexistent => []
         case Removed(r') => RemoveEvents(r, x) + RestoreEvents(t.(right := r')))
  }
}
