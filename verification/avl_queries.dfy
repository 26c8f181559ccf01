/**
 * What the read-only queries return: `overlapping` is sound and in
 * ascending order, but its pruning by cached maxima can miss stored
 * intervals. Beside it, the query the pruning is meant to perform: descend
 * into a subtree only when some interval stored there reaches the query's
 * lower bound, which returns exactly the stored intervals that overlap.
 */
module AvlQueries {
  import opened IntervalType
  import opened IntervalB
  import opened AvlModel
  import opened AvlOrder

  /**
   * Every interval `overlapping` returns is stored and overlaps the query,
   * and the result is in strictly ascending order; an empty tree gives
   * nothing.
   */
  lemma {:induction false} OverlappingSound(t: Tree, q: IntervalB)
    requires Ordered(t)
    ensures t.Nil? ==> Overlapping(t, q) == []
    ensures forall y :: y in Overlapping(t, q) ==> y in Elements(t) && Overlaps(q, y)
    ensures StrictlyAscending(Overlapping(t, q))
    decreases t
  {
    if t.Node? {
      var left := if t.left.Node? && Overlaps(t.left.maximum, q) then Overlapping(t.left, q) else [];
      var here := if Overlaps(q, t.interval) then [t.interval] else [];
      var right := if t.right.Node? && Overlaps(t.right.maximum, q) then Overlapping(t.right, q) else [];
      OverlappingSound(t.left, q);
      OverlappingSound(t.right, q);
      assert Overlapping(t, q) == left + here + right;
      forall x, y | x in left && y in here + right ensures Compare(x, y) == LessThan {
        if y in right {
          CompareTransitive(x, t.interval, y);
        }
      }
      AscendingAppend(here, right);
      AscendingAppend(left, here + right);
      assert left + here + right == left + (here + right);
    }
  }

  // ---------------------------------------------------------------------
  // The intended pruning

  /** The largest upper bound stored in a non-empty subtree: what the cached maximum stands for. */
  function MaxUpper(t: Tree): (m: int)
    requires t.Node?
    ensures forall y :: y in Elements(t) ==> y.upper <= m
  {
    var l := if t.left.Node? then MaxUpper(t.left) else t.interval.upper;
    var r := if t.right.Node? then MaxUpper(t.right) else t.interval.upper;
    Max(t.interval.upper, Max(l, r))
  }

  /** The bound is attained: some interval of the subtree has exactly that upper bound. */
  lemma {:induction false} MaxUpperAttained(t: Tree)
    requires t.Node?
    ensures exists y :: y in Elements(t) && y.upper == MaxUpper(t)
    decreases t
  {
    var m := MaxUpper(t);
    if t.left.Node? && m == MaxUpper(t.left) {
      MaxUpperAttained(t.left);
      var y :| y in Elements(t.left) && y.upper == m;
      assert y in Elements(t);
    } else if t.right.Node? && m == MaxUpper(t.right) {
      MaxUpperAttained(t.right);
      var y :| y in Elements(t.right) && y.upper == m;
      assert y in Elements(t);
    } else {
      assert t.interval in Elements(t);
    }
  }

  /**
   * `overlappingAt` with the pruning its design calls for: a child's subtree
   * is visited only when the largest upper bound stored in it reaches the
   * query's lower bound.
   */
  function IntendedOverlappingAt(t: Tree, q: IntervalB): seq<IntervalB>
    requires t.Node?
  {
    var here := if Overlaps(q, t.interval) then [t.interval] else [];
    var left := if t.left.Node? && q.lower <= MaxUpper(t.left) then IntendedOverlappingAt(t.left, q) else [];
    var right := if t.right.Node? && q.lower <= MaxUpper(t.right) then IntendedOverlappingAt(t.right, q) else [];
    left + here + right
  }

  /** `overlapping` with the intended pruning: nothing for an empty tree. */
  function IntendedOverlapping(t: Tree, q: IntervalB): seq<IntervalB>
  {
    if t.Nil? then [] else IntendedOverlappingAt(t, q)
  }

  /** With the intended pruning the query returns every stored interval that overlaps the query and nothing else. */
  lemma {:induction false} IntendedOverlappingExact(t: Tree, q: IntervalB)
    ensures forall y :: y in IntendedOverlapping(t, q) <==> y in Elements(t) && Overlaps(q, y)
    decreases t
  {
    if t.Node? {
      var here := if Overlaps(q, t.interval) then [t.interval] else [];
      var left := if t.left.Node? && q.lower <= MaxUpper(t.left) then IntendedOverlapping(t.left, q) else [];
      var right := if t.right.Node? && q.lower <= MaxUpper(t.right) then IntendedOverlapping(t.right, q) else [];
      IntendedOverlappingExact(t.left, q);
      IntendedOverlappingExact(t.right, q);
      assert IntendedOverlapping(t, q) == left + here + right;
      forall y | y in Elements(t.left) && Overlaps(q, y) ensures y in left {
        assert y.upper <= MaxUpper(t.left);
      }
      forall y | y in Elements(t.right) && Overlaps(q, y) ensures y in right {
        assert y.upper <= MaxUpper(t.right);
      }
    }
  }

  /** Everything the intended query returns is stored in the tree. */
  lemma {:induction false} IntendedOverlappingStored(t: Tree, q: IntervalB)
    ensures forall y :: y in IntendedOverlapping(t, q) ==> y in Elements(t)
    decreases t
  {
    if t.Node? {
      IntendedOverlappingStored(t.left, q);
      IntendedOverlappingStored(t.right, q);
    }
  }

  /** Intervals below a node's interval, maybe that interval, then intervals above it, ascend. */
  lemma AscendingAround(left: seq<IntervalB>, v: IntervalB, here: seq<IntervalB>, right: seq<IntervalB>)
    requires StrictlyAscending(left) && StrictlyAscending(right)
    requires here == [] || here == [v]
    requires forall x :: x in left ==> Compare(x, v) == LessThan
    requires forall y :: y in right ==> Compare(y, v) == MoreThan
    ensures StrictlyAscending(left + here + right)
  {
    forall x, y | x in left && y in here + right ensures Compare(x, y) == LessThan {
      if y in right {
        CompareTransitive(x, v, y);
      }
    }
    AscendingAppend(here, right);
    AscendingAppend(left, here + right);
    assert left + here + right == left + (here + right);
  }

  /** The intended query at a node: the pruned left part, the node's own interval, the pruned right part. */
  lemma IntendedOverlappingSplits(t: Tree, q: IntervalB)
    requires t.Node?
    ensures IntendedOverlapping(t, q)
      == (if t.left.Node? && q.lower <= MaxUpper(t.left) then IntendedOverlapping(t.left, q) else [])
       + (if Overlaps(q, t.interval) then [t.interval] else [])
       + (if t.right.Node? && q.lower <= MaxUpper(t.right) then IntendedOverlapping(t.right, q) else [])
  {
  }

  /** With the intended pruning the result is still in strictly ascending order. */
  lemma {:induction false} IntendedOverlappingAscending(t: Tree, q: IntervalB)
    requires Ordered(t)
    ensures StrictlyAscending(IntendedOverlapping(t, q))
    decreases t
  {
    if t.Node? {
      var here := if Overlaps(q, t.interval) then [t.interval] else [];
      var left := if t.left.Node? && q.lower <= MaxUpper(t.left) then IntendedOverlapping(t.left, q) else [];
      var right := if t.right.Node? && q.lower <= MaxUpper(t.right) then IntendedOverlapping(t.right, q) else [];
      IntendedOverlappingAscending(t.left, q);
      IntendedOverlappingAscending(t.right, q);
      IntendedOverlappingStored(t.left, q);
      IntendedOverlappingStored(t.right, q);
      IntendedOverlappingSplits(t, q);
      AscendingAround(left, t.interval, here, right);
    }
  }
}
