/**
 * The trees that two concrete insertion orders build, one `create` at a time.
 */
module AvlExampleTrees {
  import opened IntervalType
  import opened IntervalB
  import opened AvlModel
  import opened AvlQueries

  // The insertions of the two examples below, one step at a time.

  /** `create` applied to each interval of `xs` in turn, stopping at a duplicate. */
  function CreateAll(t: Tree, xs: seq<IntervalB>): Insertion
    decreases |xs|
  {
    if xs == [] then Inserted(t)
    else
      match Create(t, xs[0])
      case Duplicate => Duplicate
      case Inserted(t') => CreateAll(t', xs[1..])
  }

  lemma CreateAllStep(t: Tree, x: IntervalB, rest: seq<IntervalB>, t': Tree)
    requires Create(t, x) == Inserted(t')
    ensures CreateAll(t, [x] + rest) == CreateAll(t', rest)
  {
    assert ([x] + rest)[1..] == rest;
  }

  /** Intervals written as literals, [lower, upper]. */
  function I(lower: int, upper: int): IntervalB
    requires lower <= upper
  {
    Interval(lower, upper)
  }

  lemma LeafMaximum(x: IntervalB)
    ensures UpdateMaximum(NewLeaf(x)) == NewLeaf(x)
  {
  }

  lemma {:induction false} InsertIntoLeaf(v: IntervalB, x: IntervalB)
    requires Compare(x, v) != Equal
    ensures Compare(x, v) == LessThan ==>
      Create(NewLeaf(v), x) == Inserted(Node(NewLeaf(x), v, Nil, UpperMaximum(v, x), 1))
    ensures Compare(x, v) == MoreThan ==>
      Create(NewLeaf(v), x) == Inserted(Node(Nil, v, NewLeaf(x), UpperMaximum(v, x), 1))
  {
    LeafMaximum(x);
    if Compare(x, v) == LessThan {
      var n := Node(NewLeaf(x), v, Nil, v, 0);
      assert UpdateMaximum(n) == n.(maximum := UpperMaximum(v, x));
    } else {
      var n := Node(Nil, v, NewLeaf(x), v, 0);
      assert UpdateMaximum(n) == n.(maximum := UpperMaximum(v, x));
    }
  }

  lemma {:induction false} InsertRightLeaf(a: IntervalB, b: IntervalB, c: IntervalB)
    requires LexLess(b, a) && LexLess(a, c) && b.upper <= a.upper && c.upper <= a.upper
    ensures Create(Node(NewLeaf(b), a, Nil, a, 1), c) == Inserted(Node(NewLeaf(b), a, NewLeaf(c), a, 1))
  {
    LeafMaximum(b);
    LeafMaximum(c);
    var t := Node(NewLeaf(b), a, NewLeaf(c), a, 1);
    assert UpdateMaximum(t) == t;
  }

  lemma {:induction false} InsertLeftGrandchild(a: IntervalB, b: IntervalB, c: IntervalB, d: IntervalB)
    requires LexLess(d, b) && LexLess(b, a) && LexLess(a, c)
    requires d.upper <= b.upper && c.upper <= a.upper && b.upper <= a.upper
    ensures Create(Node(NewLeaf(b), a, NewLeaf(c), a, 1), d)
         == Inserted(Node(Node(NewLeaf(d), b, Nil, b, 1), a, NewLeaf(c), a, 2))
  {
    InsertIntoLeaf(b, d);
    LeafMaximum(d);
    LeafMaximum(c);
    var nb := Node(NewLeaf(d), b, Nil, b, 1);
    var t := Node(nb, a, NewLeaf(c), a, 1);
    assert UpdateMaximum(nb) == nb;
    assert UpdateMaximum(t) == t;
  }

  lemma {:induction false} InsertRightGrandchild(a: IntervalB, b: IntervalB, c: IntervalB, mb: IntervalB, mt: IntervalB)
    requires LexLess(a, b) && LexLess(b, c)
    requires mb == UpperMaximum(b, c) && mt == UpperMaximum(UpperMaximum(a, b), mb)
    ensures Create(Node(Nil, a, NewLeaf(b), UpperMaximum(a, b), 1), c)
         == Inserted(Node(Nil, a, Node(Nil, b, NewLeaf(c), mb, 1), mt, 2))
  {
    InsertIntoLeaf(b, c);
    LeafMaximum(c);
    var nb := Node(Nil, b, NewLeaf(c), mb, 1);
    assert UpdateMaximum(nb) == nb;
    var t := Node(Nil, a, nb, UpperMaximum(a, b), 1);
    assert UpdateMaximum(t) == t.(maximum := mt);
  }

  lemma {:induction false} InsertMiddleGrandchild(a: IntervalB, b: IntervalB, c: IntervalB, d: IntervalB, mb: IntervalB, mt: IntervalB)
    requires LexLess(a, d) && LexLess(d, b) && LexLess(b, c)
    requires mb.lower == b.lower && c.upper <= mb.upper && d.upper <= mb.upper && mb.upper <= mt.upper
    requires mt.lower == a.lower
    ensures Create(Node(Nil, a, Node(Nil, b, NewLeaf(c), mb, 1), mt, 2), d)
         == Inserted(Node(Nil, a, Node(NewLeaf(d), b, NewLeaf(c), mb, 1), mt, 2))
  {
    LeafMaximum(c);
    LeafMaximum(d);
    var nb := Node(Nil, b, NewLeaf(c), mb, 1);
    var nb' := nb.(left := NewLeaf(d));
    assert UpdateMaximum(nb') == nb';
    assert Create(nb, d) == Inserted(nb');
    var t := Node(Nil, a, nb', mt, 2);
    assert UpdateMaximum(t) == t;
  }

  /** The tree of the pruning example after its four insertions. */
  lemma {:induction false} PruningTree(a: IntervalB, b: IntervalB, c: IntervalB, d: IntervalB)
    requires LexLess(d, b) && LexLess(b, a) && LexLess(a, c)
    requires d.upper <= b.upper && c.upper <= a.upper && b.upper <= a.upper
    ensures CreateAll(Nil, [a, b, c, d]) == Inserted(Node(Node(NewLeaf(d), b, Nil, b, 1), a, NewLeaf(c), a, 2))
  {
    var t1 := Node(NewLeaf(b), a, Nil, a, 1);
    var t2 := Node(NewLeaf(b), a, NewLeaf(c), a, 1);
    var t := Node(Node(NewLeaf(d), b, Nil, b, 1), a, NewLeaf(c), a, 2);
    calc {
      CreateAll(Nil, [a, b, c, d]);
      { assert [a, b, c, d] == [a] + [b, c, d]; CreateAllStep(Nil, a, [b, c, d], NewLeaf(a)); }
      CreateAll(NewLeaf(a), [b, c, d]);
      { InsertIntoLeaf(a, b); assert [b, c, d] == [b] + [c, d]; CreateAllStep(NewLeaf(a), b, [c, d], t1); }
      CreateAll(t1, [c, d]);
      { InsertRightLeaf(a, b, c); assert [c, d] == [c] + [d]; CreateAllStep(t1, c, [d], t2); }
      CreateAll(t2, [d]);
      { InsertLeftGrandchild(a, b, c, d); assert [d] == [d] + []; CreateAllStep(t2, d, [], t); }
      CreateAll(t, []);
    }
  }

  /** The tree of the contract's example after its four insertions. */
  lemma {:induction false} ExampleTree(a: IntervalB, b: IntervalB, c: IntervalB, d: IntervalB)
    requires LexLess(a, d) && LexLess(d, b) && LexLess(b, c)
    requires b.upper <= c.upper && d.upper <= c.upper
    ensures var mb := UpperMaximum(b, c);
      CreateAll(Nil, [a, b, c, d])
      == Inserted(Node(Nil, a, Node(NewLeaf(d), b, NewLeaf(c), mb, 1), UpperMaximum(UpperMaximum(a, b), mb), 2))
  {
    var mb := UpperMaximum(b, c);
    var mt := UpperMaximum(UpperMaximum(a, b), mb);
    var t1 := Node(Nil, a, NewLeaf(b), UpperMaximum(a, b), 1);
    var t2 := Node(Nil, a, Node(Nil, b, NewLeaf(c), mb, 1), mt, 2);
    var t := Node(Nil, a, Node(NewLeaf(d), b, NewLeaf(c), mb, 1), mt, 2);
    calc {
      CreateAll(Nil, [a, b, c, d]);
      { assert [a, b, c, d] == [a] + [b, c, d]; CreateAllStep(Nil, a, [b, c, d], NewLeaf(a)); }
      CreateAll(NewLeaf(a), [b, c, d]);
      { InsertIntoLeaf(a, b); assert [b, c, d] == [b] + [c, d]; CreateAllStep(NewLeaf(a), b, [c, d], t1); }
      CreateAll(t1, [c, d]);
      { InsertRightGrandchild(a, b, c, mb, mt); assert [c, d] == [c] + [d]; CreateAllStep(t1, c, [d], t2); }
      CreateAll(t2, [d]);
      { InsertMiddleGrandchild(a, b, c, d, mb, mt); assert [d] == [d] + []; CreateAllStep(t2, d, [], t); }
      CreateAll(t, []);
    }
  }

  /** On the tree of the pruning example, the intended pruning reaches the leftmost leaf. */
  lemma IntendedOnPruningTree(a: IntervalB, b: IntervalB, c: IntervalB, d: IntervalB, q: IntervalB)
    requires Overlaps(q, d) && !Overlaps(q, a) && !Overlaps(q, b) && !Overlaps(q, c)
    requires q.lower <= d.upper <= b.upper && q.lower <= c.upper
    ensures IntendedOverlapping(Node(Node(NewLeaf(d), b, Nil, b, 1), a, NewLeaf(c), a, 2), q) == [d]
  {
    var l := Node(NewLeaf(d), b, Nil, b, 1);
    assert IntendedOverlapping(NewLeaf(d), q) == [d];
    assert MaxUpper(l) == b.upper;
    assert IntendedOverlapping(l, q) == [d];
    assert IntendedOverlapping(NewLeaf(c), q) == [];
  }

  /** The tree `ExampleTree` builds from [0,9], [10,19], [20,29] and [5,14]. */
  function ContractTree(): (t: Tree)
    ensures t.Node? && t.right.Node?
  {
    var mb := UpperMaximum(I(10, 19), I(20, 29));
    Node(Nil, I(0, 9), Node(NewLeaf(I(5, 14)), I(10, 19), NewLeaf(I(20, 29)), mb, 1), UpperMaximum(UpperMaximum(I(0, 9), I(10, 19)), mb), 2)
  }

  /** The first three queries of the contract's example, with the pruning by cached maxima. */
  lemma QueriesOnContractTree()
    ensures Overlapping(ContractTree(), I(0, 9)) == [I(0, 9)]
    ensures Overlapping(ContractTree(), I(10, 19)) == [I(5, 14), I(10, 19)]
    ensures Overlapping(ContractTree(), I(20, 29)) == [I(20, 29)]
  {
    var t := ContractTree();
    assert t.right.maximum == I(10, 29);
    assert !Overlaps(t.right.maximum, I(0, 9));
    assert OverlappingAt(t.right.left, I(10, 19)) == [I(5, 14)];
    assert OverlappingAt(t.right.right, I(10, 19)) == [];
    assert OverlappingAt(t.right, I(10, 19)) == [I(5, 14), I(10, 19)];
    assert OverlappingAt(t.right.right, I(20, 29)) == [I(20, 29)];
    assert OverlappingAt(t.right, I(20, 29)) == [I(20, 29)];
  }

  /** The same three queries with the intended pruning by the largest stored upper bound. */
  lemma IntendedQueriesOnContractTree()
    ensures IntendedOverlapping(ContractTree(), I(0, 9)) == [I(0, 9), I(5, 14)]
    ensures IntendedOverlapping(ContractTree(), I(10, 19)) == [I(5, 14), I(10, 19)]
    ensures IntendedOverlapping(ContractTree(), I(20, 29)) == [I(20, 29)]
  {
    var t := ContractTree();
    assert MaxUpper(t.right.left) == 14 && MaxUpper(t.right.right) == 29;
    assert MaxUpper(t.right) == 29;
    assert IntendedOverlapping(t.right.left, I(0, 9)) == [I(5, 14)];
    assert IntendedOverlapping(t.right.right, I(0, 9)) == [];
    assert IntendedOverlapping(t.right, I(0, 9)) == [I(5, 14)];
    assert IntendedOverlapping(t.right.left, I(10, 19)) == [I(5, 14)];
    assert IntendedOverlapping(t.right.right, I(10, 19)) == [];
    assert IntendedOverlapping(t.right, I(10, 19)) == [I(5, 14), I(10, 19)];
    assert IntendedOverlapping(t.right.right, I(20, 29)) == [I(20, 29)];
    assert IntendedOverlapping(t.right, I(20, 29)) == [I(20, 29)];
  }

  /** Any four intervals ordered like the pruning example build the same shape and lose the query. */
  lemma {:induction false} PruningRun(a: IntervalB, b: IntervalB, c: IntervalB, d: IntervalB, q: IntervalB)
    requires LexLess(d, b) && LexLess(b, a) && LexLess(a, c)
    requires d.upper <= b.upper && c.upper <= a.upper && b.upper <= a.upper
    requires !Overlaps(a, q) && !Overlaps(b, q) && !Overlaps(c, q)
    ensures CreateAll(Nil, [a, b, c, d]).Inserted?
    ensures d in Elements(CreateAll(Nil, [a, b, c, d]).root)
    ensures Overlapping(CreateAll(Nil, [a, b, c, d]).root, q) == []
  {
    PruningTree(a, b, c, d);
    assert d in Elements(Node(NewLeaf(d), b, Nil, b, 1));
  }

  /** Any four intervals ordered like the contract's example build the same shape. */
  lemma {:induction false} ExampleRun(a: IntervalB, b: IntervalB, c: IntervalB, d: IntervalB)
    requires LexLess(a, d) && LexLess(d, b) && LexLess(b, c)
    requires b.upper <= c.upper && d.upper <= c.upper
    requires Overlaps(a, d) && Overlaps(b, d) && !Overlaps(c, d)
    ensures CreateAll(Nil, [a, b, c, d]).Inserted?
    ensures Overlapping(CreateAll(Nil, [a, b, c, d]).root, d) == [a, d, b]
  {
    ExampleTree(a, b, c, d);
    OverlapsSelf(d);
    OverlapsSymmetric(a, d);
    OverlapsSymmetric(b, d);
    var mb := UpperMaximum(b, c);
    var nb := Node(NewLeaf(d), b, NewLeaf(c), mb, 1);
    assert Overlaps(mb, d);
    assert OverlappingAt(NewLeaf(d), d) == [d];
    assert OverlappingAt(nb, d) == [d, b];
  }
}

/**
 * Concrete runs of `create` followed by `overlapping`: the example of the
 * tree's contract with its four queries, and an insertion order after which
 * the pruning by cached maxima misses a stored interval that overlaps the
 * query. Each miss is set beside the answer of the intended pruning.
 */
module AvlExamples {
  import opened IntervalType
  import opened IntervalB
  import opened AvlModel
  import opened AvlExampleTrees
  import opened AvlQueries

  /**
   * The pruning is not complete: after inserting [20,30], [5,10], [25,26]
   * and [0,2] the tree holds [0,2], which overlaps [0,1], yet
   * `overlapping([0,1])` returns nothing, because the left child's cached
   * maximum [5,10] keeps that child's own lower bound.
   */
  lemma PruningMissesStoredInterval(a: IntervalB, b: IntervalB, c: IntervalB, d: IntervalB, q: IntervalB)
    requires a == I(20, 30) && b == I(5, 10) && c == I(25, 26) && d == I(0, 2) && q == I(0, 1)
    ensures CreateAll(Nil, [a, b, c, d]).Inserted?
    ensures d in Elements(CreateAll(Nil, [a, b, c, d]).root)
    ensures Overlaps(d, q)
    ensures Overlapping(CreateAll(Nil, [a, b, c, d]).root, q) == []
  {
    PruningRun(a, b, c, d, q);
  }

  /**
   * The example from the tree's contract: after inserting [0,9], [10,19],
   * [20,29] and [5,14], the intervals overlapping [5,14] are [0,9], [5,14]
   * and [10,19], in that order.
   */
  lemma OverlappingExample(a: IntervalB, b: IntervalB, c: IntervalB, d: IntervalB)
    requires a == I(0, 9) && b == I(10, 19) && c == I(20, 29) && d == I(5, 14)
    ensures CreateAll(Nil, [a, b, c, d]).Inserted?
    ensures Overlapping(CreateAll(Nil, [a, b, c, d]).root, d) == [a, d, b]
  {
    ExampleRun(a, b, c, d);
  }

  /**
   * The other three queries of that example. The query [0,9] returns only
   * [0,9], although [5,14] is stored and overlaps it: the right child's
   * cached maximum [10,29] keeps its own lower bound 10 and so is skipped.
   */
  lemma ContractQueriesAsWritten(a: IntervalB, b: IntervalB, c: IntervalB, d: IntervalB)
    requires a == I(0, 9) && b == I(10, 19) && c == I(20, 29) && d == I(5, 14)
    ensures CreateAll(Nil, [a, b, c, d]) == Inserted(ContractTree())
    ensures d in Elements(ContractTree()) && Overlaps(a, d)
    ensures Overlapping(ContractTree(), a) == [a]
    ensures Overlapping(ContractTree(), b) == [d, b]
    ensures Overlapping(ContractTree(), c) == [c]
  {
    ExampleTree(a, b, c, d);
    QueriesOnContractTree();
  }

  /** With the intended pruning the query [0,9] also returns [5,14]; the other two answers stay. */
  lemma ContractQueriesIntended(a: IntervalB, b: IntervalB, c: IntervalB, d: IntervalB)
    requires a == I(0, 9) && b == I(10, 19) && c == I(20, 29) && d == I(5, 14)
    ensures CreateAll(Nil, [a, b, c, d]) == Inserted(ContractTree())
    ensures IntendedOverlapping(ContractTree(), a) == [a, d]
    ensures IntendedOverlapping(ContractTree(), b) == [d, b]
    ensures IntendedOverlapping(ContractTree(), c) == [c]
  {
    ExampleTree(a, b, c, d);
    IntendedQueriesOnContractTree();
  }

  /**
   * On the same insertions the query with the intended pruning returns
   * exactly [0,2], the stored interval the pruning by cached maxima misses.
   */
  lemma IntendedPruningFindsIt(a: IntervalB, b: IntervalB, c: IntervalB, d: IntervalB, q: IntervalB)
    requires a == I(20, 30) && b == I(5, 10) && c == I(25, 26) && d == I(0, 2) && q == I(0, 1)
    ensures CreateAll(Nil, [a, b, c, d]).Inserted?
    ensures IntendedOverlapping(CreateAll(Nil, [a, b, c, d]).root, q) == [d]
  {
    PruningTree(a, b, c, d);
    IntendedOnPruningTree(a, b, c, d, q);
  }
}
