/**
 * The `java.util.Set` operations of `IntervalTreeType` on the tree value:
 * `insert` and `remove` as total updates, and `addAll`, `removeAll` and
 * `retainAll` as those updates applied to each interval in turn.
 */
module AvlSets {
  import opened IntervalB
  import opened AvlModel
  import opened AvlOrder
  import opened AvlUpdate

  /** `insert` on the tree value: a duplicate leaves the tree as it was. */
  function Inserting(t: Tree, x: IntervalB): Tree
  {
    match Create(t, x)
    case Duplicate => t
    case Inserted(r) => r
  }

  /** `remove` on the tree value: a missing interval leaves the tree as it was. */
  function Removing(t: Tree, x: IntervalB): Tree
  {
    match RemoveAt(t, x)
    case Nonexistent => t
    case Removed(r) => r
  }

  /** `insert` adds exactly `x` to the set and keeps the invariant. */
  lemma InsertingAdds(t: Tree, x: IntervalB)
    requires Invariant(t)
    ensures Invariant(Inserting(t, x)) && Elements(Inserting(t, x)) == Elements(t) + {x}
  {
    CreateCorrect(t, x);
  }

  /** `remove` takes exactly `x` out of the set and keeps the invariant. */
  lemma RemovingTakes(t: Tree, x: IntervalB)
    requires Invariant(t)
    ensures Invariant(Removing(t, x)) && Elements(Removing(t, x)) == Elements(t) - {x}
  {
    RemoveCorrect(t, x);
  }

  /** `addAll`: the intervals of `xs` inserted one after the other. */
  function InsertingAll(t: Tree, xs: seq<IntervalB>): Tree
    decreases |xs|
  {
    if xs == [] then t else Inserting(InsertingAll(t, xs[..|xs| - 1]), xs[|xs| - 1])
  }

  /** The events `addAll` publishes, in order. */
  function InsertingAllEvents(t: Tree, xs: seq<IntervalB>): seq<Change>
    decreases |xs|
  {
    if xs == [] then []
    else
      var init := xs[..|xs| - 1];
      InsertingAllEvents(t, init) + CreateEvents(InsertingAll(t, init), xs[|xs| - 1])
  }

  /** `removeAll` (and `retainAll`): the intervals of `xs` removed one after the other. */
  function RemovingAll(t: Tree, xs: seq<IntervalB>): Tree
    decreases |xs|
  {
    if xs == [] then t else Removing(RemovingAll(t, xs[..|xs| - 1]), xs[|xs| - 1])
  }

  /** The events `removeAll` publishes, in order. */
  function RemovingAllEvents(t: Tree, xs: seq<IntervalB>): seq<Change>
    decreases |xs|
  {
    if xs == [] then []
    else
      var init := xs[..|xs| - 1];
      RemovingAllEvents(t, init) + RemoveEvents(RemovingAll(t, init), xs[|xs| - 1])
  }

  /** The intervals of `xs` that `c` does not contain, in their order: what `retainAll` removes. */
  function Rejected(xs: seq<IntervalB>, c: seq<IntervalB>): seq<IntervalB>
    decreases |xs|
  {
    if xs == [] then []
    else
      var last := xs[|xs| - 1];
      Rejected(xs[..|xs| - 1], c) + (if last in c then [] else [last])
  }

  /** One more interval of a `retainAll` snapshot: removed when `c` does not contain it. */
  lemma RejectedStep(t: Tree, xs: seq<IntervalB>, c: seq<IntervalB>, i: nat)
    requires i < |xs|
    ensures var r, x := Rejected(xs[..i], c), xs[i];
      && RemovingAll(t, Rejected(xs[..i + 1], c))
         == (if x in c then RemovingAll(t, r) else Removing(RemovingAll(t, r), x))
      && RemovingAllEvents(t, Rejected(xs[..i + 1], c))
         == RemovingAllEvents(t, r) + (if x in c then [] else RemoveEvents(RemovingAll(t, r), x))
  {
    var r, x := Rejected(xs[..i], c), xs[i];
    assert xs[..i + 1][..i] == xs[..i];
    if x !in c {
      assert Rejected(xs[..i + 1], c) == r + [x];
      assert (r + [x])[..|r|] == r;
    } else {
      assert Rejected(xs[..i + 1], c) == r;
    }
  }

  /** `addAll` leaves the set union of the tree's intervals and `xs`. */
  lemma {:induction false} InsertingAllAdds(t: Tree, xs: seq<IntervalB>)
    requires Invariant(t)
    ensures Invariant(InsertingAll(t, xs))
    ensures forall y :: y in Elements(InsertingAll(t, xs)) <==> y in Elements(t) || y in xs
    decreases |xs|
  {
    if xs != [] {
      var init, last := xs[..|xs| - 1], xs[|xs| - 1];
      InsertingAllAdds(t, init);
      InsertingAdds(InsertingAll(t, init), last);
      assert xs == init + [last];
    }
  }

  /** `removeAll` leaves the set difference of the tree's intervals and `xs`. */
  lemma {:induction false} RemovingAllTakes(t: Tree, xs: seq<IntervalB>)
    requires Invariant(t)
    ensures Invariant(RemovingAll(t, xs))
    ensures forall y :: y in Elements(RemovingAll(t, xs)) <==> y in Elements(t) && y !in xs
    decreases |xs|
  {
    if xs != [] {
      var init, last := xs[..|xs| - 1], xs[|xs| - 1];
      RemovingAllTakes(t, init);
      RemovingTakes(RemovingAll(t, init), last);
      assert xs == init + [last];
    }
  }

  /** `Rejected` keeps exactly the members of `xs` outside `c`. */
  lemma {:induction false} RejectedMembers(xs: seq<IntervalB>, c: seq<IntervalB>)
    ensures forall y :: y in Rejected(xs, c) <==> y in xs && y !in c
    decreases |xs|
  {
    if xs != [] {
      var init, last := xs[..|xs| - 1], xs[|xs| - 1];
      RejectedMembers(init, c);
      assert xs == init + [last];
    }
  }

  /**
   * `retainAll`, removing from a snapshot of the tree's intervals those `c`
   * does not contain, leaves the intersection of the tree's intervals and `c`.
   */
  lemma RetainingKeeps(t: Tree, c: seq<IntervalB>)
    requires Invariant(t)
    ensures Invariant(RemovingAll(t, Rejected(InOrder(t), c)))
    ensures forall y :: y in Elements(RemovingAll(t, Rejected(InOrder(t), c))) <==> y in Elements(t) && y in c
  {
    var rejected := Rejected(InOrder(t), c);
    RemovingAllTakes(t, rejected);
    RejectedMembers(InOrder(t), c);
    InOrderElements(t);
  }
}
