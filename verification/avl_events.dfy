/**
 * The change events `create` and `removeAt` publish: one Created for a new
 * interval, one Deleted naming the removed interval and its deletion case,
 * and one Balanced per rotation on the way back up; nothing at all when the
 * operation fails.
 */
module AvlEvents {
  import opened IntervalType
  import opened IntervalB
  import opened AvlModel

  /** The node on the search path whose interval compares EQUAL to `x`, or Nil. */
  function Holder(t: Tree, x: IntervalB): (n: Tree)
    ensures n.Node? ==> Compare(x, n.interval) == Equal
  {
    match t
    case Nil => Nil
    case Node(l, v, r, _, _) =>
      match Compare(x, v)
      case Equal => t
      case LessThan => Holder(l, x)
      case MoreThan => Holder(r, x)
  }

  /** The deletion case of a node: by which of its children are present. */
  function DeletionCase(n: Tree): DeletionKind
    requires n.Node?
  {
    if n.left.Nil? && n.right.Nil? then Leaf
    else if n.right.Nil? then SingleParentL
    else if n.left.Nil? then SingleParentR
    else Branch
  }

  /** Every event is a rotation. */
  ghost predicate OnlyRotations(e: seq<Change>)
  {
    forall i :: 0 <= i < |e| ==> e[i].Balanced?
  }

  /** Appending the events of one rebalancing step keeps the shape of a successful insertion. */
  lemma CreatedThenRotations(e: seq<Change>, b: seq<Change>, x: IntervalB)
    requires |e| >= 1 && e[0] == Created(x) && OnlyRotations(e[1..])
    requires OnlyRotations(b)
    ensures |e + b| >= 1 && (e + b)[0] == Created(x) && OnlyRotations((e + b)[1..])
  {
    assert (e + b)[1..] == e[1..] + b;
  }

  /**
   * A failed insertion publishes nothing; a successful one publishes Created
   * for the new interval first, and then only Balanced events.
   */
  lemma {:induction false} CreateEventsShape(t: Tree, x: IntervalB)
    ensures Create(t, x).Duplicate? ==> CreateEvents(t, x) == []
    ensures Create(t, x).Inserted? ==>
      |CreateEvents(t, x)| >= 1 && CreateEvents(t, x)[0] == Created(x)
      && OnlyRotations(CreateEvents(t, x)[1..])
  {
    match t
    case Nil =>
    case Node(l, v, r, _, _) =>
      match Compare(x, v)
      case Equal =>
      case LessThan =>
        CreateEventsShape(l, x);
        if Create(l, x).Inserted? {
          var b := RestoreEvents(t.(left := Create(l, x).root));
          CreatedThenRotations(CreateEvents(l, x), b, x);
        }
      case MoreThan =>
        CreateEventsShape(r, x);
        if Create(r, x).Inserted? {
          var b := RestoreEvents(t.(right := Create(r, x).root));
          CreatedThenRotations(CreateEvents(r, x), b, x);
        }
  }

  /**
   * A failed removal publishes nothing; a successful one publishes a Deleted
   * event naming the removed interval with the case of the node that held it,
   * and otherwise only Deleted (for a spliced successor) and Balanced events.
   */
  lemma {:induction false} RemoveEventsShape(t: Tree, x: IntervalB)
    ensures RemoveAt(t, x).Nonexistent? ==> RemoveEvents(t, x) == []
    ensures RemoveAt(t, x).Removed? ==>
      && Holder(t, x).Node?
      && Deleted(DeletionCase(Holder(t, x)), x) in RemoveEvents(t, x)
      && forall c :: c in RemoveEvents(t, x) ==> c.Deleted? || c.Balanced?
  {
    match t
    case Nil =>
    case Node(l, v, r, m, h) =>
      match Compare(x, v)
      case Equal =>
        if l.Node? && r.Node? {
          var s := FindMinimum(r).interval;
          RemoveEventsShape(r, s);
          if RemoveAt(r, s).Removed? {
            var e := RemoveEvents(r, s);
            var b := RestoreEvents(Node(l, s, RemoveAt(r, s).root, m, h));
            assert RemoveEvents(t, x) == e + [Deleted(Branch, x)] + b;
          }
        }
      case LessThan =>
        RemoveEventsShape(l, x);
        if RemoveAt(l, x).Removed? {
          var e := RemoveEvents(l, x);
          var b := RestoreEvents(t.(left := RemoveAt(l, x).root));
          assert RemoveEvents(t, x) == e + b;
        }
      case MoreThan =>
        RemoveEventsShape(r, x);
        if RemoveAt(r, x).Removed? {
          var e := RemoveEvents(r, x);
          var b := RestoreEvents(t.(right := RemoveAt(r, x).root));
          assert RemoveEvents(t, x) == e + b;
        }
  }
}
