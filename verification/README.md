# abstand interval tree, modelled in Dafny

abstand stores closed intervals `[lower, upper]` in an augmented AVL tree. It answers
"is this interval stored" and "which stored intervals overlap this one". Intervals are
ordered lexicographically: by lower bound, then by upper bound. That order alone fixes a
node's position and makes intervals unique. Each node caches its subtree height and a
"maximum" interval, which the overlap query uses to prune subtrees. Insertion and removal
recurse to the target. On the way back up, each node recomputes its maximum and height and
is rebalanced by one of four rotations (RR, LL, RL, LR). Every insertion, deletion,
rotation and clear is published as a change event. `IntervalTreeType` puts the
`java.util.Set` operations on top of the tree: `contains`, `add`, `remove`, `containsAll`,
`addAll`, `removeAll` and `retainAll`.

The model has two layers.

- A value layer (`AvlModel` and the modules proving things about it):
  - A `Tree` datatype with one node per tree node, carrying the interval, the cached
    maximum and the stored height.
  - One function per algorithm step, following `IntervalTree.java` branch by branch:
    `Create`, `RemoveAt`, `Balance`, the four rotations, `UpdateMaximum`, `UpdateHeight`,
    `FindMinimum`, `Find`, `OverlappingAt` and `InOrder`.
  - Functions giving the events each step publishes.
  - On these, the lemmas prove:
    - insertion and removal keep the search order, the height bookkeeping and the AVL
      balance, and add or remove exactly one interval;
    - the internal checks (`checkInvariants`, the rotation postconditions and `validate`)
      never fail;
    - `find`, `size` and iteration agree with the stored set;
    - `overlapping` returns only overlapping stored intervals, in ascending order;
    - the bulk `Set` operations compute union, difference and intersection.
- A heap layer (`IntervalTrees`):
  - Classes `Node` and `IntervalTree` whose methods update fields in place, as the Java
    code does.
  - Each node carries a ghost footprint (`Repr`) and a ghost value (`Model`). Every
    mutating method states the new `Model` as the value-layer function applied to the old
    one. It also states the events appended to the tree's ghost `Events` log, which stands
    for the change listener.
  - The public operations then state the set-level result directly. For example, after
    `Insert(x)` the stored set is the old one plus `x`, and the result is true exactly when
    `x` was absent.

The interval types are modelled separately:
- `IntervalB` (unbounded integers) is the element type of the tree.
- `IntervalI` and `IntervalL` use 32- and 64-bit bounds.
- `IntervalG` is generic over a comparator.

## Model

| member | source | states |
|---|---|---|
| IntervalType.Compare | com.io7m.abstand.core/src/main/java/com/io7m/abstand/core/IntervalType.java:66-84 | LESS_THAN exactly when the first interval precedes the second in lexicographic (lower, then upper) order, MORE_THAN exactly for the reverse, EQUAL exactly when both bounds agree |
| IntervalType.CompareTo | com.io7m.abstand.core/src/main/java/com/io7m/abstand/core/IntervalType.java:86-95 | result in -1..1; negative, zero or positive exactly when the interval precedes, equals or follows the other |
| IntervalType.CompareByLower | com.io7m.abstand.core/src/main/java/com/io7m/abstand/core/IntervalType.java:69-72 | different lower bounds alone decide the order |
| IntervalType.CompareByUpper | com.io7m.abstand.core/src/main/java/com/io7m/abstand/core/IntervalType.java:73-82 | equal lower bounds: the upper bounds decide, and equal uppers give EQUAL |
| IntervalType.CompareReflexive | com.io7m.abstand.core/src/main/java/com/io7m/abstand/core/IntervalType.java:66-84 | every interval compares EQUAL to itself |
| IntervalType.CompareAntisymmetric | com.io7m.abstand.core/src/main/java/com/io7m/abstand/core/IntervalType.java:66-84 | swapping the arguments swaps LESS_THAN and MORE_THAN and keeps EQUAL |
| IntervalType.CompareTransitive | com.io7m.abstand.core/src/main/java/com/io7m/abstand/core/IntervalType.java:66-84 | LESS_THAN and MORE_THAN are transitive, so the tree's ordering is a strict order |
| IntervalType.CompareTotal | com.io7m.abstand.core/src/main/java/com/io7m/abstand/core/IntervalType.java:66-84 | any two intervals are in exactly one of: before, equal, after |
| IntervalB.New | com.io7m.abstand.core/src/main/java/com/io7m/abstand/core/IntervalB.java:48-59 | construction fails (IllegalArgumentException) exactly when upper < lower; otherwise the interval holds exactly the given bounds |
| IntervalB.Of | com.io7m.abstand.core/src/main/java/com/io7m/abstand/core/IntervalB.java:70-78 | the same for two 64-bit arguments widened to unbounded integers |
| IntervalB.Overlaps | com.io7m.abstand.core/src/main/java/com/io7m/abstand/core/IntervalB.java:80-86 | holds exactly when the two closed intervals share a point |
| IntervalB.UpperMaximum | com.io7m.abstand.core/src/main/java/com/io7m/abstand/core/IntervalB.java:88-96 | keeps the receiver's lower bound; the upper bound is the larger of the two upper bounds |
| IntervalB.OverlapsSymmetric | com.io7m.abstand.core/src/main/java/com/io7m/abstand/core/IntervalB.java:80-86 | overlap does not depend on argument order |
| IntervalB.OverlapsSelf | com.io7m.abstand.core/src/main/java/com/io7m/abstand/core/IntervalB.java:80-86 | every valid interval overlaps itself |
| IntervalB.UpperMaximumSelf | com.io7m.abstand.core/src/main/java/com/io7m/abstand/core/IntervalB.java:88-96 | widening an interval by itself returns it unchanged |
| IntervalB.UpperMaximumAbsorbs | com.io7m.abstand.core/src/main/java/com/io7m/abstand/core/IntervalB.java:88-96 | widening twice by the same interval equals widening once |
| IntervalG.New | com.io7m.abstand.core/src/main/java/com/io7m/abstand/core/IntervalG.java:49-60 | fails exactly when the comparator puts upper below lower; otherwise keeps both bounds and is valid |
| IntervalG.Of | com.io7m.abstand.core/src/main/java/com/io7m/abstand/core/IntervalG.java:72-77 | the same as the constructor it delegates to: fails exactly when upper < lower, else the given bounds |
| IntervalG.Overlaps | com.io7m.abstand.core/src/main/java/com/io7m/abstand/core/IntervalG.java:79-85 | the comparator test on both bound pairs; OverlapsIffCommonPoint states what it means |
| IntervalG.OverlapsIffCommonPoint | com.io7m.abstand.core/src/main/java/com/io7m/abstand/core/IntervalG.java:79-85 | for valid intervals under a total order, overlap holds exactly when the intervals share a point |
| IntervalG.Max | com.io7m.abstand.core/src/main/java/com/io7m/abstand/core/IntervalG.java:87-92 | one of its arguments, and not below either under a total order |
| IntervalG.UpperMaximum | com.io7m.abstand.core/src/main/java/com/io7m/abstand/core/IntervalG.java:94-102 | keeps the receiver's lower bound; the upper bound is one of the two and not below either; validity is kept |
| IntervalG.OverlapsSymmetric | com.io7m.abstand.core/src/main/java/com/io7m/abstand/core/IntervalG.java:79-85 | for any comparator, overlap does not depend on argument order |
| IntervalG.OverlapsSelf | com.io7m.abstand.core/src/main/java/com/io7m/abstand/core/IntervalG.java:79-85 | a valid interval overlaps itself |
| IntervalG.UpperMaximumSelf | com.io7m.abstand.core/src/main/java/com/io7m/abstand/core/IntervalG.java:94-102 | widening by itself changes nothing |
| IntervalI.New | com.io7m.abstand.core/src/main/java/com/io7m/abstand/core/IntervalI.java:57-65 | fails exactly when upper < lower; otherwise the accessors return the given 32-bit bounds |
| IntervalI.Of | com.io7m.abstand.core/src/main/java/com/io7m/abstand/core/IntervalI.java:76-84 | the factory: fails exactly when upper < lower, else an interval with exactly those bounds |
| IntervalI.Overlaps | com.io7m.abstand.core/src/main/java/com/io7m/abstand/core/IntervalI.java:86-92 | agrees with the unbounded overlap test on the widened bounds: a shared point exists |
| IntervalI.Max | com.io7m.abstand.core/src/main/java/com/io7m/abstand/core/IntervalI.java:94-102 | the larger of two 32-bit values |
| IntervalI.UpperMaximum | com.io7m.abstand.core/src/main/java/com/io7m/abstand/core/IntervalI.java:94-102 | keeps the lower bound and agrees with the unbounded operation on widened bounds, so it cannot overflow |
| IntervalI.Lower | com.io7m.abstand.core/src/main/java/com/io7m/abstand/core/IntervalI.java:38-42 | the boxed lower bound is the interval's lower bound; RecordRoundTrip rebuilds the interval from it and upper() |
| IntervalI.Upper | com.io7m.abstand.core/src/main/java/com/io7m/abstand/core/IntervalI.java:44-48 | the boxed upper bound is the interval's upper bound; RecordRoundTrip rebuilds the interval from it and lower() |
| IntervalI.RecordRoundTrip | com.io7m.abstand.core/src/main/java/com/io7m/abstand/core/IntervalI.java:38-65 | the constructor accepts the values lower() and upper() return and rebuilds exactly the same interval |
| IntervalL.New | com.io7m.abstand.core/src/main/java/com/io7m/abstand/core/IntervalL.java:57-65 | fails exactly when upper < lower; otherwise the accessors return the given 64-bit bounds |
| IntervalL.Of | com.io7m.abstand.core/src/main/java/com/io7m/abstand/core/IntervalL.java:76-84 | the factory: fails exactly when upper < lower, else an interval with exactly those bounds |
| IntervalL.Overlaps | com.io7m.abstand.core/src/main/java/com/io7m/abstand/core/IntervalL.java:86-92 | agrees with the unbounded overlap test on the widened bounds: a shared point exists |
| IntervalL.Max | com.io7m.abstand.core/src/main/java/com/io7m/abstand/core/IntervalL.java:94-102 | the larger of two 64-bit values |
| IntervalL.UpperMaximum | com.io7m.abstand.core/src/main/java/com/io7m/abstand/core/IntervalL.java:94-102 | keeps the lower bound and agrees with the unbounded operation on widened bounds, so it cannot overflow |
| IntervalL.Lower | com.io7m.abstand.core/src/main/java/com/io7m/abstand/core/IntervalL.java:38-42 | the boxed lower bound is the interval's lower bound; RecordRoundTrip rebuilds the interval from it and upper() |
| IntervalL.Upper | com.io7m.abstand.core/src/main/java/com/io7m/abstand/core/IntervalL.java:44-48 | the boxed upper bound is the interval's upper bound; RecordRoundTrip rebuilds the interval from it and lower() |
| IntervalL.RecordRoundTrip | com.io7m.abstand.core/src/main/java/com/io7m/abstand/core/IntervalL.java:38-65 | the constructor accepts the values lower() and upper() return and rebuilds exactly the same interval |
| AvlModel.Classify | com.io7m.abstand.core/src/main/java/com/io7m/abstand/core/IntervalTree.java:839-857 | the five balance factors partition the height difference: >= 2, 1, 0, -1, <= -2; balanced exactly when it lies in -1..1 |
| AvlModel.BalanceFactorOf | com.io7m.abstand.core/src/main/java/com/io7m/abstand/core/IntervalTree.java:839-864 | a node's factor classifies its left height minus its right height, as above |
| AvlModel.IsBalanced | com.io7m.abstand.core/src/main/java/com/io7m/abstand/core/IntervalTree.java:766-772 | true exactly for BALANCED and the two leaning factors; Classify and BalanceFactorOf tie it to a height difference in -1..1 |
| AvlModel.Max | com.io7m.abstand.core/src/main/java/com/io7m/abstand/core/IntervalTree.java:866-869 | the larger of two heights, as `max` in updateHeight; UpdateHeightOk states the height it yields |
| AvlModel.Height | com.io7m.abstand.core/src/main/java/com/io7m/abstand/core/IntervalTree.java:817-831 | a child's stored height, 0 for a missing child; HeightsOk and UpdateHeightOk tie it to the subtree |
| AvlModel.BalanceFactorRaw | com.io7m.abstand.core/src/main/java/com/io7m/abstand/core/IntervalTree.java:859-864 | left height minus right height; Classify states how balanceFactor reads it |
| AvlModel.LocallyOrdered | com.io7m.abstand.core/src/main/java/com/io7m/abstand/core/IntervalTree.java:881-917 | checkInvariants of one node: the children lie on the correct sides; OrderedLocally shows every node of an ordered tree passes |
| AvlModel.ChecksPass | com.io7m.abstand.core/src/main/java/com/io7m/abstand/core/IntervalTree.java:174-192 | validateAt: every node passes checkInvariants and is balanced; InvariantPassesChecks shows the invariant implies it |
| AvlModel.UpdateHeight | com.io7m.abstand.core/src/main/java/com/io7m/abstand/core/IntervalTree.java:866-869 | recomputes the node's height from its children's; UpdateHeightOk states the result |
| AvlModel.InOrder | com.io7m.abstand.core/src/main/java/com/io7m/abstand/core/IntervalTree.java:115-131 | the traversal all() performs, left subtree first; InOrderElements and OrderedIffAscending state what it holds and its order |
| AvlModel.Size | com.io7m.abstand.core/src/main/java/com/io7m/abstand/core/IntervalTree.java:93-102 | the node count is the traversal's length; SizeCounts adds that it counts the distinct stored intervals |
| AvlModel.Find | com.io7m.abstand.core/src/main/java/com/io7m/abstand/core/IntervalTree.java:464-483 | a true answer means the interval is stored; FindCorrect gives the converse for an ordered tree |
| AvlModel.Overlapping | com.io7m.abstand.core/src/main/java/com/io7m/abstand/core/IntervalTree.java:104-113 | an empty tree gives nothing, otherwise the pruned traversal; OverlappingSound states soundness and order |
| AvlModel.OverlappingAt | com.io7m.abstand.core/src/main/java/com/io7m/abstand/core/IntervalTree.java:133-167 | the node's interval if it overlaps, between the children visited when their cached maximum overlaps; OverlappingSound states soundness and order |
| AvlModel.NewLeaf | com.io7m.abstand.core/src/main/java/com/io7m/abstand/core/IntervalTree.java:784-789 | the node create builds for a new interval (lines 229-235): no children, the interval as its maximum, height 0; Node.constructor builds exactly this |
| AvlModel.Create | com.io7m.abstand.core/src/main/java/com/io7m/abstand/core/IntervalTree.java:219-271 | reports a duplicate exactly when the descent finds the interval, and an insertion yields a node; CreateCorrect states the rest |
| AvlModel.CreateEvents | com.io7m.abstand.core/src/main/java/com/io7m/abstand/core/IntervalTree.java:219-271 | the events create publishes; CreateEventsShape states their shape |
| AvlModel.RemoveAt | com.io7m.abstand.core/src/main/java/com/io7m/abstand/core/IntervalTree.java:497-569 | removes only where the descent finds the interval; RemoveCorrect states the rest |
| AvlModel.RemoveEvents | com.io7m.abstand.core/src/main/java/com/io7m/abstand/core/IntervalTree.java:497-569 | the events removeAt publishes; RemoveEventsShape states their shape |
| AvlModel.RestoreEvents | com.io7m.abstand.core/src/main/java/com/io7m/abstand/core/IntervalTree.java:268-270 | the Balanced event the unwinding step may publish; RestoreHeights states when it is empty |
| AvlModel.FindMinimum | com.io7m.abstand.core/src/main/java/com/io7m/abstand/core/IntervalTree.java:485-495 | the node returned has no left child; with FindMinimumIsLeast it holds the least stored interval |
| AvlModel.UpdateMaximum | com.io7m.abstand.core/src/main/java/com/io7m/abstand/core/IntervalTree.java:804-815 | only cached maxima change: same shape, intervals and heights; each maximum keeps its lower bound and never shrinks |
| AvlModel.UpdateMaximumKeepsContents | com.io7m.abstand.core/src/main/java/com/io7m/abstand/core/IntervalTree.java:804-815 | the in-order sequence, the set of intervals and search order are unchanged |
| AvlModel.UpdateMaximumKeepsHeights | com.io7m.abstand.core/src/main/java/com/io7m/abstand/core/IntervalTree.java:804-815 | heights, their consistency and the AVL balance are unchanged |
| AvlModel.RotateRR | com.io7m.abstand.core/src/main/java/com/io7m/abstand/core/IntervalTree.java:341-360 | the left child becomes the subtree root with the old root as its right child |
| AvlModel.RotateLL | com.io7m.abstand.core/src/main/java/com/io7m/abstand/core/IntervalTree.java:370-389 | the right child becomes the subtree root with the old root as its left child |
| AvlModel.RotateRL | com.io7m.abstand.core/src/main/java/com/io7m/abstand/core/IntervalTree.java:400-412 | the left child's right child becomes the subtree root |
| AvlModel.RotateLR | com.io7m.abstand.core/src/main/java/com/io7m/abstand/core/IntervalTree.java:423-435 | the right child's left child becomes the subtree root |
| AvlModel.Balance | com.io7m.abstand.core/src/main/java/com/io7m/abstand/core/IntervalTree.java:273-331 | a node whose factor is balanced is returned unchanged |
| AvlModel.BalanceEvents | com.io7m.abstand.core/src/main/java/com/io7m/abstand/core/IntervalTree.java:273-331 | at most one Balanced event, naming the node, published exactly when the node is unbalanced |
| AvlModel.RotateRRKeepsContents | com.io7m.abstand.core/src/main/java/com/io7m/abstand/core/IntervalTree.java:341-360 | the rotation keeps the in-order sequence and the set |
| AvlModel.RotateLLKeepsContents | com.io7m.abstand.core/src/main/java/com/io7m/abstand/core/IntervalTree.java:370-389 | the rotation keeps the in-order sequence and the set |
| AvlModel.RotateRLKeepsContents | com.io7m.abstand.core/src/main/java/com/io7m/abstand/core/IntervalTree.java:400-412 | the double rotation keeps the in-order sequence and the set |
| AvlModel.RotateLRKeepsContents | com.io7m.abstand.core/src/main/java/com/io7m/abstand/core/IntervalTree.java:423-435 | the double rotation keeps the in-order sequence and the set |
| AvlModel.BalanceKeepsContents | com.io7m.abstand.core/src/main/java/com/io7m/abstand/core/IntervalTree.java:273-331 | balancing keeps the in-order sequence and the set |
| AvlModel.Restore | com.io7m.abstand.core/src/main/java/com/io7m/abstand/core/IntervalTree.java:268-270 | the unwinding step (updateMaximum, updateHeight, balance) always yields a node |
| AvlModel.RestoreKeepsContents | com.io7m.abstand.core/src/main/java/com/io7m/abstand/core/IntervalTree.java:268-270 | the unwinding step keeps the in-order sequence and the set |
| AvlOrder.InOrderElements | com.io7m.abstand.core/src/main/java/com/io7m/abstand/core/IntervalTree.java:115-131 | the traversal visits exactly the stored intervals |
| AvlOrder.OrderedAscends | com.io7m.abstand.core/src/main/java/com/io7m/abstand/core/IntervalTree.java:115-131 | in a search-ordered tree the traversal is strictly ascending |
| AvlOrder.AscendingOrdered | com.io7m.abstand.core/src/main/java/com/io7m/abstand/core/IntervalTree.java:115-131 | a tree whose traversal is strictly ascending is search-ordered |
| AvlOrder.OrderedIffAscending | com.io7m.abstand.core/src/main/java/com/io7m/abstand/core/IntervalTree.java:115-131 | search order holds exactly when the traversal strictly ascends |
| AvlOrder.FindCorrect | com.io7m.abstand.core/src/main/java/com/io7m/abstand/core/IntervalTree.java:464-483 | in a search-ordered tree the descent answers true exactly when the interval is stored |
| AvlOrder.SizeCounts | com.io7m.abstand.core/src/main/java/com/io7m/abstand/core/IntervalTree.java:93-102 | the node count equals the traversal's length and the number of distinct stored intervals |
| AvlOrder.FindMinimumIsLeast | com.io7m.abstand.core/src/main/java/com/io7m/abstand/core/IntervalTree.java:485-495 | the leftmost interval is stored and precedes every other stored interval |
| AvlOrder.BalanceKeepsOrder | com.io7m.abstand.core/src/main/java/com/io7m/abstand/core/IntervalTree.java:273-331 | balancing keeps search order, in both directions |
| AvlBalance.UpdateHeightOk | com.io7m.abstand.core/src/main/java/com/io7m/abstand/core/IntervalTree.java:866-869 | the recomputed height is one more than the taller child's and is consistent |
| AvlBalance.RotateRRBalances | com.io7m.abstand.core/src/main/java/com/io7m/abstand/core/IntervalTree.java:341-360 | on a left-heavy node whose left child does not lean right, the result is balanced with consistent heights and one lower unless that child was even |
| AvlBalance.RotateLLBalances | com.io7m.abstand.core/src/main/java/com/io7m/abstand/core/IntervalTree.java:370-389 | the mirror statement for a right-heavy node |
| AvlBalance.RotateRLInnerPostcondition | com.io7m.abstand.core/src/main/java/com/io7m/abstand/core/IntervalTree.java:403-410 | after the inner rotation the node is LEFT_HEAVY, so the postcondition check never fails |
| AvlBalance.RotateLRInnerPostcondition | com.io7m.abstand.core/src/main/java/com/io7m/abstand/core/IntervalTree.java:426-433 | after the inner rotation the node is RIGHT_HEAVY, so the postcondition check never fails |
| AvlBalance.RotateRLBalances | com.io7m.abstand.core/src/main/java/com/io7m/abstand/core/IntervalTree.java:400-412 | on a left-heavy node whose left child leans right, the result is balanced and exactly one lower |
| AvlBalance.RotateLRBalances | com.io7m.abstand.core/src/main/java/com/io7m/abstand/core/IntervalTree.java:423-435 | the mirror statement for a right-heavy node |
| AvlBalance.BalanceLeftHeavy | com.io7m.abstand.core/src/main/java/com/io7m/abstand/core/IntervalTree.java:290-309 | a LEFT_HEAVY node comes out balanced, with its height kept or one lower |
| AvlBalance.BalanceRightHeavy | com.io7m.abstand.core/src/main/java/com/io7m/abstand/core/IntervalTree.java:312-329 | a RIGHT_HEAVY node comes out balanced, with its height kept or one lower |
| AvlBalance.BalanceRestores | com.io7m.abstand.core/src/main/java/com/io7m/abstand/core/IntervalTree.java:273-331 | any node with balanced children and a height difference within 2 comes out balanced; the height drops only if a rotation ran |
| AvlUpdate.RestoreHeights | com.io7m.abstand.core/src/main/java/com/io7m/abstand/core/IntervalTree.java:268-270 | with children within 2 of each other the step yields a balanced node; it publishes nothing exactly when they were within 1; the height formula |
| AvlUpdate.RestoreOrdered | com.io7m.abstand.core/src/main/java/com/io7m/abstand/core/IntervalTree.java:268-270 | the step keeps search order (both ways) and the set |
| AvlUpdate.CreateHeightsLeft | com.io7m.abstand.core/src/main/java/com/io7m/abstand/core/IntervalTree.java:251-270 | after the left subtree grows by at most one, the node is balanced again and grows by at most one |
| AvlUpdate.CreateHeightsRight | com.io7m.abstand.core/src/main/java/com/io7m/abstand/core/IntervalTree.java:261-270 | the mirror statement for the right subtree |
| AvlUpdate.CreateOrderLeft | com.io7m.abstand.core/src/main/java/com/io7m/abstand/core/IntervalTree.java:251-270 | inserting into the left subtree keeps search order and adds exactly the new interval |
| AvlUpdate.CreateOrderRight | com.io7m.abstand.core/src/main/java/com/io7m/abstand/core/IntervalTree.java:261-270 | the mirror statement for the right subtree |
| AvlUpdate.CreateCorrect | com.io7m.abstand.core/src/main/java/com/io7m/abstand/core/IntervalTree.java:219-271 | a duplicate is reported exactly when the interval is stored; otherwise the invariant holds, exactly that interval is added and the height grows by at most one |
| AvlUpdate.RemoveHeightsLeft | com.io7m.abstand.core/src/main/java/com/io7m/abstand/core/IntervalTree.java:555-560 | after the left subtree shrinks by at most one, the node is balanced again and shrinks by at most one |
| AvlUpdate.RemoveHeightsRight | com.io7m.abstand.core/src/main/java/com/io7m/abstand/core/IntervalTree.java:562-567 | the mirror statement for the right subtree |
| AvlUpdate.RemoveOrderLeft | com.io7m.abstand.core/src/main/java/com/io7m/abstand/core/IntervalTree.java:555-560 | removing from the left subtree keeps search order and takes out exactly that interval |
| AvlUpdate.RemoveOrderRight | com.io7m.abstand.core/src/main/java/com/io7m/abstand/core/IntervalTree.java:562-567 | the mirror statement for the right subtree |
| AvlUpdate.SpliceOrder | com.io7m.abstand.core/src/main/java/com/io7m/abstand/core/IntervalTree.java:542-546 | replacing a node's interval by its successor and removing the successor from the right subtree keeps search order and removes exactly the node's interval |
| AvlUpdate.RemoveBranchStep | com.io7m.abstand.core/src/main/java/com/io7m/abstand/core/IntervalTree.java:542-552 | the two-children case yields a tree with the invariant, without the removed interval, at most one lower |
| AvlUpdate.RemoveCorrect | com.io7m.abstand.core/src/main/java/com/io7m/abstand/core/IntervalTree.java:497-569 | a missing interval is reported exactly when it is not stored; otherwise the invariant holds, exactly that interval is gone and the height drops by at most one |
| AvlChecks.InvariantPassesChecks | com.io7m.abstand.core/src/main/java/com/io7m/abstand/core/IntervalTree.java:174-192 | validateAt's checks (local order and balance at every node) pass on every tree with the invariant |
| AvlChecks.OrderedLocally | com.io7m.abstand.core/src/main/java/com/io7m/abstand/core/IntervalTree.java:881-917 | every node of a search-ordered tree passes checkInvariants |
| AvlChecks.UnwindReady | com.io7m.abstand.core/src/main/java/com/io7m/abstand/core/IntervalTree.java:268-270 | the node reaching balance after updateMaximum and updateHeight is ordered, consistent and within 2 |
| AvlChecks.CreateStepLeft | com.io7m.abstand.core/src/main/java/com/io7m/abstand/core/IntervalTree.java:251-270 | one step of create down the left: the result and events compose, and the checks inside takeOwnershipLeft pass |
| AvlChecks.CreateStepRight | com.io7m.abstand.core/src/main/java/com/io7m/abstand/core/IntervalTree.java:261-270 | the mirror statement for the right |
| AvlChecks.RemoveStepLeft | com.io7m.abstand.core/src/main/java/com/io7m/abstand/core/IntervalTree.java:555-560 | one step of removeAt down the left: the result and events compose, and the checks pass |
| AvlChecks.RemoveStepRight | com.io7m.abstand.core/src/main/java/com/io7m/abstand/core/IntervalTree.java:562-567 | the mirror statement for the right |
| AvlChecks.RemoveStepBranch | com.io7m.abstand.core/src/main/java/com/io7m/abstand/core/IntervalTree.java:542-552 | the successor is removable; the result and events (with Deleted Branch between) compose, and the checks pass |
| AvlChecks.RotateRRChecks | com.io7m.abstand.core/src/main/java/com/io7m/abstand/core/IntervalTree.java:349-352 | the checkInvariants calls inside both takeOwnership calls of rotateRR pass |
| AvlChecks.RotateLLChecks | com.io7m.abstand.core/src/main/java/com/io7m/abstand/core/IntervalTree.java:378-381 | the checkInvariants calls inside both takeOwnership calls of rotateLL pass |
| AvlChecks.RotateRLChecks | com.io7m.abstand.core/src/main/java/com/io7m/abstand/core/IntervalTree.java:400-412 | the inner rotation has a child to rotate, its checks pass, and the node is then LEFT_HEAVY |
| AvlChecks.RotateLRChecks | com.io7m.abstand.core/src/main/java/com/io7m/abstand/core/IntervalTree.java:423-435 | the inner rotation has a child to rotate, its checks pass, and the node is then RIGHT_HEAVY |
| AvlEvents.Holder | com.io7m.abstand.core/src/main/java/com/io7m/abstand/core/IntervalTree.java:497-569 | the node removeAt's descent stops at: when present it compares EQUAL to the interval |
| AvlEvents.DeletionCase | com.io7m.abstand.core/src/main/java/com/io7m/abstand/core/IntervalTree.java:513-530 | Leaf, SingleParentL or SingleParentR by which children are present, Branch otherwise; RemoveEventsShape names it in the Deleted event |
| AvlEvents.CreateEventsShape | com.io7m.abstand.core/src/main/java/com/io7m/abstand/core/IntervalTree.java:219-271 | a duplicate publishes nothing; an insertion publishes Created first and then only Balanced events |
| AvlEvents.RemoveEventsShape | com.io7m.abstand.core/src/main/java/com/io7m/abstand/core/IntervalTree.java:497-569 | a missing interval publishes nothing; a removal publishes Deleted for it, naming the case of the node that held it, and otherwise only Deleted and Balanced events |
| AvlQueries.OverlappingSound | com.io7m.abstand.core/src/main/java/com/io7m/abstand/core/IntervalTree.java:104-167 | every returned interval is stored and overlaps the query; the result strictly ascends; an empty tree gives nothing |
| AvlQueries.MaxUpper | com.io7m.abstand.core/src/main/java/com/io7m/abstand/core/IntervalTree.java:804-815 | the augmentation as intended: no stored upper bound in the subtree exceeds it |
| AvlQueries.MaxUpperAttained | com.io7m.abstand.core/src/main/java/com/io7m/abstand/core/IntervalTree.java:804-815 | and some stored interval has exactly that upper bound |
| AvlQueries.IntendedOverlappingAt | com.io7m.abstand.core/src/main/java/com/io7m/abstand/core/IntervalTree.java:133-167 | the corrected overlappingAt: a child is visited when its largest stored upper bound reaches the query; IntendedOverlappingExact states the result |
| AvlQueries.IntendedOverlapping | com.io7m.abstand.core/src/main/java/com/io7m/abstand/core/IntervalTree.java:104-113 | the corrected overlapping: nothing for an empty tree; IntendedOverlappingExact states the result |
| AvlQueries.IntendedOverlappingExact | com.io7m.abstand.core/src/main/java/com/io7m/abstand/core/IntervalTree.java:133-167 | with pruning by the subtree's largest upper bound, the query returns exactly the stored intervals that overlap |
| AvlQueries.IntendedOverlappingAscending | com.io7m.abstand.core/src/main/java/com/io7m/abstand/core/IntervalTree.java:133-167 | and its result strictly ascends |
| AvlSets.Inserting | com.io7m.abstand.core/src/main/java/com/io7m/abstand/core/IntervalTree.java:201-217 | insert on the tree value: a duplicate leaves it as it was; InsertingAdds states the result |
| AvlSets.Removing | com.io7m.abstand.core/src/main/java/com/io7m/abstand/core/IntervalTree.java:437-454 | remove on the tree value: a missing interval leaves it as it was; RemovingTakes states the result |
| AvlSets.InsertingAll | com.io7m.abstand.core/src/main/java/com/io7m/abstand/core/IntervalTreeType.java:74-83 | each interval inserted in turn; InsertingAllAdds states the result |
| AvlSets.InsertingAllEvents | com.io7m.abstand.core/src/main/java/com/io7m/abstand/core/IntervalTreeType.java:74-83 | the events of those insertions in order; IntervalTree.AddAll publishes exactly these |
| AvlSets.RemovingAll | com.io7m.abstand.core/src/main/java/com/io7m/abstand/core/IntervalTreeType.java:85-94 | each interval removed in turn; RemovingAllTakes states the result |
| AvlSets.RemovingAllEvents | com.io7m.abstand.core/src/main/java/com/io7m/abstand/core/IntervalTreeType.java:85-94 | the events of those removals in order; IntervalTree.RemoveAll publishes exactly these |
| AvlSets.Rejected | com.io7m.abstand.core/src/main/java/com/io7m/abstand/core/IntervalTreeType.java:96-108 | the snapshot's intervals the collection lacks; RejectedMembers states which they are |
| AvlSets.InsertingAdds | com.io7m.abstand.core/src/main/java/com/io7m/abstand/core/IntervalTree.java:201-217 | insert keeps the invariant and adds exactly the interval |
| AvlSets.RemovingTakes | com.io7m.abstand.core/src/main/java/com/io7m/abstand/core/IntervalTree.java:437-454 | remove keeps the invariant and takes out exactly the interval |
| AvlSets.InsertingAllAdds | com.io7m.abstand.core/src/main/java/com/io7m/abstand/core/IntervalTreeType.java:74-83 | addAll leaves the union of the stored intervals and the collection, with the invariant |
| AvlSets.RemovingAllTakes | com.io7m.abstand.core/src/main/java/com/io7m/abstand/core/IntervalTreeType.java:85-94 | removeAll leaves the stored intervals not in the collection, with the invariant |
| AvlSets.RejectedMembers | com.io7m.abstand.core/src/main/java/com/io7m/abstand/core/IntervalTreeType.java:96-108 | retainAll removes exactly the snapshot's intervals that the collection lacks |
| AvlSets.RetainingKeeps | com.io7m.abstand.core/src/main/java/com/io7m/abstand/core/IntervalTreeType.java:96-108 | retainAll leaves the intersection of the stored intervals and the collection, with the invariant |
| AvlExamples.PruningMissesStoredInterval | com.io7m.abstand.core/src/main/java/com/io7m/abstand/core/IntervalTree.java:150-163 | after inserting [20,30], [5,10], [25,26], [0,2], overlapping([0,1]) is empty although [0,2] is stored and overlaps |
| AvlExamples.OverlappingExample | com.io7m.abstand.tests/src/main/java/com/io7m/abstand/tests/IntervalTreeContract.java:186-254 | after inserting [0,9], [10,19], [20,29], [5,14], overlapping([5,14]) is [0,9], [5,14], [10,19] |
| AvlExamples.ContractQueriesAsWritten | com.io7m.abstand.tests/src/main/java/com/io7m/abstand/tests/IntervalTreeContract.java:198-239 | on that tree overlapping([0,9]) is [0,9] alone, although [5,14] is stored and overlaps it; overlapping([10,19]) is [5,14], [10,19]; overlapping([20,29]) is [20,29] |
| AvlExamples.ContractQueriesIntended | com.io7m.abstand.core/src/main/java/com/io7m/abstand/core/IntervalTreeType.java:138-144 | with the intended pruning the [0,9] query returns [0,9] and [5,14], every stored interval that overlaps; the other two answers are unchanged |
| AvlExamples.IntendedPruningFindsIt | com.io7m.abstand.core/src/main/java/com/io7m/abstand/core/IntervalTree.java:150-163 | on the same tree the intended pruning returns exactly [0,2] |
| IntervalTrees.CopyInto | com.io7m.abstand.core/src/main/java/com/io7m/abstand/core/IntervalTree.java:712-716 | the first elements of the array hold the intervals in order; the other slots are untouched |
| IntervalTrees.Node.constructor | com.io7m.abstand.core/src/main/java/com/io7m/abstand/core/IntervalTree.java:784-789 | a leaf holding the interval, its maximum being that interval, height 0 |
| IntervalTrees.Node.UpdateMaximum | com.io7m.abstand.core/src/main/java/com/io7m/abstand/core/IntervalTree.java:804-815 | the subtree's new state is AvlModel.UpdateMaximum of the old one; the footprint is kept; it returns the new maximum |
| IntervalTrees.Node.LeftHeight | com.io7m.abstand.core/src/main/java/com/io7m/abstand/core/IntervalTree.java:817-823 | the left child's stored height, 0 without one |
| IntervalTrees.Node.RightHeight | com.io7m.abstand.core/src/main/java/com/io7m/abstand/core/IntervalTree.java:825-831 | the right child's stored height, 0 without one |
| IntervalTrees.Node.BalanceFactorRaw | com.io7m.abstand.core/src/main/java/com/io7m/abstand/core/IntervalTree.java:859-864 | left height minus right height |
| IntervalTrees.Node.Factor | com.io7m.abstand.core/src/main/java/com/io7m/abstand/core/IntervalTree.java:839-857 | the classification of that difference |
| IntervalTrees.Node.CheckInvariants | com.io7m.abstand.core/src/main/java/com/io7m/abstand/core/IntervalTree.java:881-917 | passes exactly when the children lie on the correct sides of the node |
| IntervalTrees.Node.UpdateHeight | com.io7m.abstand.core/src/main/java/com/io7m/abstand/core/IntervalTree.java:866-869 | only the height changes, as AvlModel.UpdateHeight says |
| IntervalTrees.Node.TakeOwnershipLeft | com.io7m.abstand.core/src/main/java/com/io7m/abstand/core/IntervalTree.java:871-879 | the left link is the new child, everything else is kept; the check inside is required to pass |
| IntervalTrees.Node.TakeOwnershipRight | com.io7m.abstand.core/src/main/java/com/io7m/abstand/core/IntervalTree.java:942-950 | the right link is the new child, everything else is kept; the check inside is required to pass |
| IntervalTrees.Node.AdoptLeft | com.io7m.abstand.core/src/main/java/com/io7m/abstand/core/IntervalTree.java:349-357 | takeOwnershipLeft followed by updateHeight, as in the rotations |
| IntervalTrees.Node.AdoptRight | com.io7m.abstand.core/src/main/java/com/io7m/abstand/core/IntervalTree.java:352-358 | takeOwnershipRight followed by updateHeight, as in the rotations |
| IntervalTrees.Node.SetInterval | com.io7m.abstand.core/src/main/java/com/io7m/abstand/core/IntervalTree.java:952-957 | only the interval changes; the cached maximum stays |
| IntervalTrees.IntervalTree.Publish | com.io7m.abstand.core/src/main/java/com/io7m/abstand/core/IntervalTree.java:657-665 | the change is appended to the published events |
| IntervalTrees.IntervalTree.RotateRR | com.io7m.abstand.core/src/main/java/com/io7m/abstand/core/IntervalTree.java:341-360 | the new subtree is AvlModel.RotateRR of the old, within the old footprint |
| IntervalTrees.IntervalTree.RotateLL | com.io7m.abstand.core/src/main/java/com/io7m/abstand/core/IntervalTree.java:370-389 | the new subtree is AvlModel.RotateLL of the old, within the old footprint |
| IntervalTrees.IntervalTree.RotateLeftChildLeft | com.io7m.abstand.core/src/main/java/com/io7m/abstand/core/IntervalTree.java:403 | the node's left subtree is replaced by its LL rotation |
| IntervalTrees.IntervalTree.RotateRL | com.io7m.abstand.core/src/main/java/com/io7m/abstand/core/IntervalTree.java:400-412 | the new subtree is AvlModel.RotateRL of the old |
| IntervalTrees.IntervalTree.RotateRightChildRight | com.io7m.abstand.core/src/main/java/com/io7m/abstand/core/IntervalTree.java:426 | the node's right subtree is replaced by its RR rotation |
| IntervalTrees.IntervalTree.RotateLR | com.io7m.abstand.core/src/main/java/com/io7m/abstand/core/IntervalTree.java:423-435 | the new subtree is AvlModel.RotateLR of the old |
| IntervalTrees.IntervalTree.Balance | com.io7m.abstand.core/src/main/java/com/io7m/abstand/core/IntervalTree.java:273-331 | the new subtree is AvlModel.Balance of the old; the events are BalanceEvents |
| IntervalTrees.IntervalTree.Restore | com.io7m.abstand.core/src/main/java/com/io7m/abstand/core/IntervalTree.java:268-270 | the new subtree is AvlModel.Restore of the old; the events are RestoreEvents |
| IntervalTrees.IntervalTree.UnwindLeft | com.io7m.abstand.core/src/main/java/com/io7m/abstand/core/IntervalTree.java:251-270 | takes the new left subtree and restores the node |
| IntervalTrees.IntervalTree.UnwindRight | com.io7m.abstand.core/src/main/java/com/io7m/abstand/core/IntervalTree.java:261-270 | takes the new right subtree and restores the node |
| IntervalTrees.IntervalTree.CreateAt | com.io7m.abstand.core/src/main/java/com/io7m/abstand/core/IntervalTree.java:219-271 | inserted exactly when AvlModel.Create inserts; then the new subtree is its result; otherwise nothing changes; the events are CreateEvents |
| IntervalTrees.IntervalTree.CreateLeft | com.io7m.abstand.core/src/main/java/com/io7m/abstand/core/IntervalTree.java:251-255 | the LESS_THAN case of create, with the same contract |
| IntervalTrees.IntervalTree.CreateRight | com.io7m.abstand.core/src/main/java/com/io7m/abstand/core/IntervalTree.java:261-265 | the MORE_THAN case of create, with the same contract |
| IntervalTrees.IntervalTree.FindMinimum | com.io7m.abstand.core/src/main/java/com/io7m/abstand/core/IntervalTree.java:485-495 | the node is the one AvlModel.FindMinimum names |
| IntervalTrees.IntervalTree.RemoveAt | com.io7m.abstand.core/src/main/java/com/io7m/abstand/core/IntervalTree.java:497-569 | removed exactly when AvlModel.RemoveAt removes; then the new subtree is its result; otherwise nothing changes; the events are RemoveEvents |
| IntervalTrees.IntervalTree.RemoveHere | com.io7m.abstand.core/src/main/java/com/io7m/abstand/core/IntervalTree.java:507-553 | the EQUAL case: always removes, with AvlModel.RemoveAt's result and events |
| IntervalTrees.IntervalTree.RemoveBranch | com.io7m.abstand.core/src/main/java/com/io7m/abstand/core/IntervalTree.java:542-552 | the two-children case: the successor's interval replaces the node's, with AvlModel.RemoveAt's result and events |
| IntervalTrees.IntervalTree.RemoveSuccessor | com.io7m.abstand.core/src/main/java/com/io7m/abstand/core/IntervalTree.java:544-552 | removing the successor from the right subtree and unwinding completes that case |
| IntervalTrees.IntervalTree.UnwindBranch | com.io7m.abstand.core/src/main/java/com/io7m/abstand/core/IntervalTree.java:544-552 | takes the new right subtree, publishes Deleted Branch, and restores the node |
| IntervalTrees.IntervalTree.RemoveLeft | com.io7m.abstand.core/src/main/java/com/io7m/abstand/core/IntervalTree.java:555-560 | the LESS_THAN case of removeAt, with the same contract |
| IntervalTrees.IntervalTree.RemoveRight | com.io7m.abstand.core/src/main/java/com/io7m/abstand/core/IntervalTree.java:562-567 | the MORE_THAN case of removeAt, with the same contract |
| IntervalTrees.IntervalTree.SizeTraverse | com.io7m.abstand.core/src/main/java/com/io7m/abstand/core/IntervalTree.java:93-102 | the number of nodes of the subtree |
| IntervalTrees.IntervalTree.FindAt | com.io7m.abstand.core/src/main/java/com/io7m/abstand/core/IntervalTree.java:464-483 | the answer of the descent AvlModel.Find |
| IntervalTrees.IntervalTree.OverlappingAt | com.io7m.abstand.core/src/main/java/com/io7m/abstand/core/IntervalTree.java:133-167 | the pruned traversal AvlModel.OverlappingAt |
| IntervalTrees.IntervalTree.All | com.io7m.abstand.core/src/main/java/com/io7m/abstand/core/IntervalTree.java:115-131 | the subtree's in-order sequence |
| IntervalTrees.IntervalTree.ValidateAt | com.io7m.abstand.core/src/main/java/com/io7m/abstand/core/IntervalTree.java:174-192 | passes exactly when every node passes its checks |
| IntervalTrees.IntervalTree.SetRoot | com.io7m.abstand.core/src/main/java/com/io7m/abstand/core/IntervalTree.java:208 | the root assignment of insert (and of remove, line 448): the tree owns the new subtree and stands for its model |
| IntervalTrees.IntervalTree.ValidateIfEnabled | com.io7m.abstand.core/src/main/java/com/io7m/abstand/core/IntervalTree.java:213-215 | validate when validation is on; it asserts that the check passes on a valid tree |
| IntervalTrees.IntervalTree.constructor | com.io7m.abstand.core/src/main/java/com/io7m/abstand/core/IntervalTree.java:60-66 | an empty tree with no events and validation off |
| IntervalTrees.IntervalTree.Validate | com.io7m.abstand.core/src/main/java/com/io7m/abstand/core/IntervalTree.java:169-172 | never fails on a tree the operations built |
| IntervalTrees.IntervalTree.EnableInternalValidation | com.io7m.abstand.core/src/main/java/com/io7m/abstand/core/IntervalTree.java:571-576 | sets the validation flag |
| IntervalTrees.IntervalTree.Size | com.io7m.abstand.core/src/main/java/com/io7m/abstand/core/IntervalTree.java:81-85 | the number of stored intervals |
| IntervalTrees.IntervalTree.IsEmpty | com.io7m.abstand.core/src/main/java/com/io7m/abstand/core/IntervalTree.java:87-91 | true exactly when nothing is stored |
| IntervalTrees.IntervalTree.Find | com.io7m.abstand.core/src/main/java/com/io7m/abstand/core/IntervalTree.java:456-462 | true exactly when the interval is stored |
| IntervalTrees.IntervalTree.Overlapping | com.io7m.abstand.core/src/main/java/com/io7m/abstand/core/IntervalTree.java:104-113 | AvlModel.Overlapping: only stored overlapping intervals, strictly ascending |
| IntervalTrees.IntervalTree.Iterator | com.io7m.abstand.core/src/main/java/com/io7m/abstand/core/IntervalTree.java:667-672 | every stored interval once, in strictly ascending order |
| IntervalTrees.IntervalTree.ToArray | com.io7m.abstand.core/src/main/java/com/io7m/abstand/core/IntervalTree.java:674-687 | a fresh array holding the stored intervals in ascending order |
| IntervalTrees.IntervalTree.PrepareArray | com.io7m.abstand.core/src/main/java/com/io7m/abstand/core/IntervalTree.java:689-701 | a fresh all-null array when too short; the same array when it fits, with the slot after the last interval set to null when longer |
| IntervalTrees.IntervalTree.ToArrayInto | com.io7m.abstand.core/src/main/java/com/io7m/abstand/core/IntervalTree.java:703-717 | the intervals in order at the front; a fresh array exactly when the given one is too short; a null after them in a longer one; later slots untouched |
| IntervalTrees.IntervalTree.Clear | com.io7m.abstand.core/src/main/java/com/io7m/abstand/core/IntervalTree.java:719-724 | publishes Cleared and empties the tree |
| IntervalTrees.IntervalTree.Insert | com.io7m.abstand.core/src/main/java/com/io7m/abstand/core/IntervalTree.java:201-217 | true exactly when the interval was absent; the set gains exactly it; the events are CreateEvents |
| IntervalTrees.IntervalTree.Remove | com.io7m.abstand.core/src/main/java/com/io7m/abstand/core/IntervalTree.java:437-454 | true exactly when the interval was present; the set loses exactly it; the events are RemoveEvents |
| IntervalTrees.IntervalTree.ContainsAll | com.io7m.abstand.core/src/main/java/com/io7m/abstand/core/IntervalTreeType.java:63-72 | true exactly when every interval of the collection is stored |
| IntervalTrees.IntervalTree.AddAll | com.io7m.abstand.core/src/main/java/com/io7m/abstand/core/IntervalTreeType.java:74-83 | each interval inserted in turn; the set becomes the union; true exactly when the set changed |
| IntervalTrees.IntervalTree.RemoveAll | com.io7m.abstand.core/src/main/java/com/io7m/abstand/core/IntervalTreeType.java:85-94 | each interval removed in turn; the set becomes the difference; true exactly when the set changed |
| IntervalTrees.IntervalTree.RetainStep | com.io7m.abstand.core/src/main/java/com/io7m/abstand/core/IntervalTreeType.java:101-105 | one interval of the snapshot: removed exactly when the collection lacks it |
| IntervalTrees.IntervalTree.RetainAll | com.io7m.abstand.core/src/main/java/com/io7m/abstand/core/IntervalTreeType.java:96-108 | the snapshot's intervals the collection lacks are removed; the set becomes the intersection; true exactly when the set changed |

## Left out

- `IntervalD` (floating-point bounds) and the debug output (`debug`, DOT rendering) are not modelled.
- The tree is modelled for `IntervalB` only. The Java tree is generic in the scalar `S`; the tree code only uses `compare`, `overlaps` and `upperMaximum`, which `IntervalType` and `IntervalB` give.
- The change listener is a ghost log (`Events`) of published changes. Three things are left out:
  - registering a listener (`setChangeListener`);
  - a listener that throws, whose exception `publish` swallows;
  - the listener's identity.
- Event kinds are enumerations rather than the strings "RR", "Leaf" and so on.
- The parent pointers and `setParent` with its checks are not modelled. Nothing in the tree's results depends on them.
- `Objects.requireNonNull` checks and unchecked casts are not modelled. Every argument is a valid interval.
- `checkInvariants`, the rotation postconditions and `validate` become functions returning `bool`. The lemmas prove they never fail, so the exceptions they could throw are not modelled.
- The `DuplicateIntervalException` and `NonexistentIntervalException` control flow is modelled with the `Duplicate`/`Nonexistent` results and `inserted`/`removed` flags.
- Streams are modelled as sequences, fully evaluated. Laziness and single use are not modelled.
- `Size` returns an unbounded count. The Java `int` size is not modelled; it would overflow only past 2^31 - 1 intervals.
- Heights are unbounded too.
- `retainAll` iterates over a `HashSet` copy of the tree. The model iterates in ascending order, because the hash order is unspecified. The resulting set is the same either way. The order of removals and events may differ, and so may the shape of the resulting tree. With the pruning as written, a later `overlapping` answer depends on that shape (see Findings), so it may differ as well.
- `contains(Object)`, `add` and `remove(Object)` in `IntervalTreeType` only delegate, so they are `Find`, `Insert` and `Remove`.
- Java arrays of `T` are `array<Option<IntervalB>>`, with `None` for `null`. An array whose component type rejects intervals (`ArrayStoreException`) is not modelled.
- In `rotateRR` and `rotateLL`, Java performs both `takeOwnership` calls before both `updateHeight` calls. `AdoptLeft` and `AdoptRight` interleave them, one node at a time. The steps touch different nodes and the checks inside `takeOwnership` read no heights, so the resulting tree is the same.
- These helpers only split a Java method into parts:
  - `UnwindLeft`, `UnwindRight` and `UnwindBranch`;
  - `RemoveHere`, `RemoveBranch` and `RemoveSuccessor`;
  - `RotateLeftChildLeft` and `RotateRightChildRight`;
  - `AdoptLeft` and `AdoptRight`;
  - `RetainStep` and `CopyInto`.
- AvlQueries.OverlappingSound: soundness and order only. The source's pruning is not complete, so completeness is not claimed for it; see Findings.
- IntervalTrees.IntervalTree.Overlapping: the same, since it returns `AvlModel.Overlapping`.
- IntervalI.Overlaps and IntervalI.UpperMaximum take `other` as an `IntervalI`. The Java methods accept any `IntervalType<Integer>`, such as an `IntervalG<Integer>`, and read only its `lower()` and `upper()`. A call that mixes interval classes is not modelled.
- IntervalL.Overlaps and IntervalL.UpperMaximum: the same, for `IntervalL` and `IntervalType<Long>`.

## Findings

| source | as written | input that shows it | evidently intended | confidence | as-written member | corrected member |
|---|---|---|---|---|---|---|
| com.io7m.abstand.core/src/main/java/com/io7m/abstand/core/IntervalTree.java:150-163 | a child subtree is visited only when the child's cached `maximum` overlaps the query. That interval keeps the child's own lower bound, and `updateMaximum` drops the left child's contribution when both children exist. | insert [20,30], [5,10], [25,26], [0,2]; `overlapping([0,1])` is empty, although [0,2] is stored and overlaps [0,1]. Also: insert [0,9], [10,19], [20,29], [5,14]; `overlapping([0,9])` is [0,9] alone, although [5,14] is stored and overlaps [0,9]. | descend when the largest upper bound stored in the subtree reaches the query's lower bound; then every stored interval that overlaps the query is returned | medium (not executed) | AvlExamples.PruningMissesStoredInterval | AvlQueries.IntendedOverlappingExact |

The intent rests only on the documentation of `overlapping` in `IntervalTreeType.java` (lines 138-144), which promises "the set of intervals that overlap" the query. The repository's own contract test (`IntervalTreeContract.java`, lines 198-214) builds the tree of the second input and expects `overlapping([0,9])` to be [0,9] alone, which is the answer as written. `AvlExamples.ContractQueriesAsWritten` proves the answers that test expects for [0,9], [10,19] and [20,29]. `AvlExamples.ContractQueriesIntended` proves that the intended query returns [0,9] and [5,14] for [0,9] and the same answers for the other two. On the first tree, the intended query returns [0,2] (`AvlExamples.IntendedPruningFindsIt`). The heap tree and `AvlModel.Overlapping` keep the query as written, so that they describe what the code does.
