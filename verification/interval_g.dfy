/**
 * IntervalG: an inclusive interval over any scalar type with a natural order.
 * Java's `compareTo` is passed as `cmp`; its contract is `IsTotalOrder`.
 */
module IntervalG {
  import opened Wrappers

  datatype IntervalG<G> = IntervalG(lower: G, upper: G)

  /** The Comparable contract, with an order consistent with equality. */
  ghost predicate IsTotalOrder<G(!new)>(cmp: (G, G) -> int)
  {
    && (forall a, b :: cmp(a, b) == 0 <==> a == b)
    && (forall a, b :: cmp(a, b) < 0 <==> cmp(b, a) > 0)
    && (forall a, b, c :: cmp(a, b) < 0 && cmp(b, c) < 0 ==> cmp(a, c) < 0)
  }

  /** What the constructor guarantees of every value it builds. */
  predicate Valid<G>(x: IntervalG<G>, cmp: (G, G) -> int)
  {
    cmp(x.upper, x.lower) >= 0
  }

  /** `p` lies within the closed interval `x`. */
  predicate Contains<G>(x: IntervalG<G>, p: G, cmp: (G, G) -> int)
  {
    cmp(x.lower, p) <= 0 && cmp(p, x.upper) <= 0
  }

  /** The canonical constructor: fails exactly when `upper.compareTo(lower) < 0`. */
  function New<G>(lower: G, upper: G, cmp: (G, G) -> int): (r: Option<IntervalG<G>>)
    ensures r.None? <==> cmp(upper, lower) < 0
    ensures r.Some? ==> r.value.lower == lower && r.value.upper == upper && Valid(r.value, cmp)
  {
    if cmp(upper, lower) < 0 then None else Some(IntervalG(lower, upper))
  }

  /** `of`: the same as the constructor. */
  function Of<G>(lower: G, upper: G, cmp: (G, G) -> int): (r: Option<IntervalG<G>>)
    ensures r.None? <==> cmp(upper, lower) < 0
    ensures r.Some? ==> r.value.lower == lower && r.value.upper == upper && Valid(r.value, cmp)
  {
    New(lower, upper, cmp)
  }

  /** `overlaps`: each lower bound is at most the other interval's upper bound. */
  function Overlaps<G>(x: IntervalG<G>, other: IntervalG<G>, cmp: (G, G) -> int): bool
  {
    cmp(x.lower, other.upper) <= 0 && cmp(other.lower, x.upper) <= 0
  }

  /** For valid intervals, `overlaps` holds exactly when the two share a point. */
  lemma OverlapsIffCommonPoint<G(!new)>(x: IntervalG<G>, other: IntervalG<G>, cmp: (G, G) -> int)
    requires IsTotalOrder(cmp) && Valid(x, cmp) && Valid(other, cmp)
    ensures Overlaps(x, other, cmp) <==> exists p :: Contains(x, p, cmp) && Contains(other, p, cmp)
  {
    if Overlaps(x, other, cmp) {
      var p := Max(x.lower, other.lower, cmp);
      assert Contains(x, p, cmp) && Contains(other, p, cmp);
    }
  }

  /** The private `max`: the first argument when it is not smaller. */
  function Max<G(!new)>(x: G, y: G, cmp: (G, G) -> int): (r: G)
    ensures r == x || r == y
    ensures IsTotalOrder(cmp) ==> cmp(r, x) >= 0 && cmp(r, y) >= 0
  {
    if cmp(x, y) >= 0 then x else y
  }

  /** `upperMaximum`: keeps this lower bound and takes the larger upper bound; stays valid. */
  function UpperMaximum<G(!new)>(x: IntervalG<G>, other: IntervalG<G>, cmp: (G, G) -> int): (r: IntervalG<G>)
    ensures r.lower == x.lower
    ensures r.upper == x.upper || r.upper == other.upper
    ensures IsTotalOrder(cmp) ==> cmp(r.upper, x.upper) >= 0 && cmp(r.upper, other.upper) >= 0
    ensures IsTotalOrder(cmp) && Valid(x, cmp) ==> Valid(r, cmp)
  {
    IntervalG(x.lower, Max(x.upper, other.upper, cmp))
  }

  lemma OverlapsSymmetric<G>(x: IntervalG<G>, y: IntervalG<G>, cmp: (G, G) -> int)
    ensures Overlaps(x, y, cmp) == Overlaps(y, x, cmp)
  {
  }

  lemma OverlapsSelf<G(!new)>(x: IntervalG<G>, cmp: (G, G) -> int)
    requires IsTotalOrder(cmp) && Valid(x, cmp)
    ensures Overlaps(x, x, cmp)
  {
  }

  lemma UpperMaximumSelf<G(!new)>(x: IntervalG<G>, cmp: (G, G) -> int)
    requires IsTotalOrder(cmp)
    ensures UpperMaximum(x, x, cmp) == x
  {
  }
}
