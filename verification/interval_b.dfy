/**
 * IntervalB: an inclusive interval over unbounded (BigInteger) integers. This
 * is the element type of the interval tree in this model.
 */
module IntervalB {
  import opened IntervalType
  import opened Wrappers
  import opened JavaIntegers

  /** The record's constructor refuses `upper < lower`, so no other value exists. */
  type IntervalB = i: Interval | i.lower <= i.upper witness Interval(0, 0)

  /** The scalar `p` lies within the closed interval `i`. */
  predicate Contains(i: Interval, p: int)
  {
    i.lower <= p <= i.upper
  }

  /** The canonical constructor: fails (IllegalArgumentException) exactly when upper < lower. */
  function New(lower: int, upper: int): (r: Option<IntervalB>)
    ensures r.None? <==> upper < lower
    ensures r.Some? ==> r.value.lower == lower && r.value.upper == upper
  {
    if upper < lower then None else Some(Interval(lower, upper))
  }

  /** `of(long, long)`: both bounds are widened exactly before construction. */
  function Of(lower: int64, upper: int64): (r: Option<IntervalB>)
    ensures r.None? <==> upper < lower
    ensures r.Some? ==> r.value.lower == lower as int && r.value.upper == upper as int
  {
    New(lower as int, upper as int)
  }

  /** `overlaps`: the two closed intervals share at least one point. */
  function Overlaps(x: IntervalB, other: IntervalB): (b: bool)
    ensures b <==> exists p :: Contains(x, p) && Contains(other, p)
  {
    var b := x.lower <= other.upper && other.lower <= x.upper;
    if b then
      var p := if x.lower <= other.lower then other.lower else x.lower;
      assert Contains(x, p) && Contains(other, p);
      b
    else
      b
  }

  /** `upperMaximum`: keeps this lower bound, takes the larger of the two upper bounds. */
  function UpperMaximum(x: IntervalB, other: IntervalB): (r: IntervalB)
    ensures r.lower == x.lower
    ensures r.upper >= x.upper && r.upper >= other.upper
    ensures r.upper == x.upper || r.upper == other.upper
  {
    Interval(x.lower, if x.upper >= other.upper then x.upper else other.upper)
  }

  lemma OverlapsSymmetric(x: IntervalB, y: IntervalB)
    ensures Overlaps(x, y) == Overlaps(y, x)
  {
  }

  lemma OverlapsSelf(x: IntervalB)
    ensures Overlaps(x, x)
  {
  }

  lemma UpperMaximumSelf(x: IntervalB)
    ensures UpperMaximum(x, x) == x
  {
  }

  /** Widening again by the same interval changes nothing. */
  lemma UpperMaximumAbsorbs(x: IntervalB, y: IntervalB)
    ensures UpperMaximum(UpperMaximum(x, y), y) == UpperMaximum(x, y)
  {
  }
}
