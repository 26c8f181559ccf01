/** IntervalI: an inclusive interval over 32-bit `int` bounds. */
module IntervalI {
  import opened JavaIntegers
  import opened Wrappers
  import opened IntervalType
  import IntervalB

  datatype Record = Record(lowerI: int32, upperI: int32)

  /** The record's constructor refuses `upperI < lowerI`, so no other value exists. */
  type IntervalI = r: Record | r.lowerI <= r.upperI witness Record(0, 0)

  /** The same interval over unbounded integers. */
  function Widen(x: IntervalI): IntervalB.IntervalB
  {
    Interval(x.lowerI as int, x.upperI as int)
  }

  /** `lower()`: the boxed lower bound. */
  function Lower(x: IntervalI): (r: int32)
    ensures r as int == Widen(x).lower
  {
    x.lowerI
  }

  /** `upper()`: the boxed upper bound. */
  function Upper(x: IntervalI): (r: int32)
    ensures r as int == Widen(x).upper
  {
    x.upperI
  }

  /** The canonical constructor: fails exactly when upperI < lowerI. */
  function New(lowerI: int32, upperI: int32): (r: Option<IntervalI>)
    ensures r.None? <==> upperI < lowerI
    ensures r.Some? ==> Lower(r.value) == lowerI && Upper(r.value) == upperI
  {
    if upperI < lowerI then None else Some(Record(lowerI, upperI))
  }

  /** `of`: the same as the constructor. */
  function Of(lower: int32, upper: int32): (r: Option<IntervalI>)
    ensures r.None? <==> upper < lower
    ensures r.Some? ==> Lower(r.value) == lower && Upper(r.value) == upper
  {
    New(lower, upper)
  }

  /** `overlaps`: the same test as over unbounded integers, so a shared point exists. */
  function Overlaps(x: IntervalI, other: IntervalI): (b: bool)
    ensures b == IntervalB.Overlaps(Widen(x), Widen(other))
    ensures b <==> exists p :: IntervalB.Contains(Widen(x), p) && IntervalB.Contains(Widen(other), p)
  {
    x.lowerI <= Upper(other) && Lower(other) <= x.upperI
  }

  /** `Integer.max`. */
  function Max(a: int32, b: int32): (r: int32)
    ensures r >= a && r >= b && (r == a || r == b)
  {
    if a >= b then a else b
  }

  /**
   * `upperMaximum`: keeps lowerI and takes the larger upper bound. It never
   * leaves the 32-bit range and agrees with the unbounded computation.
   */
  function UpperMaximum(x: IntervalI, other: IntervalI): (r: IntervalI)
    ensures r.lowerI == x.lowerI
    ensures Widen(r) == IntervalB.UpperMaximum(Widen(x), Widen(other))
  {
    Record(x.lowerI, Max(x.upperI, Upper(other)))
  }

  /** Building an interval from its own accessors gives the same interval back. */
  lemma RecordRoundTrip(x: IntervalI)
    ensures New(Lower(x), Upper(x)) == Some(x)
  {
  }
}
