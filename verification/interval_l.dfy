/** IntervalL: an inclusive interval over 64-bit `long` bounds. */
module IntervalL {
  import opened JavaIntegers
  import opened Wrappers
  import opened IntervalType
  import IntervalB

  datatype Record = Record(lowerL: int64, upperL: int64)

  /** The record's constructor refuses `upperL < lowerL`, so no other value exists. */
  type IntervalL = r: Record | r.lowerL <= r.upperL witness Record(0, 0)

  /** The same interval over unbounded integers. */
  function Widen(x: IntervalL): IntervalB.IntervalB
  {
    Interval(x.lowerL as int, x.upperL as int)
  }

  /** `lower()`: the boxed lower bound. */
  function Lower(x: IntervalL): (r: int64)
    ensures r as int == Widen(x).lower
  {
    x.lowerL
  }

  /** `upper()`: the boxed upper bound. */
  function Upper(x: IntervalL): (r: int64)
    ensures r as int == Widen(x).upper
  {
    x.upperL
  }

  /** The canonical constructor: fails exactly when upperL < lowerL. */
  function New(lowerL: int64, upperL: int64): (r: Option<IntervalL>)
    ensures r.None? <==> upperL < lowerL
    ensures r.Some? ==> Lower(r.value) == lowerL && Upper(r.value) == upperL
  {
    if upperL < lowerL then None else Some(Record(lowerL, upperL))
  }

  /** `of`: the same as the constructor. */
  function Of(lower: int64, upper: int64): (r: Option<IntervalL>)
    ensures r.None? <==> upper < lower
    ensures r.Some? ==> Lower(r.value) == lower && Upper(r.value) == upper
  {
    New(lower, upper)
  }

  /** `overlaps`: the same test as over unbounded integers, so a shared point exists. */
  function Overlaps(x: IntervalL, other: IntervalL): (b: bool)
    ensures b == IntervalB.Overlaps(Widen(x), Widen(other))
    ensures b <==> exists p :: IntervalB.Contains(Widen(x), p) && IntervalB.Contains(Widen(other), p)
  {
    x.lowerL <= Upper(other) && Lower(other) <= x.upperL
  }

  /** `Long.max`. */
  function Max(a: int64, b: int64): (r: int64)
    ensures r >= a && r >= b && (r == a || r == b)
  {
    if a >= b then a else b
  }

  /**
   * `upperMaximum`: keeps lowerL and takes the larger upper bound. It never
   * leaves the 64-bit range and agrees with the unbounded computation.
   */
  function UpperMaximum(x: IntervalL, other: IntervalL): (r: IntervalL)
    ensures r.lowerL == x.lowerL
    ensures Widen(r) == IntervalB.UpperMaximum(Widen(x), Widen(other))
  {
    Record(x.lowerL, Max(x.upperL, Upper(other)))
  }

  /** Building an interval from its own accessors gives the same interval back. */
  lemma RecordRoundTrip(x: IntervalL)
    ensures New(Lower(x), Upper(x)) == Some(x)
  {
  }
}
