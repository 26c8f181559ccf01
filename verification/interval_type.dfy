/**
 * The interval interface: a pair of accessors `lower()`/`upper()` and the
 * three-way comparison every interval inherits. Scalars are integers here,
 * the instance used by the integer interval records and by the tree.
 */
module IntervalType {

  /** The result of `compare`: the enum IntervalComparison. */
  datatype Comparison = LessThan | Equal | MoreThan

  /** Any interval seen through its two accessors. */
  datatype Interval = Interval(lower: int, upper: int)

  /** The lexicographic strict order on (lower, upper): the reference for `Compare`. */
  predicate LexLess(a: Interval, b: Interval)
  {
    a.lower < b.lower || (a.lower == b.lower && a.upper < b.upper)
  }

  /**
   * `compare`: decides by the lower bounds, and only when they are equal by
   * the upper bounds. It agrees with the lexicographic order, and reports
   * EQUAL exactly for equal intervals.
   */
  function Compare(x: Interval, other: Interval): (c: Comparison)
    ensures c == LessThan <==> LexLess(x, other)
    ensures c == MoreThan <==> LexLess(other, x)
    ensures c == Equal <==> x == other
  {
    if x.lower < other.lower then LessThan
    else if x.lower == other.lower then
      if x.upper < other.upper then LessThan
      else if x.upper == other.upper then Equal
      else MoreThan
    else MoreThan
  }

  /** `compareTo`: the Comparable view of `compare`. */
  function CompareTo(x: Interval, other: Interval): (r: int)
    ensures -1 <= r <= 1
    ensures r < 0 <==> LexLess(x, other)
    ensures r == 0 <==> x == other
    ensures r > 0 <==> LexLess(other, x)
  {
    match Compare(x, other)
    case LessThan => -1
    case Equal => 0
    case MoreThan => 1
  }

  /** When the lower bounds differ they alone decide. */
  lemma CompareByLower(x: Interval, y: Interval)
    requires x.lower != y.lower
    ensures Compare(x, y) == (if x.lower < y.lower then LessThan else MoreThan)
  {
  }

  /** When the lower bounds agree the upper bounds decide. */
  lemma CompareByUpper(x: Interval, y: Interval)
    requires x.lower == y.lower
    ensures Compare(x, y) == (if x.upper < y.upper then LessThan else if x.upper == y.upper then Equal else MoreThan)
  {
  }

  lemma CompareReflexive(x: Interval)
    ensures Compare(x, x) == Equal
  {
  }

  lemma CompareAntisymmetric(x: Interval, y: Interval)
    ensures Compare(x, y) == LessThan <==> Compare(y, x) == MoreThan
    ensures Compare(x, y) == Equal <==> Compare(y, x) == Equal
  {
  }

  lemma CompareTransitive(x: Interval, y: Interval, z: Interval)
    ensures Compare(x, y) == LessThan && Compare(y, z) == LessThan ==> Compare(x, z) == LessThan
    ensures Compare(x, y) == MoreThan && Compare(y, z) == MoreThan ==> Compare(x, z) == MoreThan
  {
  }

  /** Exactly one of the three outcomes holds for any pair. */
  lemma CompareTotal(x: Interval, y: Interval)
    ensures LexLess(x, y) || x == y || LexLess(y, x)
    ensures !(LexLess(x, y) && LexLess(y, x))
  {
  }
}
