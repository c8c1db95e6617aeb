/**
 * The range of indexes that a compact form gives for one dimension: either one
 * value (`x[2]`) or an inclusive interval (`x[1..3]`).
 */
module Ranges {

  datatype IntegerEntity = Singleton(value: int) | Interval(inf: int, sup: int) {

    /** First index visited in this dimension. */
    function Smallest(): int {
      if Singleton? then value else inf
    }

    /**
     * Number of indexes visited in this dimension. An interval whose upper bound
     * lies below its lower bound still yields its lower bound once, because the
     * enumeration visits a vector before it tries to step.
     */
    function Width(): (w: int)
      ensures w >= 1
      ensures Interval? && inf <= sup ==> Smallest() + w - 1 == sup
    {
      if Interval? && inf <= sup then sup - inf + 1 else 1
    }

    /** The index k belongs to the range. */
    predicate Contains(k: int) {
      Smallest() <= k < Smallest() + Width()
    }

    /** Every index of the range lies in [0, extent). */
    predicate Within(extent: int) {
      0 <= Smallest() && Smallest() + Width() <= extent
    }
  }
}
