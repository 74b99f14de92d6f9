/** One-axis intervals: every value from `start` on, or the values from
    `start` up to but excluding `end`. The validity rule and the disjoint
    interval sets built from these are not part of this model. */
module Intervals {

  datatype Interval<T> =
    | Open(start: T)
    | ClosedExclusive(start: T, end: T)
}
