/** The integer order and stepping functions the repository's tests use,
    and what the range operations become over them. */
module Numbers {
  import opened Order
  import opened Ranges
  import Intervals

  function SuccessorNumber(num: int): int {
    num + 1
  }

  function PredecessorNumber(num: int): int {
    num - 1
  }

  /** 1, -1 or 0 as `a` is greater than, less than or equal to `b`. */
  function OrderNumber(a: int, b: int): (r: int)
    ensures r == 1 <==> a > b
    ensures r == -1 <==> a < b
    ensures r == 0 <==> a == b
  {
    if a > b then 1
    else if a < b then -1
    else 0
  }

  lemma OrderNumberAntisymmetric(a: int, b: int)
    ensures OrderNumber(a, b) == -OrderNumber(b, a)
  {
  }

  lemma NumberStepsAreInverse(n: int)
    ensures PredecessorNumber(SuccessorNumber(n)) == n
    ensures SuccessorNumber(PredecessorNumber(n)) == n
  {
  }

  /** The integer instance meets the contract every operation assumes. */
  lemma NumbersAreOrdered()
    ensures TotalOrder(OrderNumber)
    ensures IsSuccessor(OrderNumber, SuccessorNumber)
    ensures IsPredecessor(OrderNumber, PredecessorNumber)
  {
  }

  /** Over the integers a range is valid when `start < end` (exclusive) or
      `start <= end` (inclusive); `[5, 5)` is invalid and `[5, 5]` valid. */
  lemma NumberRangeValidity(range: Range<int>)
    ensures IsValidRange(OrderNumber, range) <==>
      match range
      case Open(_) => true
      case ClosedInclusive(start, end) => start <= end
      case ClosedExclusive(start, end) => start < end
    ensures !IsValidRange(OrderNumber, ClosedExclusive(5, 5))
    ensures IsValidRange(OrderNumber, ClosedInclusive(5, 5))
  {
  }

  /** Membership over the integers: `start <= value`, and `value <= end`
      or `value < end` for the closed kinds. */
  lemma NumberRangeIncludesValue(range: Range<int>, value: int)
    ensures RangeIncludesValue(OrderNumber, range, value) <==>
      match range
      case Open(start) => start <= value
      case ClosedInclusive(start, end) => start <= value <= end
      case ClosedExclusive(start, end) => start <= value < end
  {
  }

  /** Over the integers, either conversion keeps validity and the values
      the range includes. */
  lemma NumberCanonicalisationPreservesValues(isInclusiveSmaller: (int, int) -> bool, range: Range<int>)
    requires !range.Open?
    ensures var r := if range.ClosedInclusive?
                     then GetSmallerFromInclusiveRange(SuccessorNumber, isInclusiveSmaller, range)
                     else GetSmallerFromExclusiveRange(PredecessorNumber, isInclusiveSmaller, range);
      && IsValidRange(OrderNumber, r) == IsValidRange(OrderNumber, range)
      && forall v :: RangeIncludesValue(OrderNumber, r, v) == RangeIncludesValue(OrderNumber, range, v)
  {
    NumbersAreOrdered();
    if range.ClosedInclusive? {
      InclusiveCanonicalisationPreservesValues(OrderNumber, SuccessorNumber, isInclusiveSmaller, range);
    } else {
      ExclusiveCanonicalisationPreservesValues(OrderNumber, PredecessorNumber, isInclusiveSmaller, range);
    }
  }

  /** Over the integers, the range of an interval includes the same values. */
  lemma NumberRangeFromIntervalPreservesValues(isInclusiveSmaller: (int, int) -> bool, interval: Intervals.Interval<int>)
    ensures var r := RangeFromInterval(PredecessorNumber, isInclusiveSmaller, interval);
      && IsValidRange(OrderNumber, r) == IsValidRange(OrderNumber, AsRange(interval))
      && forall v :: RangeIncludesValue(OrderNumber, r, v) == RangeIncludesValue(OrderNumber, AsRange(interval), v)
  {
    NumbersAreOrdered();
    RangeFromIntervalPreservesValues(OrderNumber, PredecessorNumber, isInclusiveSmaller, interval);
  }

  /** Over the integers, `[s, e]` turned into `[s, e + 1)` is kept by the
      conversion back, and `[s, e)` turned into `[s, e - 1]` likewise. */
  lemma NumberCanonicalIsFixedPoint(isInclusiveSmaller: (int, int) -> bool, s: int, e: int)
    ensures var r := GetSmallerFromInclusiveRange(SuccessorNumber, isInclusiveSmaller, ClosedInclusive(s, e));
      r.ClosedExclusive? ==>
        && r == ClosedExclusive(s, e + 1)
        && GetSmallerFromExclusiveRange(PredecessorNumber, isInclusiveSmaller, r) == r
    ensures var r := GetSmallerFromExclusiveRange(PredecessorNumber, isInclusiveSmaller, ClosedExclusive(s, e));
      r.ClosedInclusive? ==>
        && r == ClosedInclusive(s, e - 1)
        && GetSmallerFromInclusiveRange(SuccessorNumber, isInclusiveSmaller, r) == r
  {
    NumbersAreOrdered();
    InclusiveCanonicalIsFixedPoint(OrderNumber, SuccessorNumber, PredecessorNumber, isInclusiveSmaller, ClosedInclusive(s, e));
    ExclusiveCanonicalIsFixedPoint(OrderNumber, SuccessorNumber, PredecessorNumber, isInclusiveSmaller, ClosedExclusive(s, e));
  }
}
