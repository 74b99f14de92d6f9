/** Ranges over one axis and over the three axes of the keyspace: their
    validity, the choice between the inclusive and the exclusive encoding
    of the same values, and membership. Every operation takes the order,
    the stepping functions and the encoded-size oracle `isInclusiveSmaller`
    as parameters. */
module Ranges {
  import opened Order
  import Intervals

  datatype Range<T> =
    | Open(start: T)
    | ClosedInclusive(start: T, end: T)
    | ClosedExclusive(start: T, end: T)

  /** A path is a byte string, a timestamp an unbounded integer. */
  newtype Byte = x: int | 0 <= x < 256
  type Path = seq<Byte>
  type Timestamp = int

  /** A range on each of the three axes: subspace, path and timestamp. */
  datatype ThreeDimensionalRange<S> =
    ThreeDimensionalRange(subspace: Range<S>, path: Range<Path>, time: Range<Timestamp>)

  /** Every interval is a range with the same kind, start and end. */
  function AsRange<T>(interval: Intervals.Interval<T>): (r: Range<T>)
    ensures r.start == interval.start
    ensures r.Open? <==> interval.Open?
    ensures interval.ClosedExclusive? ==> r.ClosedExclusive? && r.end == interval.end
  {
    match interval
    case Open(start) => Open(start)
    case ClosedExclusive(start, end) => ClosedExclusive(start, end)
  }

  predicate IsValidRange<T>(order: (T, T) -> int, range: Range<T>) {
    match range
    case ClosedExclusive(start, end) => !(order(start, end) > -1)
    case ClosedInclusive(start, end) => order(start, end) != 1
    case Open(_) => true
  }

  /** Valid iff the range is valid on each axis under that axis's order. */
  function IsValid3dRange<S>(
    orderSubspace: (S, S) -> int,
    orderPaths: (Path, Path) -> int,
    orderTimestamps: (Timestamp, Timestamp) -> int,
    range: ThreeDimensionalRange<S>
  ): (valid: bool)
    ensures valid <==>
      && IsValidRange(orderSubspace, range.subspace)
      && IsValidRange(orderPaths, range.path)
      && IsValidRange(orderTimestamps, range.time)
  {
    if !IsValidRange(orderSubspace, range.subspace) then false
    else if !IsValidRange(orderPaths, range.path) then false
    else if !IsValidRange(orderTimestamps, range.time) then false
    else true
  }

  /** Turns an inclusive range into the exclusive one ending at the
      successor of its end, unless the oracle says the inclusive encoding
      is smaller. */
  function GetSmallerFromInclusiveRange<T>(
    successor: T -> T,
    isInclusiveSmaller: (T, T) -> bool,
    inclusiveRange: Range<T>
  ): (r: Range<T>)
    requires inclusiveRange.ClosedInclusive?
    ensures !r.Open? && r.start == inclusiveRange.start
    ensures r.ClosedInclusive? <==> isInclusiveSmaller(inclusiveRange.end, successor(inclusiveRange.end))
    ensures r.ClosedInclusive? ==> r == inclusiveRange
    ensures r.ClosedExclusive? ==> r.end == successor(inclusiveRange.end)
  {
    var exclusiveEnd := successor(inclusiveRange.end);
    if isInclusiveSmaller(inclusiveRange.end, exclusiveEnd) then inclusiveRange
    else ClosedExclusive(inclusiveRange.start, exclusiveEnd)
  }

  /** Turns an exclusive range into the inclusive one ending at the
      predecessor of its end when the oracle says that encoding is
      smaller. */
  function GetSmallerFromExclusiveRange<T>(
    predecessor: T -> T,
    isInclusiveSmaller: (T, T) -> bool,
    exclusiveRange: Range<T>
  ): (r: Range<T>)
    requires exclusiveRange.ClosedExclusive?
    ensures !r.Open? && r.start == exclusiveRange.start
    ensures r.ClosedInclusive? <==> isInclusiveSmaller(predecessor(exclusiveRange.end), exclusiveRange.end)
    ensures r.ClosedInclusive? ==> r.end == predecessor(exclusiveRange.end)
    ensures r.ClosedExclusive? ==> r == exclusiveRange
  {
    var inclusiveEnd := predecessor(exclusiveRange.end);
    if isInclusiveSmaller(inclusiveEnd, exclusiveRange.end) then
      ClosedInclusive(exclusiveRange.start, inclusiveEnd)
    else exclusiveRange
  }

  /** The range of an interval: open intervals unchanged, closed ones in
      the smaller of their two encodings. */
  function RangeFromInterval<T>(
    predecessor: T -> T,
    isInclusiveSmaller: (T, T) -> bool,
    interval: Intervals.Interval<T>
  ): (r: Range<T>)
    ensures interval.Open? ==> r == Open(interval.start)
    ensures interval.ClosedExclusive? ==>
      r == GetSmallerFromExclusiveRange(predecessor, isInclusiveSmaller, AsRange(interval))
  {
    if interval.Open? then AsRange(interval)
    else
      var inclusiveEnd := predecessor(interval.end);
      if isInclusiveSmaller(inclusiveEnd, interval.end) then
        ClosedInclusive(interval.start, inclusiveEnd)
      else AsRange(interval)
  }

  predicate RangeIncludesValue<T>(order: (T, T) -> int, range: Range<T>, value: T) {
    match range
    case Open(start) => order(value, start) >= 0
    case ClosedInclusive(start, end) => order(value, start) >= 0 && order(value, end) <= 0
    case ClosedExclusive(start, end) => order(value, start) >= 0 && order(value, end) == -1
  }

  // Validity

  /** Under a total order, validity is decided by the comparison of start
      and end alone: strictly below for an exclusive range, at most for an
      inclusive one, and an open range is always valid. */
  lemma ValidRangeCases<T(!new)>(order: (T, T) -> int, range: Range<T>)
    requires TotalOrder(order)
    ensures range.Open? ==> IsValidRange(order, range)
    ensures range.ClosedInclusive? ==> (IsValidRange(order, range) <==> order(range.start, range.end) <= 0)
    ensures range.ClosedExclusive? ==> (IsValidRange(order, range) <==> order(range.start, range.end) == -1)
  {
  }

  /** `[x, x)` is invalid and `[x, x]` is valid under every total order. */
  lemma SingletonRanges<T(!new)>(order: (T, T) -> int, x: T)
    requires TotalOrder(order)
    ensures !IsValidRange(order, ClosedExclusive(x, x))
    ensures IsValidRange(order, ClosedInclusive(x, x))
  {
    assert order(x, x) == 0;
  }

  /** A range is valid exactly when it includes its own start. */
  lemma ValidIffIncludesStart<T(!new)>(order: (T, T) -> int, range: Range<T>)
    requires TotalOrder(order)
    ensures IsValidRange(order, range) <==> RangeIncludesValue(order, range, range.start)
  {
    assert order(range.start, range.start) == 0;
  }

  /** A range is valid exactly when it includes some value. */
  lemma ValidIffNonEmpty<T(!new)>(order: (T, T) -> int, range: Range<T>)
    requires TotalOrder(order)
    ensures IsValidRange(order, range) <==> exists v :: RangeIncludesValue(order, range, v)
  {
    ValidIffIncludesStart(order, range);
    if v :| RangeIncludesValue(order, range, v) {
      match range
      case Open(_) =>
      case ClosedInclusive(start, end) =>
        assert order(start, v) <= 0 && order(v, end) <= 0;
        LeLeTrans(order, start, v, end);
      case ClosedExclusive(start, end) =>
        assert order(start, v) <= 0 && order(v, end) < 0;
        LeLtTrans(order, start, v, end);
    }
  }

  /** A three-dimensional range is valid exactly when some point lies in
      it on all three axes. */
  lemma Valid3dIffNonEmpty<S(!new)>(
    orderSubspace: (S, S) -> int,
    orderPaths: (Path, Path) -> int,
    orderTimestamps: (Timestamp, Timestamp) -> int,
    range: ThreeDimensionalRange<S>
  )
    requires TotalOrder(orderSubspace) && TotalOrder(orderPaths) && TotalOrder(orderTimestamps)
    ensures IsValid3dRange(orderSubspace, orderPaths, orderTimestamps, range) <==>
      exists s, p, t ::
        && RangeIncludesValue(orderSubspace, range.subspace, s)
        && RangeIncludesValue(orderPaths, range.path, p)
        && RangeIncludesValue(orderTimestamps, range.time, t)
  {
    ValidIffNonEmpty(orderSubspace, range.subspace);
    ValidIffNonEmpty(orderPaths, range.path);
    ValidIffNonEmpty(orderTimestamps, range.time);
    ValidIffIncludesStart(orderSubspace, range.subspace);
    ValidIffIncludesStart(orderPaths, range.path);
    ValidIffIncludesStart(orderTimestamps, range.time);
    if IsValid3dRange(orderSubspace, orderPaths, orderTimestamps, range) {
      assert && RangeIncludesValue(orderSubspace, range.subspace, range.subspace.start)
             && RangeIncludesValue(orderPaths, range.path, range.path.start)
             && RangeIncludesValue(orderTimestamps, range.time, range.time.start);
    }
  }

  // Canonicalisation

  /** The inclusive and the exclusive encoding chosen from an inclusive
      range denote the same values, and so have the same validity. */
  lemma InclusiveCanonicalisationPreservesValues<T(!new)>(
    order: (T, T) -> int,
    successor: T -> T,
    isInclusiveSmaller: (T, T) -> bool,
    range: Range<T>
  )
    requires TotalOrder(order) && IsSuccessor(order, successor)
    requires range.ClosedInclusive?
    ensures forall v ::
      RangeIncludesValue(order, GetSmallerFromInclusiveRange(successor, isInclusiveSmaller, range), v)
      == RangeIncludesValue(order, range, v)
    ensures IsValidRange(order, GetSmallerFromInclusiveRange(successor, isInclusiveSmaller, range))
      == IsValidRange(order, range)
  {
    var r := GetSmallerFromInclusiveRange(successor, isInclusiveSmaller, range);
    if r.ClosedExclusive? {
      forall v ensures RangeIncludesValue(order, r, v) == RangeIncludesValue(order, range, v) {
        assert order(v, successor(range.end)) < 0 <==> order(v, range.end) <= 0;
      }
      assert order(range.start, successor(range.end)) < 0 <==> order(range.start, range.end) <= 0;
    }
  }

  /** The encoding chosen from an exclusive range denotes the same values,
      and so has the same validity. */
  lemma ExclusiveCanonicalisationPreservesValues<T(!new)>(
    order: (T, T) -> int,
    predecessor: T -> T,
    isInclusiveSmaller: (T, T) -> bool,
    range: Range<T>
  )
    requires TotalOrder(order) && IsPredecessor(order, predecessor)
    requires range.ClosedExclusive?
    ensures forall v ::
      RangeIncludesValue(order, GetSmallerFromExclusiveRange(predecessor, isInclusiveSmaller, range), v)
      == RangeIncludesValue(order, range, v)
    ensures IsValidRange(order, GetSmallerFromExclusiveRange(predecessor, isInclusiveSmaller, range))
      == IsValidRange(order, range)
  {
    var r := GetSmallerFromExclusiveRange(predecessor, isInclusiveSmaller, range);
    if r.ClosedInclusive? {
      forall v ensures RangeIncludesValue(order, r, v) == RangeIncludesValue(order, range, v) {
        assert order(v, predecessor(range.end)) <= 0 <==> order(v, range.end) < 0;
      }
      assert order(range.start, predecessor(range.end)) <= 0 <==> order(range.start, range.end) < 0;
    }
  }

  /** The range made from an interval denotes the same values as the
      interval and is valid exactly when the interval is. */
  lemma RangeFromIntervalPreservesValues<T(!new)>(
    order: (T, T) -> int,
    predecessor: T -> T,
    isInclusiveSmaller: (T, T) -> bool,
    interval: Intervals.Interval<T>
  )
    requires TotalOrder(order) && IsPredecessor(order, predecessor)
    ensures forall v ::
      RangeIncludesValue(order, RangeFromInterval(predecessor, isInclusiveSmaller, interval), v)
      == RangeIncludesValue(order, AsRange(interval), v)
    ensures IsValidRange(order, RangeFromInterval(predecessor, isInclusiveSmaller, interval))
      == IsValidRange(order, AsRange(interval))
  {
    if interval.ClosedExclusive? {
      ExclusiveCanonicalisationPreservesValues(order, predecessor, isInclusiveSmaller, AsRange(interval));
    }
  }

  /** An exclusive range chosen from an inclusive one is kept as it is by
      the opposite conversion, with the same oracle; an inclusive one chosen
      is the input itself, which the same conversion keeps again. */
  lemma InclusiveCanonicalIsFixedPoint<T(!new)>(
    order: (T, T) -> int,
    successor: T -> T,
    predecessor: T -> T,
    isInclusiveSmaller: (T, T) -> bool,
    range: Range<T>
  )
    requires TotalOrder(order) && IsSuccessor(order, successor) && IsPredecessor(order, predecessor)
    requires range.ClosedInclusive?
    ensures var r := GetSmallerFromInclusiveRange(successor, isInclusiveSmaller, range);
      && (r.ClosedExclusive? ==> GetSmallerFromExclusiveRange(predecessor, isInclusiveSmaller, r) == r)
      && (r.ClosedInclusive? ==> GetSmallerFromInclusiveRange(successor, isInclusiveSmaller, r) == r)
  {
    StepsAreInverse(order, successor, predecessor, range.end);
  }

  /** An inclusive range chosen from an exclusive one is kept as it is by
      the opposite conversion, with the same oracle; an exclusive one chosen
      is the input itself, which the same conversion keeps again. */
  lemma ExclusiveCanonicalIsFixedPoint<T(!new)>(
    order: (T, T) -> int,
    successor: T -> T,
    predecessor: T -> T,
    isInclusiveSmaller: (T, T) -> bool,
    range: Range<T>
  )
    requires TotalOrder(order) && IsSuccessor(order, successor) && IsPredecessor(order, predecessor)
    requires range.ClosedExclusive?
    ensures var r := GetSmallerFromExclusiveRange(predecessor, isInclusiveSmaller, range);
      && (r.ClosedInclusive? ==> GetSmallerFromInclusiveRange(successor, isInclusiveSmaller, r) == r)
      && (r.ClosedExclusive? ==> GetSmallerFromExclusiveRange(predecessor, isInclusiveSmaller, r) == r)
  {
    StepsAreInverse(order, successor, predecessor, range.end);
  }

  /** The two encodings of the same values, `[s, e]` and `[s, successor(e))`,
      are turned into the same range by their conversions, so the choice
      does not depend on the encoding it starts from. */
  lemma EncodingsCanonicaliseAlike<T(!new)>(
    order: (T, T) -> int,
    successor: T -> T,
    predecessor: T -> T,
    isInclusiveSmaller: (T, T) -> bool,
    s: T,
    e: T
  )
    requires TotalOrder(order) && IsSuccessor(order, successor) && IsPredecessor(order, predecessor)
    ensures GetSmallerFromInclusiveRange(successor, isInclusiveSmaller, ClosedInclusive(s, e))
         == GetSmallerFromExclusiveRange(predecessor, isInclusiveSmaller, ClosedExclusive(s, successor(e)))
  {
    StepsAreInverse(order, successor, predecessor, e);
  }
}
