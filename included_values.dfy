/** The oracles the repository's tests compare against: the values an
    interval, or a list of intervals, covers up to a bound `max`, found by
    stepping from each start with the successor function. */
module IncludedValues {
  import opened Order
  import opened Ranges
  import opened Intervals
  import opened Numbers

  datatype Option<T> = None | Some(value: T)

  /** `values` start at `start` and go on by successor steps. */
  ghost predicate SteppedFrom<T>(successor: T -> T, start: T, values: seq<T>) {
    && (|values| > 0 ==> values[0] == start)
    && (forall i, j :: 0 <= i && j == i + 1 && j < |values| ==> values[j] == successor(values[i]))
  }

  /** Every value of `values` is in `interval` and at most `max`. */
  ghost predicate WithinBounds<T>(order: (T, T) -> int, max: T, interval: Interval<T>, values: seq<T>) {
    forall i :: 0 <= i < |values| ==>
      order(values[i], max) <= 0 && RangeIncludesValue(order, AsRange(interval), values[i])
  }

  /** `values` strictly ascend. */
  ghost predicate Ascending<T>(order: (T, T) -> int, values: seq<T>) {
    forall i, j :: 0 <= i < j < |values| ==> order(values[i], values[j]) < 0
  }

  /** Every value of `interval` at most `max` and below `bound` is in `values`. */
  ghost predicate CoversBelow<T(!new)>(order: (T, T) -> int, max: T, interval: Interval<T>, values: seq<T>, bound: T) {
    forall v :: order(v, max) <= 0 && RangeIncludesValue(order, AsRange(interval), v) && order(v, bound) < 0
      ==> v in values
  }

  /** `values` are the values of `interval` at most `max`, each exactly once,
      in ascending order, reached from the start by successor steps. */
  ghost predicate IsIncludedValues<T(!new)>(
    order: (T, T) -> int, successor: T -> T, max: T, interval: Interval<T>, values: seq<T>
  ) {
    && SteppedFrom(successor, interval.start, values)
    && WithinBounds(order, max, interval, values)
    && (forall v :: order(v, max) <= 0 && RangeIncludesValue(order, AsRange(interval), v) ==> v in values)
    && Ascending(order, values)
  }

  /** What holds while stepping, with `prev` the next value to look at. */
  ghost predicate SteppedTo<T(!new)>(
    order: (T, T) -> int, successor: T -> T, max: T, interval: Interval<T>, values: seq<T>, prev: T
  ) {
    && order(interval.start, prev) <= 0
    && SteppedFrom(successor, interval.start, values)
    && (if |values| == 0 then prev == interval.start else prev == successor(values[|values| - 1]))
    && WithinBounds(order, max, interval, values)
    && (forall i :: 0 <= i < |values| ==> order(values[i], prev) < 0)
    && Ascending(order, values)
    && CoversBelow(order, max, interval, values, prev)
  }

  lemma StepKeepsSteppedFrom<T>(successor: T -> T, start: T, values: seq<T>, prev: T)
    requires SteppedFrom(successor, start, values)
    requires if |values| == 0 then prev == start else prev == successor(values[|values| - 1])
    ensures SteppedFrom(successor, start, values + [prev])
  {
  }

  lemma StepKeepsAscending<T(!new)>(order: (T, T) -> int, successor: T -> T, values: seq<T>, prev: T)
    requires TotalOrder(order) && IsSuccessor(order, successor)
    requires Ascending(order, values)
    requires forall i :: 0 <= i < |values| ==> order(values[i], prev) < 0
    ensures Ascending(order, values + [prev])
    ensures forall i :: 0 <= i < |values| + 1 ==> order((values + [prev])[i], successor(prev)) < 0
  {
    SuccessorIsAbove(order, successor, prev);
    forall i | 0 <= i < |values| + 1 ensures order((values + [prev])[i], successor(prev)) < 0 {
      if i < |values| {
        LtLeTrans(order, values[i], prev, successor(prev));
      }
    }
  }

  lemma StepKeepsCoversBelow<T(!new)>(
    order: (T, T) -> int, successor: T -> T, max: T, interval: Interval<T>, values: seq<T>, prev: T
  )
    requires TotalOrder(order) && IsSuccessor(order, successor)
    requires CoversBelow(order, max, interval, values, prev)
    ensures CoversBelow(order, max, interval, values + [prev], successor(prev))
  {
    forall v | order(v, max) <= 0 && RangeIncludesValue(order, AsRange(interval), v) && order(v, successor(prev)) < 0
      ensures v in values + [prev]
    {
      if order(v, prev) == 0 {
        assert v == prev;
      }
    }
  }

  /** Taking `prev` and stepping past it keeps the stepping invariant. */
  lemma StepKeepsSteppedTo<T(!new)>(
    order: (T, T) -> int, successor: T -> T, max: T, interval: Interval<T>, values: seq<T>, prev: T
  )
    requires TotalOrder(order) && IsSuccessor(order, successor)
    requires SteppedTo(order, successor, max, interval, values, prev)
    requires order(prev, max) <= 0 && RangeIncludesValue(order, AsRange(interval), prev)
    ensures SteppedTo(order, successor, max, interval, values + [prev], successor(prev))
  {
    SuccessorIsAbove(order, successor, prev);
    LeLtTrans(order, interval.start, prev, successor(prev));
    StepKeepsSteppedFrom(successor, interval.start, values, prev);
    StepKeepsAscending(order, successor, values, prev);
    StepKeepsCoversBelow(order, successor, max, interval, values, prev);
  }

  /** The values of `interval` at most `max`, found by stepping from its start
      with `successor` for as long as the value is at most `max` and, for a
      closed interval, below its end. `rank` measures the steps left, so that
      the stepping ends. */
  method GetIncludedValues<T(!new)>(
    max: T, order: (T, T) -> int, successor: T -> T, ghost rank: T -> int, interval: Interval<T>
  ) returns (values: seq<T>)
    requires TotalOrder(order) && IsSuccessor(order, successor)
    requires forall v :: order(v, max) < 1 ==> 0 <= rank(v) && rank(successor(v)) < rank(v)
    ensures IsIncludedValues(order, successor, max, interval, values)
  {
    var prev := interval.start;
    values := [];
    if interval.Open? {
      while order(prev, max) < 1
        invariant SteppedTo(order, successor, max, interval, values, prev)
        decreases rank(prev)
      {
        StepKeepsSteppedTo(order, successor, max, interval, values, prev);
        values := values + [prev];
        prev := successor(prev);
      }
      forall v | order(v, max) <= 0 && RangeIncludesValue(order, AsRange(interval), v) ensures v in values {
        LeLtTrans(order, v, max, prev);
      }
    } else {
      while order(prev, max) < 1 && interval.ClosedExclusive? && order(prev, interval.end) < 0
        invariant SteppedTo(order, successor, max, interval, values, prev)
        decreases rank(prev)
      {
        StepKeepsSteppedTo(order, successor, max, interval, values, prev);
        values := values + [prev];
        prev := successor(prev);
      }
      forall v | order(v, max) <= 0 && RangeIncludesValue(order, AsRange(interval), v) ensures v in values {
        if order(prev, max) >= 1 {
          LeLtTrans(order, v, max, prev);
        } else {
          LtLeTrans(order, v, interval.end, prev);
        }
      }
    }
  }

  /** The stepping result is determined by the interval and `max`: two
      sequences that both meet `IsIncludedValues` are equal. */
  lemma IncludedValuesAreUnique<T(!new)>(
    order: (T, T) -> int, successor: T -> T, max: T, interval: Interval<T>, a: seq<T>, b: seq<T>
  )
    requires TotalOrder(order) && IsSuccessor(order, successor)
    requires IsIncludedValues(order, successor, max, interval, a)
    requires IsIncludedValues(order, successor, max, interval, b)
    ensures a == b
  {
    if |a| <= |b| {
      IncludedValuesPrefix(order, successor, max, interval, a, b);
    } else {
      IncludedValuesPrefix(order, successor, max, interval, b, a);
    }
  }

  lemma IncludedValuesPrefix<T(!new)>(
    order: (T, T) -> int, successor: T -> T, max: T, interval: Interval<T>, a: seq<T>, b: seq<T>
  )
    requires TotalOrder(order) && IsSuccessor(order, successor)
    requires IsIncludedValues(order, successor, max, interval, a)
    requires IsIncludedValues(order, successor, max, interval, b)
    requires |a| <= |b|
    ensures a == b
  {
    SameSteps(successor, interval.start, a, b);
    if |a| < |b| {
      LongerValuesAreIncluded(order, successor, max, interval, a, b, |a|);
      assert false;
    }
  }

  /** Each value of one stepping result is a value of any other. */
  lemma LongerValuesAreIncluded<T(!new)>(
    order: (T, T) -> int, successor: T -> T, max: T, interval: Interval<T>, a: seq<T>, b: seq<T>, k: nat
  )
    requires IsIncludedValues(order, successor, max, interval, a)
    requires IsIncludedValues(order, successor, max, interval, b)
    requires k < |b|
    ensures b[k] in a
  {
    assert order(b[k], max) <= 0 && RangeIncludesValue(order, AsRange(interval), b[k]);
  }

  /** Two sequences that start at `start` and go on by successor steps agree
      on their common length. */
  lemma SameSteps<T>(successor: T -> T, start: T, a: seq<T>, b: seq<T>)
    requires |a| <= |b|
    requires |a| > 0 ==> a[0] == start && b[0] == start
    requires forall i, j :: 0 <= i && j == i + 1 && j < |a| ==> a[j] == successor(a[i])
    requires forall i, j :: 0 <= i && j == i + 1 && j < |b| ==> b[j] == successor(b[i])
    ensures a == b[..|a|]
  {
    var n := 0;
    while n < |a|
      invariant n <= |a|
      invariant forall i :: 0 <= i < n ==> a[i] == b[i]
    {
      if n > 0 {
        assert a[n] == successor(a[n - 1]);
        assert b[n] == successor(b[n - 1]);
      }
      n := n + 1;
    }
  }

  /** `IsIncludedValues` over the integers, in terms of integer comparison. */
  lemma IncludedNumbersFacts(max: int, interval: Interval<int>, values: seq<int>)
    requires IsIncludedValues(OrderNumber, SuccessorNumber, max, interval, values)
    ensures |values| > 0 ==> values[0] == interval.start
    ensures forall i :: 0 < i < |values| ==> values[i] == values[i - 1] + 1
    ensures forall i :: 0 <= i < |values| ==> interval.start <= values[i] <= LastIncluded(max, interval)
    ensures forall v :: interval.start <= v <= LastIncluded(max, interval) ==> v in values
  {
    forall i | 0 < i < |values| ensures values[i] == values[i - 1] + 1 {
      assert values[i] == SuccessorNumber(values[i - 1]);
    }
    forall i | 0 <= i < |values| ensures interval.start <= values[i] <= LastIncluded(max, interval) {
      NumberRangeIncludesValue(AsRange(interval), values[i]);
    }
    forall v | interval.start <= v <= LastIncluded(max, interval) ensures v in values {
      NumberRangeIncludesValue(AsRange(interval), v);
    }
  }

  /** The integers an interval covers up to `max` run from its start up to
      `max` (open) or up to `min(max, end - 1)` (closed), one by one. */
  lemma {:induction false} IncludedNumbersAreConsecutive(max: int, interval: Interval<int>, values: seq<int>)
    requires IsIncludedValues(OrderNumber, SuccessorNumber, max, interval, values)
    ensures values == Consecutive(interval.start, LastIncluded(max, interval))
  {
    IncludedNumbersFacts(max, interval, values);
    var hi := LastIncluded(max, interval);
    var lo := interval.start;
    var n := 0;
    while n < |values|
      invariant n <= |values|
      invariant forall i :: 0 <= i < n ==> values[i] == lo + i
    {
      assert n > 0 ==> values[n] == values[n - 1] + 1;
      n := n + 1;
    }
    if lo <= hi {
      assert lo in values;
    }
    if |values| > 0 {
      var last := values[|values| - 1];
      assert last + 1 !in values;
      assert hi <= last;
    }
    var c := Consecutive(lo, hi);
    assert |c| == |values|;
    assert forall i :: 0 <= i < |c| ==> c[i] == values[i];
  }

  /** The largest integer the interval covers up to `max`. */
  function LastIncluded(max: int, interval: Interval<int>): int {
    match interval
    case Open(_) => max
    case ClosedExclusive(_, end) => if max < end - 1 then max else end - 1
  }

  /** The integers from `lo` to `hi`, ascending; empty when `lo > hi`. */
  function Consecutive(lo: int, hi: int): seq<int> {
    if lo > hi then [] else seq(hi - lo + 1, i => lo + i)
  }

  /** The included values over the integers, the instance the tests use:
      exactly the consecutive integers the interval covers up to `max`. */
  method GetIncludedNumbers(max: int, interval: Interval<int>) returns (values: seq<int>)
    ensures values == Consecutive(interval.start, LastIncluded(max, interval))
  {
    NumbersAreOrdered();
    values := GetIncludedValues(max, OrderNumber, SuccessorNumber, v => max - v, interval);
    IncludedNumbersAreConsecutive(max, interval, values);
  }

  // Disjoint intervals

  /** Whether `values` holds a value the order finds equal to `x`. */
  ghost predicate ContainsEquivalent<T>(order: (T, T) -> int, values: seq<T>, x: T) {
    exists i :: 0 <= i < |values| && order(values[i], x) == 0
  }

  /** `s` with every value dropped that the order finds equal to an
      earlier one, first occurrences kept in order. */
  ghost function Dedup<T>(order: (T, T) -> int, s: seq<T>): seq<T> {
    if s == [] then []
    else
      var d := Dedup(order, s[..|s| - 1]);
      if ContainsEquivalent(order, d, s[|s| - 1]) then d else d + [s[|s| - 1]]
  }

  /** The concatenation of `ss`. */
  ghost function Flatten<T>(ss: seq<seq<T>>): seq<T> {
    if ss == [] then [] else Flatten(ss[..|ss| - 1]) + ss[|ss| - 1]
  }

  /** No two values of `values` are equal under the order. */
  ghost predicate NoEquivalents<T>(order: (T, T) -> int, values: seq<T>) {
    forall i, j :: 0 <= i < j < |values| ==> order(values[i], values[j]) != 0
  }

  /** No two values of `Dedup(order, s)` are equal under the order. */
  lemma {:induction false} DedupHasNoEquivalents<T>(order: (T, T) -> int, s: seq<T>)
    ensures NoEquivalents(order, Dedup(order, s))
  {
    if s != [] {
      var init, x := s[..|s| - 1], s[|s| - 1];
      DedupHasNoEquivalents(order, init);
      var d := Dedup(order, init);
      if ContainsEquivalent(order, d, x) {
        assert Dedup(order, s) == d;
      } else {
        var d' := d + [x];
        assert Dedup(order, s) == d';
        forall i, j | 0 <= i < j < |d'| ensures order(d'[i], d'[j]) != 0 {
          if j == |d| {
            assert d'[j] == x && d'[i] == d[i];
          } else {
            assert d'[i] == d[i] && d'[j] == d[j];
          }
        }
      }
    }
  }

  /** Under a total order, `Dedup` keeps every value of `s` and adds none. */
  lemma {:induction false} DedupKeepsValues<T(!new)>(order: (T, T) -> int, s: seq<T>)
    requires TotalOrder(order)
    ensures forall v :: v in Dedup(order, s) <==> v in s
  {
    if s != [] {
      var init := s[..|s| - 1];
      DedupKeepsValues(order, init);
      assert s == init + [s[|s| - 1]];
    }
  }

  lemma {:induction false} FlattenValues<T>(ss: seq<seq<T>>)
    ensures forall v :: v in Flatten(ss) <==> exists k :: 0 <= k < |ss| && v in ss[k]
  {
    if ss != [] {
      FlattenValues(ss[..|ss| - 1]);
      assert forall k :: 0 <= k < |ss| - 1 ==> ss[..|ss| - 1][k] == ss[k];
    }
  }

  /** The first value of `values` the order finds equal to `x`, if any:
      a linear scan. */
  method FindEquivalent<T>(order: (T, T) -> int, values: seq<T>, x: T) returns (found: Option<T>)
    ensures found.None? <==> forall i :: 0 <= i < |values| ==> order(values[i], x) != 0
    ensures found.Some? ==>
      exists i :: && 0 <= i < |values| && values[i] == found.value && order(values[i], x) == 0
                  && forall j :: 0 <= j < i ==> order(values[j], x) != 0
  {
    for i := 0 to |values|
      invariant forall j :: 0 <= j < i ==> order(values[j], x) != 0
    {
      if order(values[i], x) == 0 {
        return Some(values[i]);
      }
    }
    return None;
  }

  /** Deduplicating what the intervals contribute leaves no two equal
      values, and keeps exactly the values of the intervals up to `max`. */
  lemma DedupOfIntervals<T(!new)>(
    order: (T, T) -> int, successor: T -> T, max: T, disjointInterval: seq<Interval<T>>, perInterval: seq<seq<T>>
  )
    requires TotalOrder(order)
    requires |perInterval| == |disjointInterval|
    requires forall k :: 0 <= k < |disjointInterval| ==>
      IsIncludedValues(order, successor, max, disjointInterval[k], perInterval[k])
    ensures NoEquivalents(order, Dedup(order, Flatten(perInterval)))
    ensures forall v :: v in Dedup(order, Flatten(perInterval)) <==>
      order(v, max) <= 0 && exists k :: 0 <= k < |disjointInterval| && RangeIncludesValue(order, AsRange(disjointInterval[k]), v)
  {
    DedupHasNoEquivalents(order, Flatten(perInterval));
    DedupKeepsValues(order, Flatten(perInterval));
    forall v ensures v in Flatten(perInterval) <==>
      order(v, max) <= 0 && exists k :: 0 <= k < |disjointInterval| && RangeIncludesValue(order, AsRange(disjointInterval[k]), v)
    {
      FlattenOfIntervals(order, successor, max, disjointInterval, perInterval, v);
    }
  }

  /** A value is in the concatenation of what the intervals give iff it is
      at most `max` and in one of the intervals. */
  lemma FlattenOfIntervals<T(!new)>(
    order: (T, T) -> int, successor: T -> T, max: T, disjointInterval: seq<Interval<T>>, perInterval: seq<seq<T>>, v: T
  )
    requires |perInterval| == |disjointInterval|
    requires forall k :: 0 <= k < |disjointInterval| ==>
      IsIncludedValues(order, successor, max, disjointInterval[k], perInterval[k])
    ensures v in Flatten(perInterval) <==>
      order(v, max) <= 0 && exists k :: 0 <= k < |disjointInterval| && RangeIncludesValue(order, AsRange(disjointInterval[k]), v)
  {
    FlattenValues(perInterval);
    if v in Flatten(perInterval) {
      var k :| 0 <= k < |perInterval| && v in perInterval[k];
      var i :| 0 <= i < |perInterval[k]| && perInterval[k][i] == v;
      assert WithinBounds(order, max, disjointInterval[k], perInterval[k]);
    }
    if order(v, max) <= 0 && exists k :: 0 <= k < |disjointInterval| && RangeIncludesValue(order, AsRange(disjointInterval[k]), v) {
      var k :| 0 <= k < |disjointInterval| && RangeIncludesValue(order, AsRange(disjointInterval[k]), v);
      assert v in perInterval[k];
    }
  }

  /** The intervals of a disjoint interval set: each one valid, and each
      but the last closed and ending at or before the start of the next. */
  ghost predicate IsSortedDisjoint<T>(order: (T, T) -> int, intervals: seq<Interval<T>>) {
    && (forall k :: 0 <= k < |intervals| ==> IsValidRange(order, AsRange(intervals[k])))
    && (forall k :: 0 <= k < |intervals| - 1 ==>
          intervals[k].ClosedExclusive? && order(intervals[k].end, intervals[k + 1].start) <= 0)
  }

  lemma AscendingConcat<T>(order: (T, T) -> int, a: seq<T>, b: seq<T>)
    requires Ascending(order, a) && Ascending(order, b)
    requires forall i, j :: 0 <= i < |a| && 0 <= j < |b| ==> order(a[i], b[j]) < 0
    ensures Ascending(order, a + b)
  {
    forall i, j | 0 <= i < j < |a + b| ensures order((a + b)[i], (a + b)[j]) < 0 {
      if j < |a| {
        assert (a + b)[i] == a[i] && (a + b)[j] == a[j];
      } else if i < |a| {
        assert (a + b)[i] == a[i] && (a + b)[j] == b[j - |a|];
      } else {
        assert (a + b)[i] == b[i - |a|] && (a + b)[j] == b[j - |a|];
      }
    }
  }

  /** Values below the end of one interval of a disjoint interval set lie
      below the start of the next. */
  lemma BelowNextStart<T(!new)>(order: (T, T) -> int, intervals: seq<Interval<T>>, k: nat, f: seq<T>)
    requires TotalOrder(order)
    requires k + 1 < |intervals| && IsSortedDisjoint(order, intervals)
    requires forall i :: 0 <= i < |f| ==> order(f[i], intervals[k].end) < 0
    ensures forall i :: 0 <= i < |f| ==> order(f[i], intervals[k + 1].start) < 0
  {
    assert intervals[k].ClosedExclusive? && order(intervals[k].end, intervals[k + 1].start) <= 0;
    forall i | 0 <= i < |f| ensures order(f[i], intervals[k + 1].start) < 0 {
      LtLeTrans(order, f[i], intervals[k].end, intervals[k + 1].start);
    }
  }

  /** Appending the values of one valid interval to ascending values below
      its start keeps them ascending, and all of them lie below its end
      when it is closed. */
  lemma AppendIntervalAscends<T(!new)>(
    order: (T, T) -> int, max: T, interval: Interval<T>, f: seq<T>, last: seq<T>
  )
    requires TotalOrder(order)
    requires IsValidRange(order, AsRange(interval))
    requires Ascending(order, f) && Ascending(order, last) && WithinBounds(order, max, interval, last)
    requires forall i :: 0 <= i < |f| ==> order(f[i], interval.start) < 0
    ensures Ascending(order, f + last)
    ensures interval.ClosedExclusive? ==> forall i :: 0 <= i < |f + last| ==> order((f + last)[i], interval.end) < 0
  {
    forall i, j | 0 <= i < |f| && 0 <= j < |last| ensures order(f[i], last[j]) < 0 {
      assert RangeIncludesValue(order, AsRange(interval), last[j]);
      LtLeTrans(order, f[i], interval.start, last[j]);
    }
    AscendingConcat(order, f, last);
    if interval.ClosedExclusive? {
      assert order(interval.start, interval.end) < 0;
      forall i | 0 <= i < |f + last| ensures order((f + last)[i], interval.end) < 0 {
        if i < |f| {
          LtLeTrans(order, f[i], interval.start, interval.end);
        } else {
          assert (f + last)[i] == last[i - |f|];
          assert RangeIncludesValue(order, AsRange(interval), last[i - |f|]);
        }
      }
    }
  }

  /** For a disjoint interval set the concatenation of what each interval
      gives ascends, and lies below the end of the last interval when that
      one is closed. */
  lemma {:induction false} FlattenAscends<T(!new)>(
    order: (T, T) -> int, successor: T -> T, max: T, intervals: seq<Interval<T>>, ss: seq<seq<T>>
  )
    requires TotalOrder(order)
    requires |ss| == |intervals| && IsSortedDisjoint(order, intervals)
    requires forall k :: 0 <= k < |intervals| ==> IsIncludedValues(order, successor, max, intervals[k], ss[k])
    ensures Ascending(order, Flatten(ss))
    ensures |intervals| > 0 && intervals[|intervals| - 1].ClosedExclusive? ==>
      forall i :: 0 <= i < |Flatten(ss)| ==> order(Flatten(ss)[i], intervals[|intervals| - 1].end) < 0
  {
    if ss != [] {
      var n := |ss|;
      var init, last, interval := ss[..n - 1], ss[n - 1], intervals[n - 1];
      var f := Flatten(init);
      assert Flatten(ss) == f + last;
      FlattenAscends(order, successor, max, intervals[..n - 1], init);
      assert IsIncludedValues(order, successor, max, interval, last);
      if n == 1 {
        assert f == [];
      } else {
        BelowNextStart(order, intervals, n - 2, f);
      }
      AppendIntervalAscends(order, max, interval, f, last);
    }
  }

  /** Deduplicating a sequence with no two order-equal values keeps it. */
  lemma {:induction false} DedupOfDistinct<T>(order: (T, T) -> int, s: seq<T>)
    requires NoEquivalents(order, s)
    ensures Dedup(order, s) == s
  {
    if s != [] {
      var init, x := s[..|s| - 1], s[|s| - 1];
      assert NoEquivalents(order, init);
      DedupOfDistinct(order, init);
      forall i | 0 <= i < |init| ensures order(init[i], x) != 0 {
        assert init[i] == s[i];
      }
      assert init + [x] == s;
    }
  }

  /** For a disjoint interval set nothing is dropped as a repeat, and the
      values come out in ascending order. */
  lemma DisjointIntervalsAscend<T(!new)>(
    order: (T, T) -> int, successor: T -> T, max: T, intervals: seq<Interval<T>>, perInterval: seq<seq<T>>
  )
    requires TotalOrder(order)
    requires |perInterval| == |intervals| && IsSortedDisjoint(order, intervals)
    requires forall k :: 0 <= k < |intervals| ==>
      IsIncludedValues(order, successor, max, intervals[k], perInterval[k])
    ensures Dedup(order, Flatten(perInterval)) == Flatten(perInterval)
    ensures Ascending(order, Dedup(order, Flatten(perInterval)))
  {
    FlattenAscends(order, successor, max, intervals, perInterval);
    DedupOfDistinct(order, Flatten(perInterval));
  }

  /** `values` followed by every value of `newValues` that the order finds
      equal to none already kept. */
  method AppendNewValues<T>(order: (T, T) -> int, values: seq<T>, newValues: seq<T>, ghost done: seq<T>)
    returns (result: seq<T>)
    requires values == Dedup(order, done)
    ensures result == Dedup(order, done + newValues)
  {
    result := values;
    assert done + newValues[..0] == done;
    for j := 0 to |newValues|
      invariant result == Dedup(order, done + newValues[..j])
    {
      assert done + newValues[..j + 1] == (done + newValues[..j]) + [newValues[j]];
      var found := FindEquivalent(order, result, newValues[j]);
      if found.None? {
        result := result + [newValues[j]];
      }
    }
    assert newValues[..|newValues|] == newValues;
  }

  /** The values a list of intervals covers up to `max`: the values of each
      interval in turn, each kept unless an equal one is already there.
      `perInterval` holds what each interval contributes. */
  method GetIncludedValuesDisjointInterval<T(!new)>(
    max: T, order: (T, T) -> int, successor: T -> T, ghost rank: T -> int, disjointInterval: seq<Interval<T>>
  ) returns (values: seq<T>, ghost perInterval: seq<seq<T>>)
    requires TotalOrder(order) && IsSuccessor(order, successor)
    requires forall v :: order(v, max) < 1 ==> 0 <= rank(v) && rank(successor(v)) < rank(v)
    ensures |perInterval| == |disjointInterval|
    ensures forall k :: 0 <= k < |disjointInterval| ==>
      IsIncludedValues(order, successor, max, disjointInterval[k], perInterval[k])
    ensures values == Dedup(order, Flatten(perInterval))
    ensures NoEquivalents(order, values)
    ensures forall v :: v in values <==>
      order(v, max) <= 0 && exists k :: 0 <= k < |disjointInterval| && RangeIncludesValue(order, AsRange(disjointInterval[k]), v)
    ensures IsSortedDisjoint(order, disjointInterval) ==> values == Flatten(perInterval) && Ascending(order, values)
  {
    values := [];
    perInterval := [];
    for k := 0 to |disjointInterval|
      invariant |perInterval| == k
      invariant forall m :: 0 <= m < k ==>
        IsIncludedValues(order, successor, max, disjointInterval[m], perInterval[m])
      invariant values == Dedup(order, Flatten(perInterval))
    {
      var intervalValues := GetIncludedValues(max, order, successor, rank, disjointInterval[k]);
      values := AppendNewValues(order, values, intervalValues, Flatten(perInterval));
      assert (perInterval + [intervalValues])[..k] == perInterval;
      perInterval := perInterval + [intervalValues];
    }
    DedupOfIntervals(order, successor, max, disjointInterval, perInterval);
    if IsSortedDisjoint(order, disjointInterval) {
      DisjointIntervalsAscend(order, successor, max, disjointInterval, perInterval);
    }
  }
}
