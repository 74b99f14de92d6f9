# Ranges and included-value oracles of willow-3d-products

This project models two pieces of the willow-3d-products library, which
describes regions of a three-dimensional keyspace (subspace, path,
timestamp) for a synchronisation protocol.

- **Ranges** (`src/ranges/ranges.ts`). A range is `open` (every value from
  `start` on), `closed_inclusive` (`[start, end]`) or `closed_exclusive`
  (`[start, end)`). The model covers:
  - range validity, on one axis and on all three axes;
  - the choice between the inclusive and the exclusive encoding of the
    same values, made by an encoded-size oracle `isInclusiveSmaller`;
  - turning an interval into a range;
  - the membership predicate.
- **Included-value oracles** (`src/test/util.ts`). These are the integer
  order and stepping functions the tests use, and two loops. One lists the
  values an interval covers up to a bound `max`. The other does the same
  for a list of intervals and drops values it has already seen.

Every operation takes the order, the successor, the predecessor and the
size oracle as function parameters. The module `Order` states what a
well-behaved one is:
- `TotalOrder`: results in {-1, 0, 1}, antisymmetric, 0 only for equal
  values, and transitive;
- `IsSuccessor`: the values below `successor(a)` are exactly those at
  most `a`;
- `IsPredecessor`: the values at most `predecessor(a)` are exactly those
  below `a`.

Generic lemmas are proved under these predicates. `Numbers` proves that
`OrderNumber`, `SuccessorNumber` and `PredecessorNumber` meet them, and
restates the range lemmas over the integers.

Files:
- `order.dfy`: the order contracts and small lemmas about them (`StepsAreInverse`: the successor and the predecessor undo each other).
- `intervals.dfy`: the `Interval` datatype.
- `ranges.dfy`: the module `Ranges`.
- `numbers.dfy`: the module `Numbers`.
- `included_values.dfy`: the module `IncludedValues`.

`GetIncludedValues` and `GetIncludedValuesDisjointInterval` are loop
methods. Both are proved against the ghost predicate `IsIncludedValues`:
every value is in the interval and at most `max`; every such value is
listed; the list strictly ascends; and it starts at `start` and goes on by
successor steps. For a list of intervals the result is `Dedup` of the
concatenation of what each interval gives. `Dedup` keeps the first of
several values the order finds equal.

## Model

| member | source | states |
|---|---|---|
| `Ranges.ValidRangeCases` | src/ranges/ranges.ts:6-25 | under a total order, an exclusive range is valid iff `order(start, end) == -1`, an inclusive one iff `order(start, end) <= 0`, and an open one always |
| `Ranges.SingletonRanges` | src/ranges/ranges.ts:10-21 | `[x, x)` is invalid and `[x, x]` is valid under every total order |
| `Ranges.ValidIffIncludesStart` | src/ranges/ranges.ts:6-25 | a range is valid exactly when it includes its own start |
| `Ranges.ValidIffNonEmpty` | src/ranges/ranges.ts:6-25 | a range is valid exactly when some value is included in it |
| `Ranges.IsValid3dRange` | src/ranges/ranges.ts:27-46 | a three-dimensional range is valid iff its subspace, path and timestamp ranges are each valid under that axis's order |
| `Ranges.Valid3dIffNonEmpty` | src/ranges/ranges.ts:27-46 | under total orders on the three axes, a three-dimensional range is valid exactly when some (subspace, path, timestamp) point is included in it on every axis |
| `Ranges.GetSmallerFromInclusiveRange` | src/ranges/ranges.ts:49-71 | the result is closed and keeps the start; it is the input when the oracle prefers `(end, successor(end))` as inclusive, and otherwise the exclusive range ending at `successor(end)` |
| `Ranges.GetSmallerFromExclusiveRange` | src/ranges/ranges.ts:74-96 | the result is closed and keeps the start; it is the inclusive range ending at `predecessor(end)` when the oracle prefers that, and otherwise the input |
| `Ranges.RangeFromInterval` | src/ranges/ranges.ts:99-124 | an open interval becomes the same open range; a closed one becomes what `GetSmallerFromExclusiveRange` chooses for it |
| `Ranges.InclusiveCanonicalisationPreservesValues` | src/ranges/ranges.ts:60-70 | under a total order and a true successor, the range chosen from an inclusive range includes exactly the same values and has the same validity |
| `Ranges.ExclusiveCanonicalisationPreservesValues` | src/ranges/ranges.ts:85-95 | under a total order and a true predecessor, the range chosen from an exclusive range includes exactly the same values and has the same validity |
| `Ranges.RangeFromIntervalPreservesValues` | src/ranges/ranges.ts:109-123 | the range of an interval includes exactly the values of the interval and is valid exactly when the interval is |
| `Ranges.InclusiveCanonicalIsFixedPoint` | src/ranges/ranges.ts:49-96 | an exclusive range chosen from an inclusive one is returned unchanged by the exclusive conversion with the same oracle; an inclusive result is returned unchanged by the inclusive conversion |
| `Ranges.ExclusiveCanonicalIsFixedPoint` | src/ranges/ranges.ts:49-96 | an inclusive range chosen from an exclusive one is returned unchanged by the inclusive conversion with the same oracle; an exclusive result is returned unchanged by the exclusive conversion |
| `Ranges.EncodingsCanonicaliseAlike` | src/ranges/ranges.ts:49-96 | the two encodings of the same values, `[s, e]` and `[s, successor(e))`, are each turned into the same range by their conversion, whatever the oracle says |
| `Numbers.OrderNumber` | src/test/util.ts:610-618 | the result is 1, -1 or 0 exactly when `a > b`, `a < b` or `a == b` |
| `Numbers.OrderNumberAntisymmetric` | src/test/util.ts:610-618 | `OrderNumber(a, b) == -OrderNumber(b, a)` |
| `Numbers.NumberStepsAreInverse` | src/test/util.ts:602-608 | `PredecessorNumber(SuccessorNumber(n)) == n` and `SuccessorNumber(PredecessorNumber(n)) == n` |
| `Numbers.NumbersAreOrdered` | src/test/util.ts:602-618 | `OrderNumber` is a total order, `SuccessorNumber` its successor and `PredecessorNumber` its predecessor |
| `Numbers.NumberRangeValidity` | src/ranges/ranges.ts:6-25 | over the integers, an exclusive range is valid iff `start < end`, an inclusive one iff `start <= end`; `[5, 5)` is invalid and `[5, 5]` valid |
| `Numbers.NumberRangeIncludesValue` | src/ranges/ranges.ts:126-138 | over the integers, membership is `start <= v` (open), `start <= v <= end` (inclusive) or `start <= v < end` (exclusive) |
| `Numbers.NumberCanonicalisationPreservesValues` | src/ranges/ranges.ts:49-96 | over the integers, either conversion keeps validity and includes exactly the same values |
| `Numbers.NumberRangeFromIntervalPreservesValues` | src/ranges/ranges.ts:99-124 | over the integers, the range of an interval keeps its validity and includes exactly its values |
| `Numbers.NumberCanonicalIsFixedPoint` | src/ranges/ranges.ts:49-96 | over the integers, `[s, e]` converted to `[s, e + 1)` is kept by the conversion back, and `[s, e)` converted to `[s, e - 1]` likewise |
| `IncludedValues.GetIncludedValues` | src/test/util.ts:536-567 | the result holds exactly the values of the interval that are at most `max`, in strictly ascending order, starting at `start` and going on by successor steps |
| `IncludedValues.IncludedValuesAreUnique` | src/test/util.ts:536-567 | those properties determine the result: two sequences that both have them are equal |
| `IncludedValues.IncludedNumbersAreConsecutive` | src/test/util.ts:536-567 | over the integers the result is `start, start + 1, ..., hi`, where `hi` is `max` (open) or `min(max, end - 1)` (closed); it is empty when `start > hi` |
| `IncludedValues.GetIncludedNumbers` | src/test/util.ts:536-567 | the integer instance the tests use returns exactly those consecutive integers |
| `IncludedValues.FindEquivalent` | src/test/util.ts:638 | returns nothing iff no listed value is order-equal to `x`, and otherwise the first listed value that is |
| `IncludedValues.AppendNewValues` | src/test/util.ts:637-641 | appending the new values not already present extends the deduplication of what was seen by the new values |
| `IncludedValues.DedupHasNoEquivalents` | src/test/util.ts:638-640 | no two values kept by the deduplication are order-equal |
| `IncludedValues.DedupKeepsValues` | src/test/util.ts:638-640 | under a total order, the deduplication keeps every value and adds none |
| `IncludedValues.DedupOfIntervals` | src/test/util.ts:620-645 | deduplicating what the intervals give leaves no two equal values, and a value is kept iff it is at most `max` and in some interval |
| `IncludedValues.DisjointIntervalsAscend` | src/test/util.ts:620-645 | for a disjoint interval set (valid intervals, each but the last closed and ending at or before the next start), deduplication drops nothing and the values ascend |
| `IncludedValues.GetIncludedValuesDisjointInterval` | src/test/util.ts:620-645 | the result is the first-occurrence deduplication of the concatenation of each interval's included values; it has no two order-equal values; it holds exactly the values at most `max` in some interval; for a disjoint interval set it is that concatenation itself and ascends |

`Ranges.IsValidRange` is stated by `Ranges.ValidRangeCases`, `Ranges.RangeIncludesValue` by `Numbers.NumberRangeIncludesValue` and `Ranges.ValidIffIncludesStart`, and `Numbers.SuccessorNumber` and `Numbers.PredecessorNumber` by `Numbers.NumberStepsAreInverse` and `Numbers.NumbersAreOrdered`.

## Left out

- The random fixture generators of `src/test/util.ts` (`getRandomInterval`, `getRandomDisjointInterval`, `getRandom3dProduct`, `getPairwiseMergeable3dProduct`, `getRandomSubInterval` and the rest). Their results depend on `Math.random`, so nothing can be said about them.
- `getIncludedValues3d` and `getIncludedValues3dProduct` in `src/test/util.ts`. They only apply the modelled oracles once per axis, with the concrete path and timestamp orders.
- The concrete path and timestamp orders, `makeSuccessorPath`, the path and timestamp predecessors, interval validity, three-dimensional products and `addToDisjointInterval`. Their source is not part of this model. Orders, successors and predecessors are function parameters, under the contracts of the `Order` module. `IsValid3dRange` takes the path and timestamp orders as parameters.
- Stepping at the ends of a bounded domain. `IsSuccessor` and `IsPredecessor` assume that every value has a neighbour.
- The byte-length cost model behind `isInclusiveSmaller`. It is a parameter and nothing is assumed about it.
- JavaScript `number` is a float. `OrderNumber`, `SuccessorNumber` and `PredecessorNumber` work on unbounded integers, so rounding and loss of precision are not modelled. Byte arrays and `bigint` become `seq<Byte>` and `int`.
- Object identity. The source hands back the very object it was given, where the model returns an equal value. `Array.from` at the end of `getIncludedValuesDisjointInterval` only copies the array, so the model leaves it out.
- GetIncludedValues: the contract holds only for a total order with a true successor. The caller also passes a ghost measure `rank` that each step below `max` decreases, so the loop is known to stop. For other parameters the source may still run, or loop forever, and the model says nothing about that.
- GetIncludedValuesDisjointInterval: the same requirements as `GetIncludedValues`. The list is not required to be disjoint or sorted, because the loop does not rely on that. Ascending output is promised only when the list is a disjoint interval set (`IsSortedDisjoint`).
- The inner loop of `getIncludedValuesDisjointInterval` is the separate method `AppendNewValues`. The `find` call inside it is the separate method `FindEquivalent`.
- The doc comment of `getSmallerFromExclusiveRange` speaks of returning "an exclusive version". The code returns the inclusive range when that is smaller, and the model follows the code.
