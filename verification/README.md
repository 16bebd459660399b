# RangeList in Dafny

A model of the `RangeList` class of `RangeList.js`. The class keeps a list of
half-open integer ranges `[start, end)` in its field `ranges`. Two operations change that list:

- `add(range)` adds the integers of a range.
- `remove(range)` takes them away.

When some stored range overlaps the input, both operations expand every stored range
into the integers it covers and combine those point lists. Then the lists are
regrouped into maximal runs: each run of consecutive points becomes
`[first, last + 1)`. Two predicates sit in front of this:

- `isValidRange` rejects malformed input.
- `hasIntersaction` is an overlap test with both bounds closed. When no stored
  range overlaps the input, `add` appends the range as it is, and `remove`
  does nothing.

The model follows the enumeration step by step:

- `points.dfy` (module `Points`): point lists. It has de-duplication with
  numeric sorting, `indexOf`, concatenation, and the net effect of the
  splice loop.
- `intervals.dfy` (module `Intervals`): the `Range` datatype, the validity and
  overlap predicates, the expansion of a range into points, the grouping of
  points into ranges (`ToRanges`), and the set of integers a list of ranges
  covers.
- `range_list.dfy` (module `RangeLists`): the class `RangeList`. Its field is
  `ranges: seq<Range>`. `Add` and `Remove` reassign it, and the static methods
  `MergeLists`, `ConvertToRanges` and `SpliceRemoved` hold the source's
  loops. The functions `AfterAdd` and `AfterRemove` give the new list as a
  function of the old one. The lemmas about them state what the operations
  mean: `add` is a set union, and `remove` on a sorted list is a set
  difference.
- `demo.dfy` (module `DemoScript`): the outputs that the script at the end of
  `RangeList.js` expects, one lemma per call. It also has inputs that show the
  behaviour of the two paths beyond that script.

`Add` and `Remove` return `rejected`. `true` stands for the source's
`return false`. `false` stands for a normal completion, which returns
`undefined` in the source.

## Where the code differs from the intended design

A range list is meant to stay sorted, free of empty ranges and maximal after
every operation. The code does not always do this. The model follows the code:

- The fast path of `add` (`RangeList.js:99-101`) appends the new range at the
  end without sorting. It also stores a zero-length range such as `[30, 30]`
  when that range touches nothing (`FastPathStoresEmptyRange`,
  `FastPathAppendsOutOfOrder`). The list is normalized only after the merge
  path (`AddMergeIsNormalized`).
- As a result, adding the same range twice can change the list: the second add
  takes the merge path, which sorts (`AddTwiceReorders`). The covered integers
  are the same either way (`AddIsUnion`).
- `remove` groups the concatenated points in stored order. The grouping starts
  a new run only when a point is more than one above the previous point
  (`RangeList.js:71`). On a list that the fast path left unsorted, it
  therefore merges unrelated points into one run. `add([5, 6])`, `add([1, 3])`,
  `remove([2, 3])` leaves the reversed range `[5, 2)`, which covers nothing,
  where 1 and 5 should remain (`UnsortedStoreIsReachable`,
  `RemoveOnUnsortedStore`). A zero-length `remove([5, 5])` on the same list
  loses every stored integer, leaving `[5, 3)`
  (`ZeroLengthRemoveOnUnsortedStore`). The set-difference property of `remove` is
  therefore proved for lists sorted by start (`RemoveIsDifference`).
- The no-op path of `remove` is a set difference on any list
  (`HasNoIntersactionToAllExistingRange`). When nothing overlaps the removed range under
  the closed test, none of its integers is stored.

## Model

| member | source | states |
|---|---|---|
| `Intervals.GetListByRange` | RangeList.js:10-14 | a well-formed range expands to `end - start` integers, strictly increasing, whose set is exactly the range's integers |
| `Intervals.GetAllCurrentLists` | RangeList.js:16-18 | one point list per stored range, in stored order, each holding exactly that range's integers |
| `Intervals.AllPointsCovered` | RangeList.js:16-27 | concatenating the point lists of all stored ranges yields exactly the integers the list covers |
| `RangeLists.RangeList.MergeLists` | RangeList.js:20-27 | the push loop returns the concatenation of the lists in order |
| `Intervals.IsValidRange` | RangeList.js:29-40 | an input is accepted exactly when it has two bounds and they form a well-formed range, so that its expansion has `end - start` points; a wrong arity or reversed bounds is refused |
| `Intervals.HasIntersaction` | RangeList.js:42-52 | for well-formed ranges the overlap test holds exactly when the two closed intervals share an integer, so touching ranges meet |
| `Intervals.IntersactionSymmetric` | RangeList.js:42-52 | the overlap test does not depend on the order of its arguments |
| `Intervals.ZeroLengthIntersaction` | RangeList.js:42-52 | a zero-length range `[x, x]` meets every range `[s, e]` with `s <= x <= e` |
| `Intervals.ToRanges` | RangeList.js:60-87 | the grouping is empty exactly for empty input, has at most one range per point, starts at the first point and ends one past the last point |
| `RangeLists.RangeList.ConvertToRanges` | RangeList.js:60-87 | the grouping loop (current run, previous point, accumulated runs, final `[first, last + 1)` map) returns `ToRanges(list)` for every input, sorted or not |
| `Intervals.ToRangesCoversPoints` | RangeList.js:60-87 | on a strictly increasing list the ranges cover exactly the list's integers, none is empty, and neighbours leave a gap (`prev.end < next.start`) |
| `Intervals.NormalizedUnique` | RangeList.js:84-86 | two normalized range lists covering the same integers are equal, so the regrouped result is determined by the covered set |
| `Intervals.NormalizedIsDisjointSorted` | RangeList.js:115 | a normalized list is sorted by start and its ranges are pairwise apart under the closed overlap test |
| `Intervals.SortedPointsIncreasing` | RangeList.js:129-130 | on a list sorted by start whose ranges do not intersect, the concatenated points are strictly increasing |
| `Points.SortedDistinct` | RangeList.js:110-112 | de-duplicating and sorting numerically gives a strictly increasing list with exactly the input's elements |
| `Points.IncreasingUnique` | RangeList.js:110-112 | a strictly increasing list is determined by its elements, so any sorting algorithm gives the same result |
| `Points.IndexOf` | RangeList.js:134-135 | `indexOf` returns -1 exactly when the value is absent, and otherwise a position holding the value with no earlier occurrence |
| `Points.IndexOfFirst` | RangeList.js:135 | the first position holding a value is what `indexOf` returns |
| `Points.Without` | RangeList.js:133-138 | the points left after removal are exactly the old points minus the removed ones |
| `Points.WithoutIncreasing` | RangeList.js:133-138 | removing points from a strictly increasing list leaves it strictly increasing |
| `RangeLists.RangeList.SpliceRemoved` | RangeList.js:131-138 | the loop over a copy that splices out the first occurrence of each point to remove yields the list's points without the removed ones, in their original order |
| `RangeLists.RangeList.constructor` | RangeList.js:6-8 | a new range list is empty and satisfies the store invariant |
| `RangeLists.RangeList.Add` | RangeList.js:93-116 | an invalid range (not two bounds, or start > end) is rejected and nothing changes; otherwise the list becomes `AfterAdd` of the old one, covers the old integers together with the new range's, and keeps its ranges well formed and pairwise apart |
| `RangeLists.AddIsUnion` | RangeList.js:99-115 | on both paths of `add` the covered integers become the old ones together with those of the new range |
| `RangeLists.AddMergeIsNormalized` | RangeList.js:104-115 | when the new range meets a stored one, the new list is sorted, has no empty range and leaves a gap between neighbours |
| `RangeLists.AddMergeIsCanonical` | RangeList.js:104-115 | on the merge path the new list is the one normalized list that covers the old integers together with the new range's |
| `RangeLists.AddKeepsDisjoint` | RangeList.js:99-115 | both paths of `add` keep every stored range well formed and no two of them intersecting |
| `RangeLists.AddZeroLengthKeepsCovered` | RangeList.js:99-115 | adding a zero-length range never changes the covered integers |
| `RangeLists.RangeList.Remove` | RangeList.js:118-141 | an invalid range, or one meeting no stored range, is rejected and nothing changes; otherwise the list becomes `AfterRemove` of the old one; on a list sorted by start the covered integers become the old ones minus the removed range's and the list stays sorted with its ranges apart |
| `Intervals.HasNoIntersactionToAllExistingRange` | RangeList.js:54-58 | for well-formed ranges the test holds exactly when the given range's closed span is apart from every stored range's; when it holds, none of the given range's integers is stored, so the no-op of `remove` (RangeList.js:124-127) is already the set difference |
| `RangeLists.RemoveIsDifference` | RangeList.js:129-140 | on a list sorted by start, `remove` covers exactly the old integers minus the removed range's, keeps the list sorted and apart, and normalizes it when it splices |
| `RangeLists.RemoveIsCanonical` | RangeList.js:129-140 | when `remove` splices a sorted list, the new list is the one normalized list covering the old integers minus the removed range's |
| `RangeLists.AddThenRemoveFromEmpty` | RangeList.js:93-141 | adding a valid range to the empty list and removing the same range leaves the empty list |
| `DemoScript.AddFirstRange` | RangeList.js:154-155 | `add([1, 5])` on the empty list gives `[1, 5)` |
| `DemoScript.AddSeparateRange` | RangeList.js:156-157 | `add([10, 20])` gives `[1, 5) [10, 20)` |
| `DemoScript.AddZeroLengthAtEnd` | RangeList.js:158-159 | `add([20, 20])` leaves `[1, 5) [10, 20)` |
| `DemoScript.AddAdjacentRange` | RangeList.js:160-161 | `add([20, 21])` gives `[1, 5) [10, 21)` |
| `DemoScript.AddCoveredRange` | RangeList.js:162-163 | `add([2, 4])` leaves `[1, 5) [10, 21)` |
| `DemoScript.AddOverlappingRange` | RangeList.js:164-165 | `add([3, 8])` gives `[1, 8) [10, 21)` |
| `DemoScript.RemoveZeroLength` | RangeList.js:166-167 | `remove([10, 10])` leaves `[1, 8) [10, 21)` |
| `DemoScript.RemoveFirstPoint` | RangeList.js:168-169 | `remove([10, 11])` gives `[1, 8) [11, 21)` |
| `DemoScript.RemoveSplits` | RangeList.js:170-171 | `remove([15, 17])` gives `[1, 8) [11, 15) [17, 21)` |
| `DemoScript.RemoveAcrossRanges` | RangeList.js:172-173 | `remove([3, 19])` gives `[1, 3) [19, 21)` |
| `DemoScript.FastPathStoresEmptyRange` | RangeList.js:99-101 | `add([30, 30])` on `[1, 5)` stores the empty range `[30, 30]`, so the list is not normalized |
| `DemoScript.FastPathAppendsOutOfOrder` | RangeList.js:99-101 | `add([1, 5])` on `[10, 20)` appends after it, so the list is not sorted |
| `DemoScript.AddTwiceReorders` | RangeList.js:99-115 | adding `[1, 5]` again to `[10, 20) [1, 5)` reorders the list to `[1, 5) [10, 20)` |
| `DemoScript.UnsortedStoreIsReachable` | RangeList.js:99-101 | `add([5, 6])` then `add([1, 3])` stores `[5, 6) [1, 3)` |
| `DemoScript.UnsortedStorePoints` | RangeList.js:129-130 | the concatenated points of `[5, 6) [1, 3)` are `5, 1, 2` |
| `DemoScript.RemoveOnUnsortedStore` | RangeList.js:60-87 | `remove([2, 3])` on `[5, 6) [1, 3)` stores the reversed range `[5, 2)`, which covers nothing, while the set difference is `{1, 5}` |
| `DemoScript.ZeroLengthRemoveOnUnsortedStore` | RangeList.js:60-87 | `remove([5, 5])` on `[5, 6) [1, 3)` meets `[5, 6)` under the closed test and stores the reversed range `[5, 3)`, which covers nothing, while the set difference is `{1, 2, 5}` |

## Left out

- Console output: the diagnostics of `add` and `remove` and the `print` method (`RangeList.js:95`, `:120`, `:125`, `:143-149`) are I/O. The model keeps only the return values and `ranges`.
- `formatRangeForOutput` (`RangeList.js:89-91`) is string formatting and has no bearing on the stored ranges.
- `deepCopy` through JSON (`RangeList.js:1-3`) is a plain copy of an integer sequence here; Dafny sequences are values.
- JavaScript coercions in `isValidRange` are not modelled: `Array.isArray`, `isNaN` accepting numeric strings, and non-integer bounds. When `end - start` is a whole number the source expands and regroups fractional points (`[0.5, 2.5]` gives the points 0.5 and 1.5). The fast path stores a range of fractional width without expanding it, and the first later expansion of that range throws a RangeError. The model's bounds are `int` and the input is a `seq<int>`. Integers beyond 2^53, where JavaScript numbers lose precision, are not modelled either.
- The `remove` parameter of `getListByRange` (`RangeList.js:10`, `:12`) is fixed at its default 0, since no caller passes it.
- The demonstration driver (`RangeList.js:152-173`) is not modelled as code. Its expected outputs are the `DemoScript` lemmas.
- Aliasing: the fast path of `add` stores the caller's own array. A later change to that array by the caller would change the stored range. The model stores a value.
- `Intervals.GetListByRange`: requires `start <= end`, because in the source `Array(size)` throws on a negative size. Every caller in the class passes a stored or validated range.
- `Intervals.GetListByRange`: does not model the RangeError that `Array(size)` (`RangeList.js:13`) throws for a size of 2^32 or more, which is not a valid array length. A valid `add([0, 4294967296])` that meets a stored range throws there, and so does a `remove` of such a range that passes the overlap test. `AfterAdd` and `AfterRemove` return a list in these cases.
- `RangeLists.RangeList.MergeLists`: does not model the engine's limit on spreading a long point list into the arguments of `push` (`RangeList.js:23`). Past that limit the call throws, and the limit depends on the engine. The model concatenates lists of any length.
- `RangeLists.RangeList.Add`: requires the store invariant `Valid()` (well-formed ranges, pairwise apart). The constructor establishes it, and every `add` keeps it. A `remove` on an unsorted list can break it (see the next line), and an `add` after that is not modelled.
- `RangeLists.RangeList.Remove`: requires `Valid()`. It promises the set difference, and `Valid()` afterwards, only when the list is sorted by start or the call is rejected. On an unsorted list the source can store reversed ranges (`DemoScript.RemoveOnUnsortedStore`, `DemoScript.ZeroLengthRemoveOnUnsortedStore`), though not always: `remove([1, 3])` on `[5, 6) [1, 3)` leaves the correct `[5, 6)`. The next expansion of such a range would throw, and the model makes no promise about calls after that.
- Performance: the model follows the point enumeration, so its cost is proportional to the span of the ranges, as in the source.
