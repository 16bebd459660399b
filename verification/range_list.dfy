/**
 * The range list: a store of half-open ranges that `Add` and `Remove`
 * rebuild by expanding every range into its points, combining the points
 * and regrouping them into ranges.
 */
module RangeLists {
  import opened Points
  import opened Intervals

  /** The store after `add(r)` of a valid range `r`. */
  function AfterAdd(ranges: seq<Range>, r: Range): seq<Range>
    requires AllWellFormed(ranges) && WellFormed(r)
  {
    if HasNoIntersactionToAllExistingRange(ranges, r) then ranges + [r]
    else ToRanges(SortedDistinct(Flatten(GetAllCurrentLists(ranges) + [GetListByRange(r)])))
  }

  /** The store after `remove(r)` of a valid range `r`. */
  function AfterRemove(ranges: seq<Range>, r: Range): seq<Range>
    requires AllWellFormed(ranges) && WellFormed(r)
  {
    if HasNoIntersactionToAllExistingRange(ranges, r) then ranges
    else ToRanges(Without(Flatten(GetAllCurrentLists(ranges)), GetListByRange(r)))
  }

  /** On either path `add` covers exactly the old integers together with those of the new range. */
  lemma AddIsUnion(ranges: seq<Range>, r: Range)
    requires AllWellFormed(ranges) && WellFormed(r)
    ensures Covered(AfterAdd(ranges, r)) == Covered(ranges) + Span(r)
  {
    if HasNoIntersactionToAllExistingRange(ranges, r) {
      CoveredAppend(ranges, [r]);
      assert [r][..0] == [];
    } else {
      var lists := GetAllCurrentLists(ranges);
      var newList := GetListByRange(r);
      FlattenSnoc(lists, newList);
      ElemsAppend(Flatten(lists), newList);
      AllPointsCovered(ranges);
      ToRangesCoversPoints(SortedDistinct(Flatten(lists + [newList])));
    }
  }

  /** When the new range meets a stored one, `add` leaves the store in normalized form. */
  lemma AddMergeIsNormalized(ranges: seq<Range>, r: Range)
    requires AllWellFormed(ranges) && WellFormed(r)
    requires !HasNoIntersactionToAllExistingRange(ranges, r)
    ensures Normalized(AfterAdd(ranges, r))
  {
    var lists := GetAllCurrentLists(ranges);
    ToRangesCoversPoints(SortedDistinct(Flatten(lists + [GetListByRange(r)])));
  }

  /** Both paths of `add` keep the store's ranges well formed and pairwise apart. */
  lemma AddKeepsDisjoint(ranges: seq<Range>, r: Range)
    requires Disjoint(ranges) && WellFormed(r)
    ensures Disjoint(AfterAdd(ranges, r))
  {
    if HasNoIntersactionToAllExistingRange(ranges, r) {
      var after := ranges + [r];
      forall i, j | 0 <= i < j < |after| ensures !HasIntersaction(after[i], after[j]) {
        if j == |ranges| {
          assert !HasIntersaction(ranges[i], r);
        } else {
          assert after[i] == ranges[i] && after[j] == ranges[j];
        }
      }
    } else {
      AddMergeIsNormalized(ranges, r);
      NormalizedIsDisjointSorted(AfterAdd(ranges, r));
    }
  }

  /**
   * On the merge path the new store is THE normalized list covering the old
   * integers and the new range: any normalized list covering that set is it.
   */
  lemma AddMergeIsCanonical(ranges: seq<Range>, r: Range, expected: seq<Range>)
    requires AllWellFormed(ranges) && WellFormed(r)
    requires !HasNoIntersactionToAllExistingRange(ranges, r)
    requires Normalized(expected) && Covered(expected) == Covered(ranges) + Span(r)
    ensures AfterAdd(ranges, r) == expected
  {
    AddMergeIsNormalized(ranges, r);
    AddIsUnion(ranges, r);
    NormalizedUnique(AfterAdd(ranges, r), expected);
  }

  /** Adding a zero-length range never changes the covered integers. */
  lemma AddZeroLengthKeepsCovered(ranges: seq<Range>, x: int)
    requires AllWellFormed(ranges)
    ensures Covered(AfterAdd(ranges, Range(x, x))) == Covered(ranges)
  {
    AddIsUnion(ranges, Range(x, x));
    assert Span(Range(x, x)) == {};
  }

  /**
   * On a store sorted by start, `remove` covers exactly the old integers
   * minus those of the removed range, and keeps the store sorted with its
   * ranges pairwise apart; when it splices, the result is normalized.
   */
  lemma RemoveIsDifference(ranges: seq<Range>, r: Range)
    requires Disjoint(ranges) && SortedByStart(ranges) && WellFormed(r)
    ensures Covered(AfterRemove(ranges, r)) == Covered(ranges) - Span(r)
    ensures Disjoint(AfterRemove(ranges, r)) && SortedByStart(AfterRemove(ranges, r))
    ensures !HasNoIntersactionToAllExistingRange(ranges, r) ==> Normalized(AfterRemove(ranges, r))
  {
    if HasNoIntersactionToAllExistingRange(ranges, r) {
      forall x | x in Covered(ranges) ensures x !in Span(r) {
        assert x !in Covered(ranges) * Span(r);
      }
    } else {
      var points := Flatten(GetAllCurrentLists(ranges));
      var numbersToRemove := GetListByRange(r);
      SortedPointsIncreasing(ranges);
      AllPointsCovered(ranges);
      WithoutIncreasing(points, numbersToRemove);
      ToRangesCoversPoints(Without(points, numbersToRemove));
      NormalizedIsDisjointSorted(AfterRemove(ranges, r));
    }
  }

  /**
   * When `remove` splices a sorted store, the new store is THE normalized
   * list covering the old integers minus those of the removed range.
   */
  lemma RemoveIsCanonical(ranges: seq<Range>, r: Range, expected: seq<Range>)
    requires Disjoint(ranges) && SortedByStart(ranges) && WellFormed(r)
    requires !HasNoIntersactionToAllExistingRange(ranges, r)
    requires Normalized(expected) && Covered(expected) == Covered(ranges) - Span(r)
    ensures AfterRemove(ranges, r) == expected
  {
    RemoveIsDifference(ranges, r);
    NormalizedUnique(AfterRemove(ranges, r), expected);
  }

  /** Adding a valid range to the empty list and removing it again leaves the empty list. */
  lemma AddThenRemoveFromEmpty(a: int, b: int)
    requires a <= b
    ensures AfterRemove(AfterAdd([], Range(a, b)), Range(a, b)) == []
  {
    var r := Range(a, b);
    assert AfterAdd([], r) == [r];
    assert !HasNoIntersactionToAllExistingRange([r], r) by {
      assert HasIntersaction([r][0], r);
    }
    assert [r][..0] == [];
    RemoveIsCanonical([r], r, []);
  }

  /** Each run of points `[first, ..., last]` as the range `[first, last + 1)`. */
  function RunBounds(groups: seq<seq<int>>): seq<Range>
    requires forall k :: 0 <= k < |groups| ==> groups[k] != []
  {
    seq(|groups|, k requires 0 <= k < |groups| => Range(groups[k][0], groups[k][|groups[k]| - 1] + 1))
  }

  lemma RunBoundsSnoc(groups: seq<seq<int>>, last: seq<int>)
    requires forall k :: 0 <= k < |groups| ==> groups[k] != []
    requires last != []
    ensures RunBounds(groups + [last]) == RunBounds(groups) + [Range(last[0], last[|last| - 1] + 1)]
  {
  }

  /** The first point of the grouping loop opens the first run. */
  lemma FirstGroup(list: seq<int>)
    requires list != []
    ensures RunBounds([[list[0]]]) == ToRanges(list[..1])
  {
    assert list[..1] == [list[0]];
  }

  /** One point of the grouping loop: it either closes the current run and opens a new one, or joins the run. */
  lemma GroupingStep(list: seq<int>, i: int, groups: seq<seq<int>>, tempList: seq<int>)
    requires 0 < i < |list|
    requires forall k :: 0 <= k < |groups| ==> groups[k] != []
    requires tempList != [] && tempList[|tempList| - 1] == list[i - 1]
    requires RunBounds(groups + [tempList]) == ToRanges(list[..i])
    ensures list[i] - list[i - 1] > 1 ==> RunBounds(groups + [tempList] + [[list[i]]]) == ToRanges(list[..i + 1])
    ensures list[i] - list[i - 1] <= 1 ==> RunBounds(groups + [tempList + [list[i]]]) == ToRanges(list[..i + 1])
  {
    var number := list[i];
    assert list[..i + 1][..i] == list[..i];
    assert list[..i + 1][i - 1] == list[i - 1];
    RunBoundsSnoc(groups, tempList);
    if number - list[i - 1] > 1 {
      RunBoundsSnoc(groups + [tempList], [number]);
    } else {
      RunBoundsSnoc(groups, tempList + [number]);
    }
  }

  /**
   * One point of the splice loop: when the point is to be removed, its first
   * occurrence in the partly spliced list is the point itself, just after the
   * points kept so far.
   */
  lemma SpliceStep(mirrored: seq<int>, k: int, drop: seq<int>)
    requires 0 <= k < |mirrored|
    ensures var kept := Without(mirrored[..k], drop);
      var numbers := kept + mirrored[k..];
      && (mirrored[k] in drop ==>
            && IndexOf(numbers, mirrored[k]) == |kept|
            && Without(mirrored[..k + 1], drop) == kept)
      && (mirrored[k] !in drop ==> Without(mirrored[..k + 1], drop) == kept + [mirrored[k]])
      && mirrored[k + 1..] == mirrored[k..][1..]
  {
    var kept := Without(mirrored[..k], drop);
    var numbers := kept + mirrored[k..];
    var number := mirrored[k];
    assert mirrored[..k + 1][..k] == mirrored[..k];
    if number in drop {
      assert number !in Elems(kept);
      assert numbers[|kept|] == number;
      assert numbers[..|kept|] == kept;
      IndexOfFirst(numbers, number, |kept|);
    }
  }

  class RangeList {
    var ranges: seq<Range>

    /** The stored ranges are well formed and no two of them intersect. */
    ghost predicate Valid()
      reads this
    {
      Disjoint(ranges)
    }

    constructor ()
      ensures Valid() && ranges == []
    {
      ranges := [];
    }

    /** Concatenates the point lists in order. */
    static method MergeLists(flatenRanges: seq<seq<int>>) returns (merged: seq<int>)
      ensures merged == Flatten(flatenRanges)
    {
      merged := [];
      for i := 0 to |flatenRanges|
        invariant merged == Flatten(flatenRanges[..i])
      {
        FlattenSnoc(flatenRanges[..i], flatenRanges[i]);
        assert flatenRanges[..i + 1] == flatenRanges[..i] + [flatenRanges[i]];
        merged := merged + flatenRanges[i];
      }
      assert flatenRanges[..|flatenRanges|] == flatenRanges;
    }

    /**
     * Groups a point list into runs (a point more than one above the
     * previous point starts a new run) and turns each run into
     * `[first, last + 1)`.
     */
    static method ConvertToRanges(list: seq<int>) returns (result: seq<Range>)
      ensures result == ToRanges(list)
    {
      var groups: seq<seq<int>> := [];
      var tempList: seq<int> := [];
      var previousNumber := 0;  // null until the first point is read
      for i := 0 to |list|
        invariant (tempList == []) == (i == 0)
        invariant i == 0 ==> groups == []
        invariant forall k :: 0 <= k < |groups| ==> groups[k] != []
        invariant i > 0 ==> previousNumber == list[i - 1] && tempList[|tempList| - 1] == list[i - 1]
        invariant i > 0 ==> RunBounds(groups + [tempList]) == ToRanges(list[..i])
      {
        var number := list[i];
        if tempList == [] {
          tempList := tempList + [number];
          previousNumber := number;
          FirstGroup(list);
          assert i == 0 && groups == [] && tempList == [list[0]];
          continue;
        }
        GroupingStep(list, i, groups, tempList);
        if number - previousNumber > 1 {
          groups := groups + [tempList];
          tempList := [];
          assert tempList + [number] == [number];
        }
        tempList := tempList + [number];
        previousNumber := number;
      }
      if tempList != [] {
        groups := groups + [tempList];
      }
      result := RunBounds(groups);
      assert list[..|list|] == list;
    }

    /**
     * The splice loop of remove: for every point of a copy of the list that
     * is among the points to remove, the first occurrence of that point is
     * cut out of the list.
     */
    static method SpliceRemoved(allCurrentNumbers: seq<int>, numbersToRemove: seq<int>) returns (numbers: seq<int>)
      ensures numbers == Without(allCurrentNumbers, numbersToRemove)
    {
      numbers := allCurrentNumbers;
      var mirroredNumbers := allCurrentNumbers;
      for k := 0 to |mirroredNumbers|
        invariant numbers == Without(mirroredNumbers[..k], numbersToRemove) + mirroredNumbers[k..]
      {
        var number := mirroredNumbers[k];
        SpliceStep(mirroredNumbers, k, numbersToRemove);
        ghost var kept := Without(mirroredNumbers[..k], numbersToRemove);
        assert numbers == kept + mirroredNumbers[k..];
        if IndexOf(numbersToRemove, number) != -1 {
          var index := IndexOf(numbers, number);
          assert index == |kept|;
          assert numbers[..index] == kept && numbers[index + 1..] == mirroredNumbers[k + 1..];
          numbers := numbers[..index] + numbers[index + 1..];
        } else {
          assert numbers == kept + [number] + mirroredNumbers[k + 1..];
        }
      }
      assert mirroredNumbers[..|mirroredNumbers|] == mirroredNumbers;
    }

    /**
     * Adds a range. An invalid range is rejected (the source returns false)
     * and nothing changes; otherwise the covered integers become the union.
     */
    method Add(newRange: seq<int>) returns (rejected: bool)
      requires Valid()
      modifies this
      ensures Valid()
      ensures rejected <==> !IsValidRange(newRange)
      ensures rejected ==> ranges == old(ranges)
      ensures !rejected ==> ranges == AfterAdd(old(ranges), ToRange(newRange))
      ensures !rejected ==> Covered(ranges) == Covered(old(ranges)) + Span(ToRange(newRange))
    {
      if !IsValidRange(newRange) {
        return true;
      }
      var r := ToRange(newRange);
      AddIsUnion(ranges, r);
      AddKeepsDisjoint(ranges, r);
      if HasNoIntersactionToAllExistingRange(ranges, r) {
        ranges := ranges + [r];
        return false;
      }
      var newList := GetListByRange(r);
      var allCurrentLists := GetAllCurrentLists(ranges);
      allCurrentLists := allCurrentLists + [newList];
      var mergedList := MergeLists(allCurrentLists);
      var sortedMergedListWithDuplicationRemoved := SortedDistinct(mergedList);
      ranges := ConvertToRanges(sortedMergedListWithDuplicationRemoved);
      rejected := false;
    }

    /**
     * Removes a range. An invalid range, or one that meets no stored range,
     * is rejected (the source returns false) and nothing changes. On a store
     * sorted by start the covered integers become the difference.
     */
    method Remove(range: seq<int>) returns (rejected: bool)
      requires Valid()
      modifies this
      ensures rejected <==> !IsValidRange(range) || HasNoIntersactionToAllExistingRange(old(ranges), ToRange(range))
      ensures rejected ==> ranges == old(ranges)
      ensures !rejected ==> ranges == AfterRemove(old(ranges), ToRange(range))
      ensures IsValidRange(range) && (rejected || SortedByStart(old(ranges))) ==>
        Covered(ranges) == Covered(old(ranges)) - Span(ToRange(range))
      ensures rejected || SortedByStart(old(ranges)) ==> Valid()
      ensures SortedByStart(old(ranges)) ==> SortedByStart(ranges)
    {
      if !IsValidRange(range) {
        return true;
      }
      var r := ToRange(range);
      if HasNoIntersactionToAllExistingRange(ranges, r) {
        forall x | x in Covered(ranges) ensures x !in Span(r) {
          assert x !in Covered(ranges) * Span(r);
        }
        return true;
      }
      if SortedByStart(ranges) {
        RemoveIsDifference(ranges, r);
      }
      var numbersToRemove := GetListByRange(r);
      var allCurrentNumbers := MergeLists(GetAllCurrentLists(ranges));
      allCurrentNumbers := SpliceRemoved(allCurrentNumbers, numbersToRemove);
      ranges := ConvertToRanges(allCurrentNumbers);
      rejected := false;
    }
  }
}
