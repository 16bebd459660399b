/**
 * Half-open integer ranges `[start, end)`, the predicates the range list
 * applies to them, the expansion of a range into its points and the
 * regrouping of a point list into ranges.
 */
module Intervals {
  import opened Points

  /** A stored range `[start, end)`. */
  datatype Range = Range(start: int, end: int)

  predicate WellFormed(r: Range)
  {
    r.start <= r.end
  }

  predicate AllWellFormed(ranges: seq<Range>)
  {
    forall i :: 0 <= i < |ranges| ==> WellFormed(ranges[i])
  }

  /**
   * `x` lies in the half-open range `[start, end)`. `Span` names this
   * predicate as the trigger of its comprehension, so that membership in a
   * span is instantiated through one term; the comprehension itself spells
   * out the bounds, from which Dafny sees that the set is finite.
   */
  predicate Contains(r: Range, x: int)
  {
    r.start <= x < r.end
  }

  /** `x` lies between the bounds of a range, both bounds included; the trigger of `ClosedSpan`, as `Contains` is of `Span`. */
  predicate ContainsClosed(r: Range, x: int)
  {
    r.start <= x <= r.end
  }

  /** The integers a range contains, end excluded. */
  function Span(r: Range): set<int>
  {
    set x {:trigger Contains(r, x)} | r.start <= x < r.end
  }

  /** The integers between the bounds of a range, both bounds included. */
  function ClosedSpan(r: Range): set<int>
  {
    set x {:trigger ContainsClosed(r, x)} | r.start <= x <= r.end
  }

  /** The integers covered by a list of ranges. */
  function Covered(ranges: seq<Range>): set<int>
  {
    if ranges == [] then {} else Covered(ranges[..|ranges| - 1]) + Span(ranges[|ranges| - 1])
  }

  /**
   * A caller-supplied range is accepted exactly when it has two bounds in
   * order, so that its expansion into points has a non-negative size.
   */
  predicate IsValidRange(range: seq<int>): (valid: bool)
    ensures valid <==> |range| == 2 && WellFormed(ToRange(range))
    ensures valid ==> |GetListByRange(ToRange(range))| == range[1] - range[0]
  {
    |range| == 2 && range[0] <= range[1]
  }

  function ToRange(range: seq<int>): Range
    requires |range| == 2
  {
    Range(range[0], range[1])
  }

  /**
   * The overlap test of the range list: both bounds compared as closed, so
   * two well-formed ranges meet exactly when their closed spans share an
   * integer (touching ranges such as `[1, 5)` and `[5, 8)` meet).
   */
  predicate HasIntersaction(existingRange: Range, newRange: Range): (meets: bool)
    ensures WellFormed(existingRange) && WellFormed(newRange) ==>
      (meets <==> ClosedSpan(existingRange) * ClosedSpan(newRange) != {})
  {
    ClosedBoundsOverlap(existingRange, newRange);
    !(newRange.end < existingRange.start || newRange.start > existingRange.end)
  }

  /**
   * No stored range meets the given one. Then the closed spans are pairwise
   * apart, and in particular none of the given range's integers is stored.
   */
  predicate HasNoIntersactionToAllExistingRange(ranges: seq<Range>, newRange: Range): (none: bool)
    ensures AllWellFormed(ranges) && WellFormed(newRange) ==>
      (none <==> forall i :: 0 <= i < |ranges| ==> ClosedSpan(ranges[i]) * ClosedSpan(newRange) == {})
    ensures AllWellFormed(ranges) && WellFormed(newRange) && none ==> Covered(ranges) * Span(newRange) == {}
  {
    ApartRangesMissCovered(ranges, newRange);
    forall i :: 0 <= i < |ranges| ==> !HasIntersaction(ranges[i], newRange)
  }

  /** The points of a range, in ascending order. */
  function GetListByRange(range: Range): (list: seq<int>)
    requires WellFormed(range)
    ensures |list| == range.end - range.start
    ensures StrictlyIncreasing(list)
    ensures Elems(list) == Span(range)
  {
    var list := seq(range.end - range.start, number => number + range.start);
    assert forall x :: x in Span(range) ==> list[x - range.start] == x;
    list
  }

  /** The point list of every stored range, in stored order. */
  function GetAllCurrentLists(ranges: seq<Range>): (lists: seq<seq<int>>)
    requires AllWellFormed(ranges)
    ensures |lists| == |ranges|
    ensures forall i :: 0 <= i < |ranges| ==> Elems(lists[i]) == Span(ranges[i])
  {
    seq(|ranges|, i requires 0 <= i < |ranges| => GetListByRange(ranges[i]))
  }

  /**
   * The grouping of convertToRanges: scanning left to right, a point more
   * than one above its predecessor starts a new group, any other point joins
   * the current group, and each group becomes `[first, last + 1)`.
   */
  function ToRanges(list: seq<int>): (ranges: seq<Range>)
    ensures |ranges| == 0 <==> |list| == 0
    ensures |ranges| <= |list|
    ensures |list| > 0 ==> ranges[0].start == list[0] && ranges[|ranges| - 1].end == list[|list| - 1] + 1
  {
    if |list| == 0 then []
    else if |list| == 1 then [Range(list[0], list[0] + 1)]
    else
      var previous := ToRanges(list[..|list| - 1]);
      var number := list[|list| - 1];
      if number - list[|list| - 2] > 1 then previous + [Range(number, number + 1)]
      else ExtendLast(previous, number)
  }

  /**
   * The canonical form of a range list: no empty range, and at least one
   * uncovered integer between neighbours (so they are also sorted).
   */
  ghost predicate Normalized(ranges: seq<Range>)
  {
    && (forall i :: 0 <= i < |ranges| ==> ranges[i].start < ranges[i].end)
    && (forall i, j :: 0 <= i < j < |ranges| && j == i + 1 ==> ranges[i].end < ranges[j].start)
  }

  /** The invariant of the store: ranges well formed and pairwise not intersecting. */
  predicate Disjoint(ranges: seq<Range>)
  {
    && AllWellFormed(ranges)
    && (forall i, j :: 0 <= i < j < |ranges| ==> !HasIntersaction(ranges[i], ranges[j]))
  }

  predicate SortedByStart(ranges: seq<Range>)
  {
    forall i, j :: 0 <= i < j < |ranges| ==> ranges[i].start <= ranges[j].start
  }

  // ---------------------------------------------------------------------
  // The overlap test

  /** Two well-formed closed intervals share an integer exactly when neither lies wholly past the other. */
  lemma ClosedBoundsOverlap(a: Range, b: Range)
    ensures WellFormed(a) && WellFormed(b) ==>
      (!(b.end < a.start || b.start > a.end) <==> ClosedSpan(a) * ClosedSpan(b) != {})
  {
    if WellFormed(a) && WellFormed(b) {
      if !(b.end < a.start || b.start > a.end) {
        var x := if a.start < b.start then b.start else a.start;
        assert x in ClosedSpan(a) * ClosedSpan(b);
      } else {
        forall x | x in ClosedSpan(a) ensures x !in ClosedSpan(b) {}
      }
    }
  }

  /** When no stored range meets `r`, no stored range holds one of `r`'s integers. */
  lemma ApartRangesMissCovered(ranges: seq<Range>, r: Range)
    ensures AllWellFormed(ranges) && WellFormed(r) && (forall i :: 0 <= i < |ranges| ==> !HasIntersaction(ranges[i], r)) ==>
      Covered(ranges) * Span(r) == {}
  {
    if AllWellFormed(ranges) && WellFormed(r) && (forall i :: 0 <= i < |ranges| ==> !HasIntersaction(ranges[i], r)) {
      forall x | x in Covered(ranges) ensures x !in Span(r) {
        CoveredMember(ranges, x);
        var i :| 0 <= i < |ranges| && x in Span(ranges[i]);
        assert !HasIntersaction(ranges[i], r);
      }
    }
  }

  lemma IntersactionSymmetric(a: Range, b: Range)
    ensures HasIntersaction(a, b) <==> HasIntersaction(b, a)
  {
  }

  /** A zero-length range `[x, x]` still meets every stored range whose closed bounds contain x. */
  lemma ZeroLengthIntersaction(a: Range, x: int)
    ensures HasIntersaction(a, Range(x, x)) <==> a.start <= x <= a.end
  {
  }

  // ---------------------------------------------------------------------
  // Covered sets

  /** Two ranges that overlap or touch cover the same integers as the range spanning both. */
  lemma SpanJoin(a: int, b: int, c: int, d: int)
    requires a <= c <= b <= d
    ensures Span(Range(a, b)) + Span(Range(c, d)) == Span(Range(a, d))
  {
    assert forall x :: x in Span(Range(a, d)) ==> x in Span(Range(a, b)) || x in Span(Range(c, d));
  }

  lemma {:induction false} CoveredAppend(a: seq<Range>, b: seq<Range>)
    ensures Covered(a + b) == Covered(a) + Covered(b)
    decreases |b|
  {
    if b == [] {
      assert a + b == a;
    } else {
      var init := b[..|b| - 1];
      assert (a + b)[..|a + b| - 1] == a + init;
      assert (a + b)[|a + b| - 1] == b[|b| - 1];
      CoveredAppend(a, init);
    }
  }

  lemma {:induction false} CoveredMember(ranges: seq<Range>, x: int)
    ensures x in Covered(ranges) <==> exists i :: 0 <= i < |ranges| && x in Span(ranges[i])
  {
    if ranges != [] {
      var init := ranges[..|ranges| - 1];
      CoveredMember(init, x);
      if x in Covered(init) {
        var i :| 0 <= i < |init| && x in Span(init[i]);
        assert x in Span(ranges[i]);
      }
    }
  }

  /** Every point of a store lies between the first start and the last end of a normalized list. */
  lemma {:induction false} NormalizedBounds(ranges: seq<Range>)
    requires Normalized(ranges) && ranges != []
    ensures forall x :: x in Covered(ranges) ==> ranges[0].start <= x < ranges[|ranges| - 1].end
  {
    var init := ranges[..|ranges| - 1];
    var last := ranges[|ranges| - 1];
    assert Covered(ranges) == Covered(init) + Span(last);
    if init != [] {
      NormalizedBounds(init);
      assert init[0] == ranges[0];
      assert init[|init| - 1] == ranges[|ranges| - 2];
      assert ranges[|ranges| - 2].end < last.start;
      assert init[|init| - 1].start in Span(init[|init| - 1]);
      assert ranges[0].start < last.start;
    }
  }

  /** Expanding every stored range into points and concatenating the lists covers exactly the store. */
  lemma {:induction false} AllPointsCovered(ranges: seq<Range>)
    requires AllWellFormed(ranges)
    ensures Elems(Flatten(GetAllCurrentLists(ranges))) == Covered(ranges)
  {
    if ranges != [] {
      var init := ranges[..|ranges| - 1];
      var lists := GetAllCurrentLists(ranges);
      assert lists[..|lists| - 1] == GetAllCurrentLists(init);
      AllPointsCovered(init);
      ElemsAppend(Flatten(GetAllCurrentLists(init)), lists[|lists| - 1]);
    }
  }

  /**
   * On a sorted store whose ranges do not intersect, the concatenated point
   * lists come out strictly increasing.
   */
  lemma {:induction false} SortedPointsIncreasing(ranges: seq<Range>)
    requires Disjoint(ranges) && SortedByStart(ranges)
    ensures StrictlyIncreasing(Flatten(GetAllCurrentLists(ranges)))
  {
    if ranges != [] {
      var init := ranges[..|ranges| - 1];
      var last := ranges[|ranges| - 1];
      var lists := GetAllCurrentLists(ranges);
      assert lists[..|lists| - 1] == GetAllCurrentLists(init);
      SortedPointsIncreasing(init);
      AllPointsCovered(init);
      var front := Flatten(GetAllCurrentLists(init));
      var back := GetListByRange(last);
      forall x, y | x in front && y in back ensures x < y {
        assert x in Elems(front) && y in Elems(back);
        CoveredMember(init, x);
        var i :| 0 <= i < |init| && x in Span(init[i]);
        assert !HasIntersaction(ranges[i], ranges[|ranges| - 1]);
      }
      IncreasingAppend(front, back);
    }
  }

  // ---------------------------------------------------------------------
  // Regrouping points into ranges

  /**
   * On a strictly increasing point list the grouping covers exactly the
   * list's points and yields a normalized list of ranges.
   */
  lemma {:induction false} ToRangesCoversPoints(list: seq<int>)
    requires StrictlyIncreasing(list)
    ensures Covered(ToRanges(list)) == Elems(list)
    ensures Normalized(ToRanges(list))
  {
    if |list| == 1 {
      SinglePointGroup(list);
    } else if |list| > 1 {
      IncreasingPrefix(list);
      ToRangesCoversPoints(list[..|list| - 1]);
      CoversPointsStep(list);
    }
  }

  /** A single point is grouped into the one range holding just that point. */
  lemma SinglePointGroup(list: seq<int>)
    requires |list| == 1
    ensures Covered(ToRanges(list)) == Elems(list)
    ensures Normalized(ToRanges(list))
  {
    var x := list[0];
    assert list == [x];
    assert ToRanges(list) == [Range(x, x + 1)];
    assert [Range(x, x + 1)] == [] + [Range(x, x + 1)];
    AppendNewGroup([], x);
    assert Elems(list) == {x};
  }

  /** The inductive step of `ToRangesCoversPoints`, for a list of at least two points. */
  lemma CoversPointsStep(list: seq<int>)
    requires |list| >= 2 && list[|list| - 2] < list[|list| - 1]
    requires Covered(ToRanges(list[..|list| - 1])) == Elems(list[..|list| - 1])
    requires Normalized(ToRanges(list[..|list| - 1]))
    ensures Covered(ToRanges(list)) == Elems(list)
    ensures Normalized(ToRanges(list))
  {
    ToRangesStep(list);
    ElemsSnoc(list);
  }

  /** One step of the grouping on increasing input: the new point is covered and the result stays normalized. */
  lemma {:induction false} ToRangesStep(list: seq<int>)
    requires |list| >= 2 && list[|list| - 2] < list[|list| - 1]
    requires Normalized(ToRanges(list[..|list| - 1]))
    ensures Normalized(ToRanges(list))
    ensures Covered(ToRanges(list)) == Covered(ToRanges(list[..|list| - 1])) + {list[|list| - 1]}
  {
    var init := list[..|list| - 1];
    var number := list[|list| - 1];
    var previous := ToRanges(init);
    assert init[|init| - 1] == list[|list| - 2];
    if number - list[|list| - 2] > 1 {
      AppendNewGroup(previous, number);
    } else {
      ExtendLastGroup(previous, number);
    }
  }

  /** A point beyond the gap after the last range starts a range of its own. */
  lemma {:induction false} AppendNewGroup(previous: seq<Range>, number: int)
    requires Normalized(previous)
    requires previous != [] ==> previous[|previous| - 1].end < number
    ensures Normalized(previous + [Range(number, number + 1)])
    ensures Covered(previous + [Range(number, number + 1)]) == Covered(previous) + {number}
  {
    var ranges := previous + [Range(number, number + 1)];
    assert ranges[..|ranges| - 1] == previous;
    assert Span(Range(number, number + 1)) == {number};
  }

  /** The point right at the end of the last range extends that range by one. */
  lemma {:induction false} ExtendLastGroup(previous: seq<Range>, number: int)
    requires Normalized(previous) && previous != []
    requires previous[|previous| - 1].end == number
    ensures Normalized(ExtendLast(previous, number))
    ensures Covered(ExtendLast(previous, number)) == Covered(previous) + {number}
  {
    var k := |previous| - 1;
    var front := previous[..k];
    var joined := Range(previous[k].start, number + 1);
    var ranges := front + [joined];
    assert ranges[..|ranges| - 1] == front;
    assert previous == front + [previous[k]];
    assert Covered(previous) == Covered(front) + Span(previous[k]);
    assert Span(joined) == Span(previous[k]) + {number};
    assert Covered(ranges) == Covered(front) + Span(joined);
  }

  /** `ranges` with its last range stretched to end just after `number`. */
  function ExtendLast(ranges: seq<Range>, number: int): seq<Range>
    requires ranges != []
  {
    ranges[..|ranges| - 1] + [Range(ranges[|ranges| - 1].start, number + 1)]
  }

  /**
   * A normalized list of ranges is determined by the integers it covers:
   * two normalized lists covering the same set are equal.
   */
  lemma {:induction false} NormalizedUnique(a: seq<Range>, b: seq<Range>)
    requires Normalized(a) && Normalized(b)
    requires Covered(a) == Covered(b)
    ensures a == b
    decreases |a|
  {
    if a != [] {
      SplitLast(a);
    }
    if b != [] {
      SplitLast(b);
    }
    if a != [] && b != [] {
      var fa, fb := a[..|a| - 1], b[..|b| - 1];
      LastAgrees(a, b);
      var last := a[|a| - 1];
      assert Covered(fa) == Covered(fb) by {
        forall x ensures x in Covered(fa) <==> x in Covered(fb) {
          if x in Covered(fa) || x in Covered(fb) {
            assert x !in Span(last);
          }
        }
      }
      NormalizedUnique(fa, fb);
      assert a == fa + [last] && b == fb + [last];
    }
  }

  /** The last range of a normalized list, and the integers covered before the gap in front of it. */
  lemma {:induction false} SplitLast(a: seq<Range>)
    requires Normalized(a) && a != []
    ensures a[|a| - 1].start in Covered(a)
    ensures Covered(a) == Covered(a[..|a| - 1]) + Span(a[|a| - 1])
    ensures Normalized(a[..|a| - 1])
    ensures Covered(a[..|a| - 1]) !! Span(a[|a| - 1])
    ensures a[|a| - 1].start - 1 !in Covered(a)
  {
    var front := a[..|a| - 1];
    assert a[|a| - 1].start in Span(a[|a| - 1]);
    if front != [] {
      NormalizedBounds(front);
      assert front[|front| - 1] == a[|a| - 2];
    }
  }

  /** Two normalized lists covering the same integers end with the same range. */
  lemma {:induction false} LastAgrees(a: seq<Range>, b: seq<Range>)
    requires Normalized(a) && Normalized(b) && a != [] && b != []
    requires Covered(a) == Covered(b)
    ensures a[|a| - 1] == b[|b| - 1]
  {
    var la, lb := a[|a| - 1], b[|b| - 1];
    SplitLast(a);
    SplitLast(b);
    NormalizedBounds(a);
    NormalizedBounds(b);
    // the last covered integer is one below the last end
    assert la.end - 1 in Span(la) && lb.end - 1 in Span(lb);
    assert la.end == lb.end;
    // the integer just before each last start is uncovered
    assert la.start - 1 !in Covered(a) && lb.start - 1 !in Covered(b);
    assert la.start < lb.start ==> lb.start - 1 in Span(la);
    assert lb.start < la.start ==> la.start - 1 in Span(lb);
  }

  /** A normalized list is sorted and its ranges are pairwise apart under the closed test. */
  lemma NormalizedIsDisjointSorted(ranges: seq<Range>)
    requires Normalized(ranges)
    ensures Disjoint(ranges) && SortedByStart(ranges)
  {
    forall i, j | 0 <= i < j < |ranges| ensures ranges[i].end < ranges[j].start {
      NormalizedGap(ranges, i, j);
    }
  }

  lemma {:induction false} NormalizedGap(ranges: seq<Range>, i: int, j: int)
    requires Normalized(ranges) && 0 <= i < j < |ranges|
    ensures ranges[i].end < ranges[j].start
    decreases j - i
  {
    if i + 1 < j {
      NormalizedGap(ranges, i + 1, j);
    }
  }
}
