/**
 * The expected outputs of the demonstration script at the end of
 * RangeList.js, and a few inputs that show how the two paths of `add` and
 * `remove` behave beyond that script.
 */
module DemoScript {
  import opened Points
  import opened Intervals
  import opened RangeLists

  lemma CoveredPair(a: Range, b: Range)
    ensures Covered([a, b]) == Span(a) + Span(b)
  {
    assert [a, b][..1] == [a];
    assert [a][..0] == [];
    assert Covered([a]) == Span(a);
  }

  lemma CoveredTriple(a: Range, b: Range, c: Range)
    ensures Covered([a, b, c]) == Span(a) + Span(b) + Span(c)
  {
    assert [a, b, c][..2] == [a, b];
    CoveredPair(a, b);
  }

  // ---------------------------------------------------------------------
  // The script: each lemma is one call and the printed result after it.

  /** `add([1, 5])` on the empty list: `[1, 5)`. */
  lemma AddFirstRange()
    ensures AfterAdd([], Range(1, 5)) == [Range(1, 5)]
  {
  }

  /** `add([10, 20])`: it meets nothing and is appended. */
  lemma AddSeparateRange()
    ensures AfterAdd([Range(1, 5)], Range(10, 20)) == [Range(1, 5), Range(10, 20)]
  {
    assert HasNoIntersactionToAllExistingRange([Range(1, 5)], Range(10, 20));
  }

  /** `add([20, 20])`: it touches `[10, 20)` under the closed test, and the regrouping leaves the list as it was. */
  lemma AddZeroLengthAtEnd()
    ensures AfterAdd([Range(1, 5), Range(10, 20)], Range(20, 20)) == [Range(1, 5), Range(10, 20)]
  {
    var before := [Range(1, 5), Range(10, 20)];
    assert HasIntersaction(before[1], Range(20, 20));
    assert Span(Range(20, 20)) == {};
    AddMergeIsCanonical(before, Range(20, 20), before);
  }

  /** `add([20, 21])`: the adjacent range merges into `[10, 21)`. */
  lemma AddAdjacentRange()
    ensures AfterAdd([Range(1, 5), Range(10, 20)], Range(20, 21)) == [Range(1, 5), Range(10, 21)]
  {
    var before := [Range(1, 5), Range(10, 20)];
    assert HasIntersaction(before[1], Range(20, 21));
    CoveredPair(Range(1, 5), Range(10, 20));
    CoveredPair(Range(1, 5), Range(10, 21));
    SpanJoin(10, 20, 20, 21);
    AddMergeIsCanonical(before, Range(20, 21), [Range(1, 5), Range(10, 21)]);
  }

  /** `add([2, 4])`: already covered, nothing changes. */
  lemma AddCoveredRange()
    ensures AfterAdd([Range(1, 5), Range(10, 21)], Range(2, 4)) == [Range(1, 5), Range(10, 21)]
  {
    var before := [Range(1, 5), Range(10, 21)];
    assert HasIntersaction(before[0], Range(2, 4));
    CoveredPair(Range(1, 5), Range(10, 21));
    SpanJoin(1, 2, 2, 5);
    SpanJoin(1, 4, 2, 5);
    AddMergeIsCanonical(before, Range(2, 4), before);
  }

  /** `add([3, 8])`: it overlaps `[1, 5)` and extends it to `[1, 8)`. */
  lemma AddOverlappingRange()
    ensures AfterAdd([Range(1, 5), Range(10, 21)], Range(3, 8)) == [Range(1, 8), Range(10, 21)]
  {
    var before := [Range(1, 5), Range(10, 21)];
    assert HasIntersaction(before[0], Range(3, 8));
    CoveredPair(Range(1, 5), Range(10, 21));
    CoveredPair(Range(1, 8), Range(10, 21));
    SpanJoin(1, 5, 3, 8);
    AddMergeIsCanonical(before, Range(3, 8), [Range(1, 8), Range(10, 21)]);
  }

  /** `remove([10, 10])`: it meets `[10, 21)` under the closed test but removes no integer. */
  lemma RemoveZeroLength()
    ensures AfterRemove([Range(1, 8), Range(10, 21)], Range(10, 10)) == [Range(1, 8), Range(10, 21)]
  {
    var before := [Range(1, 8), Range(10, 21)];
    assert HasIntersaction(before[1], Range(10, 10));
    assert Span(Range(10, 10)) == {};
    RemoveIsCanonical(before, Range(10, 10), before);
  }

  /** `remove([10, 11])`: the first integer of `[10, 21)` goes. */
  lemma RemoveFirstPoint()
    ensures AfterRemove([Range(1, 8), Range(10, 21)], Range(10, 11)) == [Range(1, 8), Range(11, 21)]
  {
    var before := [Range(1, 8), Range(10, 21)];
    assert HasIntersaction(before[1], Range(10, 11));
    CoveredPair(Range(1, 8), Range(10, 21));
    CoveredPair(Range(1, 8), Range(11, 21));
    SpanJoin(10, 11, 11, 21);
    RemoveIsCanonical(before, Range(10, 11), [Range(1, 8), Range(11, 21)]);
  }

  /** `remove([15, 17])`: `[11, 21)` splits into `[11, 15)` and `[17, 21)`. */
  lemma RemoveSplits()
    ensures AfterRemove([Range(1, 8), Range(11, 21)], Range(15, 17))
         == [Range(1, 8), Range(11, 15), Range(17, 21)]
  {
    var before := [Range(1, 8), Range(11, 21)];
    assert HasIntersaction(before[1], Range(15, 17));
    CoveredPair(Range(1, 8), Range(11, 21));
    CoveredTriple(Range(1, 8), Range(11, 15), Range(17, 21));
    SpanJoin(11, 15, 15, 21);
    SpanJoin(15, 17, 17, 21);
    RemoveIsCanonical(before, Range(15, 17), [Range(1, 8), Range(11, 15), Range(17, 21)]);
  }

  /** `remove([3, 19])`: it trims `[1, 8)` and `[17, 21)` and deletes `[11, 15)`. */
  lemma RemoveAcrossRanges()
    ensures AfterRemove([Range(1, 8), Range(11, 15), Range(17, 21)], Range(3, 19))
         == [Range(1, 3), Range(19, 21)]
  {
    var before := [Range(1, 8), Range(11, 15), Range(17, 21)];
    assert HasIntersaction(before[0], Range(3, 19));
    CoveredTriple(Range(1, 8), Range(11, 15), Range(17, 21));
    CoveredPair(Range(1, 3), Range(19, 21));
    SpanJoin(1, 3, 3, 8);
    SpanJoin(17, 19, 19, 21);
    RemoveIsCanonical(before, Range(3, 19), [Range(1, 3), Range(19, 21)]);
  }

  // ---------------------------------------------------------------------
  // Beyond the script

  /** The fast path of `add` stores a zero-length range that touches nothing. */
  lemma FastPathStoresEmptyRange()
    ensures AfterAdd([Range(1, 5)], Range(30, 30)) == [Range(1, 5), Range(30, 30)]
    ensures !Normalized(AfterAdd([Range(1, 5)], Range(30, 30)))
  {
    var after := AfterAdd([Range(1, 5)], Range(30, 30));
    assert after[1].start == after[1].end;
  }

  /** The fast path of `add` appends at the end, so the store can lose its order. */
  lemma FastPathAppendsOutOfOrder()
    ensures AfterAdd([Range(10, 20)], Range(1, 5)) == [Range(10, 20), Range(1, 5)]
    ensures !SortedByStart(AfterAdd([Range(10, 20)], Range(1, 5)))
  {
    var after := AfterAdd([Range(10, 20)], Range(1, 5));
    assert HasNoIntersactionToAllExistingRange([Range(10, 20)], Range(1, 5));
    assert after[0].start > after[1].start;
  }

  /**
   * Adding the same range twice need not leave the same list: the first add
   * takes the fast path, the second one the merge path, which sorts.
   */
  lemma AddTwiceReorders()
    ensures AfterAdd([Range(10, 20), Range(1, 5)], Range(1, 5)) == [Range(1, 5), Range(10, 20)]
  {
    var before := [Range(10, 20), Range(1, 5)];
    assert HasIntersaction(before[1], Range(1, 5));
    CoveredPair(Range(10, 20), Range(1, 5));
    CoveredPair(Range(1, 5), Range(10, 20));
    AddMergeIsCanonical(before, Range(1, 5), [Range(1, 5), Range(10, 20)]);
  }

  /** `add([5, 6])` then `add([1, 3])`: both take the fast path and the store is out of order. */
  lemma UnsortedStoreIsReachable()
    ensures AfterAdd(AfterAdd([], Range(5, 6)), Range(1, 3)) == [Range(5, 6), Range(1, 3)]
  {
    assert AfterAdd([], Range(5, 6)) == [Range(5, 6)];
    assert HasNoIntersactionToAllExistingRange([Range(5, 6)], Range(1, 3));
  }

  lemma UnsortedStorePoints()
    ensures Flatten(GetAllCurrentLists([Range(5, 6), Range(1, 3)])) == [5, 1, 2]
  {
    assert GetListByRange(Range(5, 6)) == [5];
    assert GetListByRange(Range(1, 3)) == [1, 2];
    var lists := GetAllCurrentLists([Range(5, 6), Range(1, 3)]);
    assert lists == [[5], [1, 2]];
    assert lists[..1] == [[5]] && [[5]][..0] == [];
  }

  /**
   * `remove([2, 3])` on that store: the points 5, 1 form one run, since the
   * grouping only looks for steps greater than one, and the store becomes
   * the reversed range `[5, 2)`, which covers nothing, where 1 and 5 should
   * remain.
   */
  lemma RemoveOnUnsortedStore()
    ensures AfterRemove([Range(5, 6), Range(1, 3)], Range(2, 3)) == [Range(5, 2)]
    ensures Covered([Range(5, 6), Range(1, 3)]) - Span(Range(2, 3)) == {1, 5}
    ensures Covered([Range(5, 2)]) == {}
  {
    assert HasIntersaction(Range(1, 3), Range(2, 3));
    UnsortedStorePoints();
    assert GetListByRange(Range(2, 3)) == [2];
    UnsortedStoreKeeps();
    PointsRegroupReversed();
    UnsortedStoreDifference();
    assert [Range(5, 2)][..0] == [];
  }

  /** The splice loop drops 2 from the points 5, 1, 2. */
  lemma UnsortedStoreKeeps()
    ensures Without([5, 1, 2], [2]) == [5, 1]
  {
    assert [5, 1, 2][..2] == [5, 1] && [5, 1][..1] == [5] && [5][..0] == [];
  }

  /** The points 5, 1 form a single run. */
  lemma PointsRegroupReversed()
    ensures ToRanges([5, 1]) == [Range(5, 2)]
  {
    assert [5, 1][..1] == [5];
  }

  /** The integers that should remain: 1 and 5. */
  lemma UnsortedStoreDifference()
    ensures Covered([Range(5, 6), Range(1, 3)]) - Span(Range(2, 3)) == {1, 5}
  {
    CoveredPair(Range(5, 6), Range(1, 3));
    assert Span(Range(5, 6)) == {5};
    assert Span(Range(1, 3)) == {1, 2};
    assert Span(Range(2, 3)) == {2};
  }

  /**
   * A zero-length `remove([5, 5])` on the same store touches `[5, 6)` under
   * the closed test, so it regroups the points 5, 1, 2 in stored order into
   * the reversed range `[5, 3)`: every stored integer is lost, although the
   * removed range holds none.
   */
  lemma ZeroLengthRemoveOnUnsortedStore()
    ensures AfterRemove([Range(5, 6), Range(1, 3)], Range(5, 5)) == [Range(5, 3)]
    ensures Covered([Range(5, 6), Range(1, 3)]) - Span(Range(5, 5)) == {1, 2, 5}
    ensures Covered([Range(5, 3)]) == {}
  {
    assert HasIntersaction(Range(5, 6), Range(5, 5));
    UnsortedStorePoints();
    assert GetListByRange(Range(5, 5)) == [];
    UnsortedStoreKeepsAll();
    PointsRegroupReversedThree();
    CoveredPair(Range(5, 6), Range(1, 3));
    assert Span(Range(5, 6)) == {5};
    assert Span(Range(1, 3)) == {1, 2};
    assert Span(Range(5, 5)) == {};
    assert [Range(5, 3)][..0] == [];
  }

  /** Removing no points keeps the points 5, 1, 2. */
  lemma UnsortedStoreKeepsAll()
    ensures Without([5, 1, 2], []) == [5, 1, 2]
  {
    assert [5, 1, 2][..2] == [5, 1] && [5, 1][..1] == [5] && [5][..0] == [];
  }

  /** The points 5, 1, 2 form a single run. */
  lemma PointsRegroupReversedThree()
    ensures ToRanges([5, 1, 2]) == [Range(5, 3)]
  {
    assert [5, 1, 2][..2] == [5, 1] && [5, 1][..1] == [5];
    PointsRegroupReversed();
  }
}
