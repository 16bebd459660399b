/**
 * Lists of integer points, the representation the range list works on
 * internally: a range is expanded into the integers it covers, the lists
 * are concatenated, de-duplicated, sorted, filtered and grouped again.
 */
module Points {

  /** The set of integers occurring in a point list. */
  function Elems(s: seq<int>): set<int>
  {
    set x | x in s
  }

  predicate StrictlyIncreasing(s: seq<int>)
  {
    forall i, j :: 0 <= i < j < |s| ==> s[i] < s[j]
  }

  lemma ElemsAppend(a: seq<int>, b: seq<int>)
    ensures Elems(a + b) == Elems(a) + Elems(b)
  {
    assert forall x :: x in a + b <==> x in a || x in b;
  }

  /** The elements of a non-empty list: those before its last element, and the last one. */
  lemma ElemsSnoc(s: seq<int>)
    requires s != []
    ensures Elems(s) == Elems(s[..|s| - 1]) + {s[|s| - 1]}
  {
    ElemsAppend(s[..|s| - 1], [s[|s| - 1]]);
    assert s == s[..|s| - 1] + [s[|s| - 1]];
  }

  /** Dropping the last element keeps a list strictly increasing. */
  lemma IncreasingPrefix(s: seq<int>)
    requires StrictlyIncreasing(s) && s != []
    ensures StrictlyIncreasing(s[..|s| - 1])
  {
    var init := s[..|s| - 1];
    forall i, j | 0 <= i < j < |init| ensures init[i] < init[j] {
      assert init[i] == s[i] && init[j] == s[j];
    }
  }

  /** Two strictly increasing lists, every element of the first below every element of the second. */
  lemma IncreasingAppend(a: seq<int>, b: seq<int>)
    requires StrictlyIncreasing(a) && StrictlyIncreasing(b)
    requires forall x, y :: x in a && y in b ==> x < y
    ensures StrictlyIncreasing(a + b)
  {
    var c := a + b;
    forall i, j | 0 <= i < j < |c| ensures c[i] < c[j] {
      if j < |a| {
        assert c[i] == a[i] && c[j] == a[j];
      } else if i >= |a| {
        assert c[i] == b[i - |a|] && c[j] == b[j - |a|];
      } else {
        assert c[i] == a[i] && c[j] == b[j - |a|];
        assert a[i] in a && b[j - |a|] in b;
      }
    }
  }

  /**
   * A strictly increasing list is determined by its set of elements: this is
   * why "de-duplicate, then sort numerically" has exactly one possible result.
   */
  lemma {:induction false} IncreasingUnique(a: seq<int>, b: seq<int>)
    requires StrictlyIncreasing(a) && StrictlyIncreasing(b)
    requires Elems(a) == Elems(b)
    ensures a == b
    decreases |a|
  {
    assert a != [] ==> a[0] in Elems(b);
    assert b != [] ==> b[0] in Elems(a);
    if a != [] && b != [] {
      // the least element of each list is its head
      var i :| 0 <= i < |b| && b[i] == a[0];
      var j :| 0 <= j < |a| && a[j] == b[0];
      assert a[0] == b[0];
      assert Elems(a[1..]) == Elems(b[1..]) by {
        forall x ensures x in a[1..] <==> x in b[1..] {
          if x in a[1..] {
            var k :| 1 <= k < |a| && a[k] == x;
            assert x in Elems(b) && x != b[0];
          }
          if x in b[1..] {
            var k :| 1 <= k < |b| && b[k] == x;
            assert x in Elems(a) && x != a[0];
          }
        }
      }
      IncreasingUnique(a[1..], b[1..]);
      assert a == [a[0]] + a[1..] && b == [b[0]] + b[1..];
    }
  }

  /** Concatenation of the lists in order (the `push(...list)` loop of mergeLists). */
  function Flatten(lists: seq<seq<int>>): seq<int>
  {
    if lists == [] then [] else Flatten(lists[..|lists| - 1]) + lists[|lists| - 1]
  }

  lemma FlattenSnoc(lists: seq<seq<int>>, last: seq<int>)
    ensures Flatten(lists + [last]) == Flatten(lists) + last
  {
    assert (lists + [last])[..|lists|] == lists;
  }

  /** Inserts `x` into a strictly increasing list, keeping it strictly increasing and duplicate-free. */
  function Insert(sorted: seq<int>, x: int): (r: seq<int>)
    requires StrictlyIncreasing(sorted)
    ensures StrictlyIncreasing(r)
    ensures Elems(r) == Elems(sorted) + {x}
  {
    if sorted == [] then [x]
    else if x < sorted[0] then [x] + sorted
    else if x == sorted[0] then sorted
    else
      var rest := Insert(sorted[1..], x);
      InsertStep(sorted, x, rest);
      [sorted[0]] + rest
  }

  /** Putting back the head of a list in front of the insertion into its tail. */
  lemma InsertStep(sorted: seq<int>, x: int, rest: seq<int>)
    requires StrictlyIncreasing(sorted) && sorted != [] && sorted[0] < x
    requires StrictlyIncreasing(rest) && Elems(rest) == Elems(sorted[1..]) + {x}
    ensures StrictlyIncreasing([sorted[0]] + rest)
    ensures Elems([sorted[0]] + rest) == Elems(sorted) + {x}
  {
    forall y | y in rest ensures sorted[0] < y {
      assert y in Elems(rest);
      if y != x {
        var k :| 1 <= k < |sorted| && sorted[k] == y;
      }
    }
    ElemsAppend([sorted[0]], rest);
    ElemsAppend([sorted[0]], sorted[1..]);
    assert sorted == [sorted[0]] + sorted[1..];
    IncreasingAppend([sorted[0]], rest);
  }

  /**
   * The points of a list with duplicates removed, in ascending numeric order:
   * `[...new Set(list)].sort((a, b) => a - b)`.
   */
  function SortedDistinct(s: seq<int>): (r: seq<int>)
    ensures StrictlyIncreasing(r)
    ensures Elems(r) == Elems(s)
  {
    if s == [] then []
    else
      var r := Insert(SortedDistinct(s[..|s| - 1]), s[|s| - 1]);
      assert Elems(s) == Elems(s[..|s| - 1]) + {s[|s| - 1]} by {
        ElemsAppend(s[..|s| - 1], [s[|s| - 1]]);
        assert s == s[..|s| - 1] + [s[|s| - 1]];
      }
      r
  }

  /**
   * The elements of `s` that do not occur in `drop`, in their original order:
   * the net effect of remove's search-and-splice loop.
   */
  function Without(s: seq<int>, drop: seq<int>): (r: seq<int>)
    ensures Elems(r) == Elems(s) - Elems(drop)
  {
    if s == [] then []
    else
      var init := s[..|s| - 1];
      var last := s[|s| - 1];
      var rest := Without(init, drop);
      assert Elems(s) == Elems(init) + {last} by {
        ElemsAppend(init, [last]);
        assert s == init + [last];
      }
      if last in drop then rest
      else
        ElemsAppend(rest, [last]);
        rest + [last]
  }

  /** Dropping points from a strictly increasing list leaves it strictly increasing. */
  lemma {:induction false} WithoutIncreasing(s: seq<int>, drop: seq<int>)
    requires StrictlyIncreasing(s)
    ensures StrictlyIncreasing(Without(s, drop))
  {
    if s != [] {
      var init := s[..|s| - 1];
      var last := s[|s| - 1];
      var rest := Without(init, drop);
      WithoutIncreasing(init, drop);
      if last !in drop {
        forall x, y | x in rest && y in [last] ensures x < y {
          assert x in Elems(rest);
          var k :| 0 <= k < |init| && init[k] == x;
        }
        IncreasingAppend(rest, [last]);
      }
    }
  }

  /** `Array.prototype.indexOf`: the first position of `x` in `s`, or -1. */
  function IndexOf(s: seq<int>, x: int): (i: int)
    ensures i == -1 <==> x !in s
    ensures i != -1 ==> 0 <= i < |s| && s[i] == x && x !in s[..i]
  {
    if s == [] then -1
    else if s[0] == x then 0
    else
      var k := IndexOf(s[1..], x);
      if k == -1 then -1
      else
        assert s[..k + 1] == [s[0]] + s[1..][..k];
        k + 1
  }

  /** A position holding `x` with no `x` before it is what `IndexOf` finds. */
  lemma {:induction false} IndexOfFirst(s: seq<int>, x: int, i: int)
    requires 0 <= i < |s| && s[i] == x && x !in s[..i]
    ensures IndexOf(s, x) == i
  {
    if i > 0 {
      assert s[0] in s[..i];
      assert s[1..][..i - 1] == s[..i][1..];
      IndexOfFirst(s[1..], x, i - 1);
    }
  }
}
