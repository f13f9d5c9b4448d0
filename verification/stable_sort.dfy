/** `Array.prototype.sort(compare)` as a stable insertion sort.

    ECMAScript requires the sort to be stable, and for a consistent
    comparator the stable sorted permutation is unique, so insertion sort
    gives the engine's result. A comparator returns a negative number when
    its first argument belongs first. */
module StableSort {

  /** The comparator is a total preorder in the sense ECMAScript calls
      "consistent": opposite signs on swapped arguments, and "not after"
      is transitive. */
  ghost predicate Consistent<T(!new)>(cmp: (T, T) -> int) {
    && (forall a, b :: cmp(a, b) < 0 <==> cmp(b, a) > 0)
    && (forall a, b, c :: cmp(a, b) <= 0 && cmp(b, c) <= 0 ==> cmp(a, c) <= 0)
  }

  /** No element is ordered after a later one. */
  ghost predicate Sorted<T>(cmp: (T, T) -> int, s: seq<T>) {
    forall i, j :: 0 <= i < j < |s| ==> cmp(s[i], s[j]) <= 0
  }

  /** Places `x` after every element of `s` that does not compare greater
      than it, so `x` lands behind its equals. */
  function Insert<T>(cmp: (T, T) -> int, x: T, s: seq<T>): (r: seq<T>)
    ensures multiset(r) == multiset(s) + multiset{x}
    ensures |r| == |s| + 1
    decreases |s|
  {
    if s == [] then [x]
    else if cmp(s[0], x) > 0 then [x] + s
    else
      assert s == [s[0]] + s[1..];
      [s[0]] + Insert(cmp, x, s[1..])
  }

  /** `[...s].sort(cmp)`: inserts the elements one by one, last one last. */
  function SortWith<T>(cmp: (T, T) -> int, s: seq<T>): (r: seq<T>)
    ensures multiset(r) == multiset(s)
    ensures |r| == |s|
    decreases |s|
  {
    if s == [] then []
    else
      assert s == s[..|s| - 1] + [s[|s| - 1]];
      Insert(cmp, s[|s| - 1], SortWith(cmp, s[..|s| - 1]))
  }

  /** Inserting into a sorted sequence keeps it sorted. */
  lemma {:induction false} InsertSorted<T(!new)>(cmp: (T, T) -> int, x: T, s: seq<T>)
    requires Consistent(cmp) && Sorted(cmp, s)
    ensures Sorted(cmp, Insert(cmp, x, s))
    decreases |s|
  {
    if s != [] {
      if cmp(s[0], x) > 0 {
        PrependSmaller(cmp, x, s);
      } else {
        InsertSorted(cmp, x, s[1..]);
        ConsSorted(cmp, x, s);
      }
    }
  }

  /** An element that belongs before the head of a sorted sequence may be put in front. */
  lemma PrependSmaller<T(!new)>(cmp: (T, T) -> int, x: T, s: seq<T>)
    requires Consistent(cmp) && Sorted(cmp, s) && s != [] && cmp(s[0], x) > 0
    ensures Sorted(cmp, [x] + s)
  {
    var r := [x] + s;
    assert cmp(x, s[0]) < 0;
    forall j | 1 < j < |r|
      ensures cmp(x, r[j]) <= 0
    {
      assert r[j] == s[j - 1];
      assert cmp(s[0], s[j - 1]) <= 0;
    }
  }

  /** The head of a sorted `s` that is not after `x` stays in front of the insertion into the tail. */
  lemma ConsSorted<T>(cmp: (T, T) -> int, x: T, s: seq<T>)
    requires Sorted(cmp, s) && s != [] && cmp(s[0], x) <= 0
    requires Sorted(cmp, Insert(cmp, x, s[1..]))
    ensures Sorted(cmp, Insert(cmp, x, s))
  {
    var tail := Insert(cmp, x, s[1..]);
    var r := Insert(cmp, x, s);
    assert r == [s[0]] + tail;
    HeadBeforeInsertion(cmp, x, s);
    forall i, j | 0 <= i < j < |r|
      ensures cmp(r[i], r[j]) <= 0
    {
      if i == 0 {
        assert r[j] == tail[j - 1];
      } else {
        assert r[i] == tail[i - 1] && r[j] == tail[j - 1];
      }
    }
  }

  /** Every element of the insertion into the tail comes from `x` or the tail. */
  lemma HeadBeforeInsertion<T>(cmp: (T, T) -> int, x: T, s: seq<T>)
    requires Sorted(cmp, s) && s != [] && cmp(s[0], x) <= 0
    ensures forall j :: 0 <= j < |Insert(cmp, x, s[1..])| ==> cmp(s[0], Insert(cmp, x, s[1..])[j]) <= 0
  {
    var tail := Insert(cmp, x, s[1..]);
    forall j | 0 <= j < |tail|
      ensures cmp(s[0], tail[j]) <= 0
    {
      var y := tail[j];
      assert y in multiset(tail);
      if y != x {
        assert y in multiset(s[1..]);
        assert y in s[1..];
        var k :| 0 <= k < |s[1..]| && s[1..][k] == y;
        assert s[k + 1] == y;
      }
    }
  }

  /** A consistent comparator yields a sorted result. */
  lemma {:induction false} SortWithSorted<T(!new)>(cmp: (T, T) -> int, s: seq<T>)
    requires Consistent(cmp)
    ensures Sorted(cmp, SortWith(cmp, s))
    decreases |s|
  {
    if s != [] {
      SortWithSorted(cmp, s[..|s| - 1]);
      InsertSorted(cmp, s[|s| - 1], SortWith(cmp, s[..|s| - 1]));
    }
  }

  /** An element no earlier element exceeds is appended at the end. */
  lemma {:induction false} InsertAtEnd<T>(cmp: (T, T) -> int, x: T, s: seq<T>)
    requires forall i :: 0 <= i < |s| ==> cmp(s[i], x) <= 0
    ensures Insert(cmp, x, s) == s + [x]
    decreases |s|
  {
    if s != [] {
      InsertAtEnd(cmp, x, s[1..]);
      assert s == [s[0]] + s[1..];
    }
  }

  /** Sorting an already sorted sequence leaves it unchanged: stability. */
  lemma {:induction false} SortWithOfSorted<T>(cmp: (T, T) -> int, s: seq<T>)
    requires Sorted(cmp, s)
    ensures SortWith(cmp, s) == s
    decreases |s|
  {
    if s != [] {
      var init, last := s[..|s| - 1], s[|s| - 1];
      forall i, j | 0 <= i < j < |init|
        ensures cmp(init[i], init[j]) <= 0
      {
        assert init[i] == s[i] && init[j] == s[j];
      }
      SortWithOfSorted(cmp, init);
      forall i | 0 <= i < |init|
        ensures cmp(init[i], last) <= 0
      {
        assert init[i] == s[i];
      }
      InsertAtEnd(cmp, last, init);
      assert SortWith(cmp, s) == Insert(cmp, last, SortWith(cmp, init));
      InitAndLast(s);
    }
  }

  /** A non-empty sequence is its prefix followed by its last element. */
  lemma InitAndLast<T>(s: seq<T>)
    requires s != []
    ensures s[..|s| - 1] + [s[|s| - 1]] == s
  {
  }

  /** Sorting `s + [x]` is inserting `x` into the sorted `s`. */
  lemma SortWithAppend<T>(cmp: (T, T) -> int, s: seq<T>, x: T)
    ensures SortWith(cmp, s + [x]) == Insert(cmp, x, SortWith(cmp, s))
  {
    assert (s + [x])[..|s|] == s;
  }
}
