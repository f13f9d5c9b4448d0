/** The reader's bookmark list: adding with `[...bookmarks, b].sort(byPage)`,
    removing every entry of a page, and the "is this page bookmarked" test. */
module Bookmarks {
  import opened Seqs
  import opened StableSort

  /** `BookmarkData`: the page, the trimmed note and the creation instant (ISO text). */
  datatype Bookmark = Bookmark(pageNumber: int, note: string, timestamp: string)

  /** The comparator `(a, b) => a.pageNumber - b.pageNumber`. */
  function ByPage(a: Bookmark, b: Bookmark): int {
    a.pageNumber - b.pageNumber
  }

  /** Page numbers never decrease along the list. */
  ghost predicate SortedByPage(bs: seq<Bookmark>) {
    forall i, j :: 0 <= i < j < |bs| ==> bs[i].pageNumber <= bs[j].pageNumber
  }

  /** The entries for page `p`, in list order. */
  function OnPage(bs: seq<Bookmark>, p: int): seq<Bookmark> {
    Filter((b: Bookmark) => b.pageNumber == p, bs)
  }

  /** `bookmarks.some(b => b.pageNumber === p)`. */
  predicate IsBookmarked(bs: seq<Bookmark>, p: int) {
    exists i :: 0 <= i < |bs| && bs[i].pageNumber == p
  }

  /** A page is bookmarked exactly when it has entries. */
  lemma IsBookmarkedIff(bs: seq<Bookmark>, p: int)
    ensures IsBookmarked(bs, p) <==> OnPage(bs, p) != []
  {
    var keep := (b: Bookmark) => b.pageNumber == p;
    if IsBookmarked(bs, p) {
      var i :| 0 <= i < |bs| && bs[i].pageNumber == p;
      FilterKeepsMatches(keep, bs);
      assert bs[i] in OnPage(bs, p);
    }
    if OnPage(bs, p) != [] {
      var b := OnPage(bs, p)[0];
      assert b in multiset(OnPage(bs, p));
      assert b in multiset(bs);
      var i :| 0 <= i < |bs| && bs[i] == b;
    }
  }

  /** Page order is a consistent comparator. */
  lemma ByPageConsistent()
    ensures Consistent(ByPage)
  {
  }

  /** Sorted by the comparator is sorted by page. */
  lemma SortedByPageIff(bs: seq<Bookmark>)
    ensures Sorted(ByPage, bs) <==> SortedByPage(bs)
  {
  }

  /** `addBookmark`'s list update: the old entries plus `nb`, re-sorted by page.
      Duplicates are kept, so the list always grows by one. */
  function Add(bs: seq<Bookmark>, nb: Bookmark): (r: seq<Bookmark>)
    ensures |r| == |bs| + 1
    ensures multiset(r) == multiset(bs) + multiset{nb}
    ensures SortedByPage(r)
    ensures IsBookmarked(r, nb.pageNumber)
  {
    var r := SortWith(ByPage, bs + [nb]);
    ByPageConsistent();
    SortWithSorted(ByPage, bs + [nb]);
    assert nb in multiset(r);
    r
  }

  /** On a sorted list the sort is a stable insertion of `nb` behind its equals. */
  lemma AddIsInsertion(bs: seq<Bookmark>, nb: Bookmark)
    requires SortedByPage(bs)
    ensures Add(bs, nb) == Insert(ByPage, nb, bs)
  {
    SortWithAppend(ByPage, bs, nb);
    SortWithOfSorted(ByPage, bs);
  }

  /** Stability: on each page the old entries keep their order and the new
      entry comes last; other pages are untouched. */
  lemma AddPerPage(bs: seq<Bookmark>, nb: Bookmark, p: int)
    requires SortedByPage(bs)
    ensures OnPage(Add(bs, nb), p) == OnPage(bs, p) + (if nb.pageNumber == p then [nb] else [])
  {
    AddIsInsertion(bs, nb);
    InsertPerPage(bs, nb, p);
  }

  /** No de-duplication: two bookmarks on the same page are both kept, in
      the order they were added. */
  lemma SamePageTwiceKeepsBoth(bs: seq<Bookmark>, a: Bookmark, b: Bookmark)
    requires SortedByPage(bs) && a.pageNumber == b.pageNumber
    ensures OnPage(Add(Add(bs, a), b), a.pageNumber) == OnPage(bs, a.pageNumber) + [a, b]
  {
    var p := a.pageNumber;
    var once := Add(bs, a);
    AddPerPage(bs, a, p);
    AddPerPage(once, b, p);
    AppendTwo(OnPage(bs, p), OnPage(once, p), OnPage(Add(once, b), p), a, b);
  }

  /** The empty sequence is neutral for concatenation. */
  lemma AppendNil(a: seq<Bookmark>)
    ensures [] + a == a && a + [] == a
  {
  }

  /** Concatenation is associative. */
  lemma AppendAssoc(a: seq<Bookmark>, b: seq<Bookmark>, c: seq<Bookmark>)
    ensures a + (b + c) == (a + b) + c
  {
  }

  /** Appending one element and then another is appending both. */
  lemma AppendTwo(x: seq<Bookmark>, y: seq<Bookmark>, z: seq<Bookmark>, a: Bookmark, b: Bookmark)
    requires y == x + [a] && z == y + [b]
    ensures z == x + [a, b]
  {
  }

  /** The entries of page `p` that inserting `nb` adds: `nb` itself or none. */
  function Extra(nb: Bookmark, p: int): seq<Bookmark> {
    if nb.pageNumber == p then [nb] else []
  }

  /** `AddPerPage` for the insertion itself. */
  lemma {:induction false} InsertPerPage(bs: seq<Bookmark>, nb: Bookmark, p: int)
    requires SortedByPage(bs)
    ensures OnPage(Insert(ByPage, nb, bs), p) == OnPage(bs, p) + Extra(nb, p)
    decreases |bs|
  {
    if bs == [] || ByPage(bs[0], nb) > 0 {
      InsertInFront(bs, nb, p);
    } else {
      SortedTail(bs);
      InsertPerPage(bs[1..], nb, p);
      InsertBehindHead(bs, nb, p);
    }
  }

  /** Inserting before the head: `nb` is the first entry of its page. */
  lemma InsertInFront(bs: seq<Bookmark>, nb: Bookmark, p: int)
    requires SortedByPage(bs) && (bs == [] || ByPage(bs[0], nb) > 0)
    ensures OnPage(Insert(ByPage, nb, bs), p) == OnPage(bs, p) + Extra(nb, p)
  {
    assert Insert(ByPage, nb, bs) == [nb] + bs;
    OnPageCons(nb, bs, p);
    if nb.pageNumber == p && bs != [] {
      NoneOnSmallerPage(bs, p);
    }
    AppendNil(OnPage(bs, p));
    AppendNil(Extra(nb, p));
  }

  /** Inserting behind the head: the head's page entry stays in front. */
  lemma InsertBehindHead(bs: seq<Bookmark>, nb: Bookmark, p: int)
    requires bs != [] && ByPage(bs[0], nb) <= 0
    requires OnPage(Insert(ByPage, nb, bs[1..]), p) == OnPage(bs[1..], p) + Extra(nb, p)
    ensures OnPage(Insert(ByPage, nb, bs), p) == OnPage(bs, p) + Extra(nb, p)
  {
    var tail := bs[1..];
    assert Insert(ByPage, nb, bs) == [bs[0]] + Insert(ByPage, nb, tail);
    OnPageCons(bs[0], Insert(ByPage, nb, tail), p);
    OnPageHead(bs, p);
    var head: seq<Bookmark> := if bs[0].pageNumber == p then [bs[0]] else [];
    AppendAssoc(head, OnPage(tail, p), Extra(nb, p));
  }

  /** The entries of page `p` in a list with a given head. */
  lemma OnPageCons(b: Bookmark, bs: seq<Bookmark>, p: int)
    ensures OnPage([b] + bs, p) == (if b.pageNumber == p then [b] else []) + OnPage(bs, p)
  {
    assert ([b] + bs)[1..] == bs;
  }

  /** The entries of page `p`, split at the head. */
  lemma OnPageHead(bs: seq<Bookmark>, p: int)
    requires bs != []
    ensures OnPage(bs, p) == (if bs[0].pageNumber == p then [bs[0]] else []) + OnPage(bs[1..], p)
  {
  }

  /** The tail of a sorted list is sorted. */
  lemma SortedTail(bs: seq<Bookmark>)
    requires SortedByPage(bs) && bs != []
    ensures SortedByPage(bs[1..])
  {
    var tail := bs[1..];
    forall i, j | 0 <= i < j < |tail| ensures tail[i].pageNumber <= tail[j].pageNumber {
      assert tail[i] == bs[i + 1] && tail[j] == bs[j + 1];
    }
  }

  /** A sorted list starting above `p` has no entry on `p`. */
  lemma {:induction false} NoneOnSmallerPage(bs: seq<Bookmark>, p: int)
    requires SortedByPage(bs) && bs != [] && bs[0].pageNumber > p
    ensures OnPage(bs, p) == []
    decreases |bs|
  {
    if |bs| > 1 {
      NoneOnSmallerPage(bs[1..], p);
    }
  }

  /** `removeBookmark(p)`: drops every entry on page `p`, keeping the rest in order. */
  function Remove(bs: seq<Bookmark>, p: int): (r: seq<Bookmark>)
    ensures !IsBookmarked(r, p)
    ensures IsSubsequence(r, bs)
    ensures forall i :: 0 <= i < |bs| && bs[i].pageNumber != p ==> bs[i] in r
  {
    var r := Filter((b: Bookmark) => b.pageNumber != p, bs);
    FilterIsSubsequence((b: Bookmark) => b.pageNumber != p, bs);
    FilterKeepsMatches((b: Bookmark) => b.pageNumber != p, bs);
    r
  }

  /** Removing a page that has no entry changes nothing. */
  lemma RemoveAbsent(bs: seq<Bookmark>, p: int)
    requires !IsBookmarked(bs, p)
    ensures Remove(bs, p) == bs
  {
    FilterKeepsAll((b: Bookmark) => b.pageNumber != p, bs);
  }

  /** Removing page `p` empties it and leaves every other page's entries as they were. */
  lemma {:induction false} RemovePerPage(bs: seq<Bookmark>, p: int, q: int)
    ensures OnPage(Remove(bs, p), q) == if q == p then [] else OnPage(bs, q)
    decreases |bs|
  {
    if bs != [] {
      RemovePerPage(bs[1..], p, q);
      var rest := Remove(bs[1..], p);
      RemoveStep(bs, p);
      OnPageHead(bs, q);
      if bs[0].pageNumber != p {
        OnPageCons(bs[0], rest, q);
      } else {
        AppendNil(rest);
      }
    }
  }

  /** Removal keeps the list sorted. */
  lemma {:induction false} RemoveSorted(bs: seq<Bookmark>, p: int)
    requires SortedByPage(bs)
    ensures SortedByPage(Remove(bs, p))
    decreases |bs|
  {
    if bs != [] {
      var tail := bs[1..];
      assert SortedByPage(tail) by {
        forall i, j | 0 <= i < j < |tail| ensures tail[i].pageNumber <= tail[j].pageNumber {
          assert tail[i] == bs[i + 1] && tail[j] == bs[j + 1];
        }
      }
      RemoveSorted(tail, p);
      var rest := Remove(tail, p);
      RemoveStep(bs, p);
      if bs[0].pageNumber != p {
        forall k | 0 <= k < |tail| ensures bs[0].pageNumber <= tail[k].pageNumber {
          assert tail[k] == bs[k + 1];
        }
        RemoveKeepsLowerBound(tail, p, bs[0].pageNumber);
        PrependSorted(bs[0], rest);
      }
    }
  }

  /** Removal only drops entries, so a lower bound on the pages survives it. */
  lemma {:induction false} RemoveKeepsLowerBound(bs: seq<Bookmark>, p: int, lo: int)
    requires forall k :: 0 <= k < |bs| ==> lo <= bs[k].pageNumber
    ensures forall j :: 0 <= j < |Remove(bs, p)| ==> lo <= Remove(bs, p)[j].pageNumber
    decreases |bs|
  {
    if bs != [] {
      var tail := bs[1..];
      forall k | 0 <= k < |tail| ensures lo <= tail[k].pageNumber {
        assert tail[k] == bs[k + 1];
      }
      RemoveKeepsLowerBound(tail, p, lo);
      RemoveStep(bs, p);
    }
  }

  /** One step of the filter: the head is kept unless it is on page `p`. */
  lemma RemoveStep(bs: seq<Bookmark>, p: int)
    requires bs != []
    ensures Remove(bs, p) == (if bs[0].pageNumber != p then [bs[0]] else []) + Remove(bs[1..], p)
  {
  }

  /** A bookmark no later than every entry of a sorted list may go in front. */
  lemma PrependSorted(b: Bookmark, bs: seq<Bookmark>)
    requires SortedByPage(bs)
    requires forall j :: 0 <= j < |bs| ==> b.pageNumber <= bs[j].pageNumber
    ensures SortedByPage([b] + bs)
  {
    var r := [b] + bs;
    forall i, j | 0 <= i < j < |r| ensures r[i].pageNumber <= r[j].pageNumber {
      assert r[j] == bs[j - 1];
      if i > 0 {
        assert r[i] == bs[i - 1];
      }
    }
  }
}
