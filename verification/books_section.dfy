/** The home page's book grid (`BooksSection`): the fetched list, the sort key
    and direction, and the sorted copy that is displayed. String comparison
    (`localeCompare`) is a parameter. */
module BooksSection {
  import opened Wrappers
  import opened StableSort

  /** A book as the home endpoint returns it. */
  datatype Book = Book(
    id: string, title: string, author: string, publisher: string,
    language: string, totalPages: int, image: string)

  datatype SortOrder = Asc | Desc

  /** The component state; `sortBy` is the select's value, any text. */
  datatype Shelf = Shelf(books: seq<Book>, loading: bool, sortBy: string, order: SortOrder)

  /** The state before the fetch: empty, loading, by title, ascending. */
  function Initial(): (s: Shelf)
    ensures s.books == [] && s.loading && s.sortBy == "title" && s.order == Asc
  {
    Shelf([], true, "title", Asc)
  }

  /** The fetch settles: a list replaces the books, a failure keeps them;
      loading ends either way. */
  function Loaded(s: Shelf, fetched: Option<seq<Book>>): (r: Shelf)
    ensures !r.loading && r.sortBy == s.sortBy && r.order == s.order
    ensures r.books == (if fetched.Some? then fetched.value else s.books)
  {
    match fetched
    case None => s.(loading := false)
    case Some(bs) => s.(books := bs, loading := false)
  }

  /** The button: asc becomes desc and desc becomes asc. */
  function Toggle(o: SortOrder): (r: SortOrder)
    ensures r != o
  {
    if o == Asc then Desc else Asc
  }

  /** Toggling twice restores the order. */
  lemma ToggleTwice(o: SortOrder)
    ensures Toggle(Toggle(o)) == o
  {
  }

  /** The keys compared with `localeCompare`. */
  predicate IsTextKey(sortBy: string) {
    sortBy == "title" || sortBy == "author" || sortBy == "publisher" || sortBy == "language"
  }

  /** The text field a text key names. */
  function TextField(b: Book, sortBy: string): string
    requires IsTextKey(sortBy)
  {
    if sortBy == "title" then b.title
    else if sortBy == "author" then b.author
    else if sortBy == "publisher" then b.publisher
    else b.language
  }

  /** The ascending comparison: text keys by `localeCompare`, pages by
      difference, any other key compares everything equal. */
  function CompareAsc(sortBy: string, lc: (string, string) -> int, a: Book, b: Book): (c: int)
    ensures sortBy == "title" ==> c == lc(a.title, b.title)
    ensures sortBy == "author" ==> c == lc(a.author, b.author)
    ensures sortBy == "publisher" ==> c == lc(a.publisher, b.publisher)
    ensures sortBy == "language" ==> c == lc(a.language, b.language)
    ensures sortBy == "totalPages" ==> c == a.totalPages - b.totalPages
    ensures !IsTextKey(sortBy) && sortBy != "totalPages" ==> c == 0
  {
    if IsTextKey(sortBy) then lc(TextField(a, sortBy), TextField(b, sortBy))
    else if sortBy == "totalPages" then a.totalPages - b.totalPages
    else 0
  }

  /** `sortBooks`: the ascending comparison, negated for descending. */
  function Compare(sortBy: string, order: SortOrder, lc: (string, string) -> int, a: Book, b: Book): (c: int)
    ensures order == Asc ==> c == CompareAsc(sortBy, lc, a, b)
    ensures order == Desc ==> c == -CompareAsc(sortBy, lc, a, b)
  {
    var v := CompareAsc(sortBy, lc, a, b);
    if order == Asc then v else -v
  }

  /** The comparator passed to `sort`. */
  function Comparator(sortBy: string, order: SortOrder, lc: (string, string) -> int): (Book, Book) -> int {
    (a: Book, b: Book) => Compare(sortBy, order, lc, a, b)
  }

  /** The displayed list: a sorted copy, `[...books].sort(sortBooks)`. */
  function Displayed(s: Shelf, lc: (string, string) -> int): (r: seq<Book>)
    ensures multiset(r) == multiset(s.books)
    ensures |r| == |s.books|
  {
    SortWith(Comparator(s.sortBy, s.order, lc), s.books)
  }

  /** Descending puts first what ascending puts last, and ties stay ties. */
  lemma DescReversesAsc(sortBy: string, lc: (string, string) -> int, a: Book, b: Book)
    ensures Compare(sortBy, Desc, lc, a, b) < 0 <==> Compare(sortBy, Asc, lc, a, b) > 0
    ensures Compare(sortBy, Desc, lc, a, b) == 0 <==> Compare(sortBy, Asc, lc, a, b) == 0
  {
  }

  /** The ascending comparison is consistent when `localeCompare` is. */
  lemma AscConsistent(sortBy: string, lc: (string, string) -> int)
    requires Consistent(lc)
    ensures Consistent((a: Book, b: Book) => CompareAsc(sortBy, lc, a, b))
  {
    var cmp := (a: Book, b: Book) => CompareAsc(sortBy, lc, a, b);
    if IsTextKey(sortBy) {
      forall a: Book, b: Book ensures cmp(a, b) < 0 <==> cmp(b, a) > 0 {
        assert cmp(a, b) == lc(TextField(a, sortBy), TextField(b, sortBy));
        assert cmp(b, a) == lc(TextField(b, sortBy), TextField(a, sortBy));
      }
      forall a: Book, b: Book, c: Book | cmp(a, b) <= 0 && cmp(b, c) <= 0 ensures cmp(a, c) <= 0 {
        assert cmp(a, b) == lc(TextField(a, sortBy), TextField(b, sortBy));
        assert cmp(b, c) == lc(TextField(b, sortBy), TextField(c, sortBy));
        assert cmp(a, c) == lc(TextField(a, sortBy), TextField(c, sortBy));
      }
    }
  }

  /** Negating a consistent comparator keeps it consistent. */
  lemma NegatedConsistent(cmp: (Book, Book) -> int, neg: (Book, Book) -> int)
    requires Consistent(cmp)
    requires forall a, b :: neg(a, b) == -cmp(a, b)
    ensures Consistent(neg)
  {
    forall a: Book, b: Book ensures neg(a, b) <= 0 <==> cmp(b, a) <= 0 {
      assert cmp(a, b) < 0 <==> cmp(b, a) > 0;
    }
  }

  /** `sortBooks` is consistent, for every key and direction, when
      `localeCompare` is. */
  lemma ComparatorConsistent(sortBy: string, order: SortOrder, lc: (string, string) -> int)
    requires Consistent(lc)
    ensures Consistent(Comparator(sortBy, order, lc))
  {
    var asc := (a: Book, b: Book) => CompareAsc(sortBy, lc, a, b);
    AscConsistent(sortBy, lc);
    if order == Desc {
      NegatedConsistent(asc, Comparator(sortBy, order, lc));
    } else {
      forall a: Book, b: Book ensures Comparator(sortBy, order, lc)(a, b) == asc(a, b) {
      }
    }
  }

  /** The displayed list is the stored books, reordered so that no book is
      shown after one that `sortBooks` places after it. */
  lemma DisplayedIsSorted(s: Shelf, lc: (string, string) -> int)
    requires Consistent(lc)
    ensures Sorted(Comparator(s.sortBy, s.order, lc), Displayed(s, lc))
    ensures multiset(Displayed(s, lc)) == multiset(s.books)
  {
    ComparatorConsistent(s.sortBy, s.order, lc);
    SortWithSorted(Comparator(s.sortBy, s.order, lc), s.books);
  }

  /** By pages, the displayed page counts rise ascending and fall descending. */
  lemma PagesOrdered(s: Shelf, lc: (string, string) -> int, i: int, j: int)
    requires s.sortBy == "totalPages" && 0 <= i < j < |s.books|
    ensures s.order == Asc ==> Displayed(s, lc)[i].totalPages <= Displayed(s, lc)[j].totalPages
    ensures s.order == Desc ==> Displayed(s, lc)[i].totalPages >= Displayed(s, lc)[j].totalPages
  {
    var cmp := Comparator(s.sortBy, s.order, lc);
    var d := Displayed(s, lc);
    assert Consistent(cmp) by {
      forall a: Book, b: Book ensures cmp(a, b) < 0 <==> cmp(b, a) > 0 {
      }
    }
    SortWithSorted(cmp, s.books);
    assert cmp(d[i], d[j]) <= 0;
  }

  /** A key the component does not know compares everything equal, so the
      stable sort shows the books in their fetched order. */
  lemma UnknownKeyKeepsOrder(s: Shelf, lc: (string, string) -> int)
    requires !IsTextKey(s.sortBy) && s.sortBy != "totalPages"
    ensures Displayed(s, lc) == s.books
  {
    SortWithOfSorted(Comparator(s.sortBy, s.order, lc), s.books);
  }
}
