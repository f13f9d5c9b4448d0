/** `HomeServices.getSearchList`: the book, author and publisher lists tagged
    with their kind and concatenated. */
module HomeServices {
  import opened Wrappers

  /** `SearchDTO`: `type` stays null (None) until tagged. */
  datatype SearchDto = SearchDto(kind: Option<string>, name: string, id: string)

  /** The constructor `SearchDTO(name, id)` used by the repository queries. */
  function NewSearchDto(name: string, id: string): (d: SearchDto)
    ensures d.kind == None && d.name == name && d.id == id
  {
    SearchDto(None, name, id)
  }

  /** One of the loops of `getSearchList`: `setType(kind)` on every entry. */
  function Tag(list: seq<SearchDto>, kind: string): (r: seq<SearchDto>)
    ensures |r| == |list|
    ensures forall i :: 0 <= i < |r| ==> r[i] == list[i].(kind := Some(kind))
  {
    seq(|list|, i requires 0 <= i < |list| => list[i].(kind := Some(kind)))
  }

  /** `getSearchList`: books, then authors, then publishers, each tagged. */
  function SearchList(books: seq<SearchDto>, authors: seq<SearchDto>, publishers: seq<SearchDto>): (r: seq<SearchDto>)
    ensures |r| == |books| + |authors| + |publishers|
    ensures forall i :: 0 <= i < |books| ==>
              r[i].kind == Some("book") && r[i].name == books[i].name && r[i].id == books[i].id
    ensures forall i :: 0 <= i < |authors| ==>
              var e := r[|books| + i];
              e.kind == Some("author") && e.name == authors[i].name && e.id == authors[i].id
    ensures forall i :: 0 <= i < |publishers| ==>
              var e := r[|books| + |authors| + i];
              e.kind == Some("publisher") && e.name == publishers[i].name && e.id == publishers[i].id
  {
    var nb, na := |books|, |authors|;
    seq(nb + na + |publishers|, i requires 0 <= i < nb + na + |publishers| =>
      if i < nb then books[i].(kind := Some("book"))
      else if i < nb + na then authors[i - nb].(kind := Some("author"))
      else publishers[i - nb - na].(kind := Some("publisher")))
  }

  /** The search list is the three loops' results concatenated in order. */
  lemma SearchListIsTaggedLists(books: seq<SearchDto>, authors: seq<SearchDto>, publishers: seq<SearchDto>)
    ensures SearchList(books, authors, publishers)
         == Tag(books, "book") + Tag(authors, "author") + Tag(publishers, "publisher")
  {
    var r := SearchList(books, authors, publishers);
    var tb, ta, tp := Tag(books, "book"), Tag(authors, "author"), Tag(publishers, "publisher");
    var t := tb + ta + tp;
    forall i | 0 <= i < |r| ensures r[i] == t[i] {
      if i < |books| {
      } else if i < |books| + |authors| {
        assert r[|books| + (i - |books|)] == ta[i - |books|];
      } else {
        assert r[|books| + |authors| + (i - |books| - |authors|)] == tp[i - |books| - |authors|];
      }
    }
  }

  /** Dropping the tags again. */
  function Untag(list: seq<SearchDto>): (r: seq<SearchDto>)
    ensures |r| == |list|
    ensures forall i :: 0 <= i < |r| ==> r[i] == list[i].(kind := None)
  {
    seq(|list|, i requires 0 <= i < |list| => list[i].(kind := None))
  }

  /** Tagging changes nothing but the kind: untagging the search list gives
      back the three query results, in order. */
  lemma UntagRecoversQueries(books: seq<SearchDto>, authors: seq<SearchDto>, publishers: seq<SearchDto>)
    requires forall i :: 0 <= i < |books| ==> books[i].kind == None
    requires forall i :: 0 <= i < |authors| ==> authors[i].kind == None
    requires forall i :: 0 <= i < |publishers| ==> publishers[i].kind == None
    ensures Untag(SearchList(books, authors, publishers)) == books + authors + publishers
  {
    var r := Untag(SearchList(books, authors, publishers));
    var expected := books + authors + publishers;
    forall i | 0 <= i < |r|
      ensures r[i] == expected[i]
    {
      if i < |books| {
      } else if i < |books| + |authors| {
        var j := i - |books|;
        assert SearchList(books, authors, publishers)[|books| + j].name == authors[j].name;
      } else {
        var j := i - |books| - |authors|;
        assert SearchList(books, authors, publishers)[|books| + |authors| + j].name == publishers[j].name;
      }
    }
  }
}
