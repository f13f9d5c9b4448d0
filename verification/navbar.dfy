/** The search box of the navigation bar (`Navbar`): suggestion filtering,
    the search action and picking a suggestion. The suggestion list fetched
    from the server is an input (None when the fetch failed). */
module Navbar {
  import opened Wrappers
  import opened JsString
  import opened Seqs
  import opened HomeServices

  /** At most this many suggestions are shown. */
  const MaxSuggestions: nat := 8

  /** The search box state. */
  datatype SearchBox = SearchBox(query: string, suggestions: seq<SearchDto>, showDropdown: bool)

  /** `item.name.toLowerCase().includes(searchQuery.toLowerCase())`: the query is not trimmed. */
  predicate MatchesQuery(query: string, item: SearchDto) {
    Includes(ToLower(item.name), ToLower(query))
  }

  /** Every fetched entry whose name contains the query, in server order. */
  function Matching(data: seq<SearchDto>, query: string): seq<SearchDto> {
    Filter((item: SearchDto) => MatchesQuery(query, item), data)
  }

  /** `.filter(...).slice(0, 8)`. */
  function Suggest(data: seq<SearchDto>, query: string): (r: seq<SearchDto>)
    ensures |r| <= MaxSuggestions
    ensures forall i :: 0 <= i < |r| ==> MatchesQuery(query, r[i])
    ensures |r| <= |Matching(data, query)| && r == Matching(data, query)[..|r|]
    ensures IsSubsequence(r, data)
    ensures |r| == if |Matching(data, query)| < MaxSuggestions then |Matching(data, query)| else MaxSuggestions
    ensures |Matching(data, query)| <= MaxSuggestions ==>
              forall i :: 0 <= i < |data| && MatchesQuery(query, data[i]) ==> data[i] in r
  {
    var keep := (item: SearchDto) => MatchesQuery(query, item);
    var m := Matching(data, query);
    var r := Take(m, MaxSuggestions);
    FilterIsSubsequence(keep, data);
    FilterKeepsMatches(keep, data);
    PrefixOfSubsequence(m, data, |r|);
    r
  }

  /** The effect that runs whenever the query changes. A blank query clears
      and hides the list without fetching; a failed fetch changes nothing. */
  function Refresh(b: SearchBox, fetched: Option<seq<SearchDto>>): (r: SearchBox)
    ensures r.query == b.query
    ensures Trim(b.query) == "" ==> r.suggestions == [] && !r.showDropdown
    ensures Trim(b.query) != "" && fetched.None? ==> r == b
    ensures Trim(b.query) != "" && fetched.Some? ==>
              && r.suggestions == Suggest(fetched.value, b.query)
              && (r.showDropdown <==> r.suggestions != [])
  {
    if Trim(b.query) == "" then b.(suggestions := [], showDropdown := false)
    else match fetched
      case None => b
      case Some(data) =>
        var f := Suggest(data, b.query);
        b.(suggestions := f, showDropdown := |f| > 0)
  }

  /** Typing: `setSearchQuery(q)`; the effect runs only if the text changed. */
  function Type(b: SearchBox, q: string, fetched: Option<seq<SearchDto>>): (r: SearchBox)
    ensures r.query == q
    ensures q == b.query ==> r == b
    ensures q != b.query ==> r == Refresh(b.(query := q), fetched)
  {
    if q == b.query then b else Refresh(b.(query := q), fetched)
  }

  /** `handleSearch`: navigates to the book page named by the (untrimmed)
      query, and hides the list, only when the trimmed query is non-empty. */
  function Search(b: SearchBox): (r: (Option<string>, SearchBox))
    ensures Trim(b.query) == "" <==> r.0 == None
    ensures r.0.Some? ==> r.0.value == b.query && !r.1.showDropdown
    ensures r.1.query == b.query && r.1.suggestions == b.suggestions
    ensures r.0 == None ==> r.1 == b
  {
    if Trim(b.query) != "" then (Some(b.query), b.(showDropdown := false))
    else (None, b)
  }

  /** `handleSuggestionClick`: the query becomes the suggestion's name and the
      list is hidden; the changed query then re-runs the effect. */
  function ClickSuggestion(b: SearchBox, item: SearchDto, fetched: Option<seq<SearchDto>>): (r: SearchBox)
    ensures r.query == item.name
    ensures item.name == b.query ==> !r.showDropdown && r.suggestions == b.suggestions
    ensures item.name != b.query && Trim(item.name) == "" ==> r.suggestions == [] && !r.showDropdown
    ensures item.name != b.query && Trim(item.name) != "" && fetched.None? ==>
              r.suggestions == b.suggestions && !r.showDropdown
    ensures item.name != b.query && Trim(item.name) != "" && fetched.Some? ==>
              && r.suggestions == Suggest(fetched.value, item.name)
              && (r.showDropdown <==> r.suggestions != [])
  {
    var picked := b.(query := item.name, showDropdown := false);
    if item.name == b.query then picked else Refresh(picked, fetched)
  }

  /** A name contains itself, whatever the case. */
  lemma NameMatchesItself(item: SearchDto)
    ensures MatchesQuery(item.name, item)
  {
    var n := ToLower(item.name);
    assert OccursAt(n, n, 0);
  }

  /** Picking a suggestion for a new, non-blank name reopens the list as soon
      as the refetch succeeds and still lists that entry. */
  lemma ClickReopensDropdown(b: SearchBox, item: SearchDto, data: seq<SearchDto>)
    requires item.name != b.query && Trim(item.name) != "" && item in data
    ensures ClickSuggestion(b, item, Some(data)).showDropdown
  {
    var k :| 0 <= k < |data| && data[k] == item;
    NameMatchesItself(item);
    FilterKeepsMatches((i: SearchDto) => MatchesQuery(item.name, i), data);
    var m := Matching(data, item.name);
    assert item in m;
  }

  /** The query is not trimmed before matching: " a" does not match "a". */
  lemma UntrimmedQueryMisses()
    ensures Trim(" a") == "a"
    ensures !MatchesQuery(" a", SearchDto(None, "a", "1"))
  {
    assert IsWhitespace(' ') && !IsWhitespace('a');
    assert " a"[1..] == "a";
    assert TrimStart(" a") == "a";
    assert TrimEnd("a") == "a";
    assert |ToLower("a")| < |ToLower(" a")|;
  }
}
