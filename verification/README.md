# Shelf: reading progress, bookmarks, search and upload, in Dafny

Shelf is a small e-book library: a React front end and a Spring Boot back
end. This project models the parts of it that carry logic:

- **The PDF reader's synchronisation** (`PdfReaderPage`). It is modelled as a
  state machine over events:
  - page requests, timer expiry, tab hidden, unload and unmount;
  - completion of each POST, resolved or thrown;
  - adding and removing bookmarks, and rotation;
  - the arrow keys, and opening and closing the search bar.

  The state holds the current page, the pending debounce timer,
  `lastSavedPage`, the bookmark list and a log of issued POSTs. One step is
  everything React does between two renders. When the current page changes,
  the two effects that depend on it run their cleanups and then their setups.
- **The per-mount session id** (`generateSessionId`). The random draws are an
  input.
- **The history upsert on the server** (`HistoryService.saveHistory`). The
  `COALESCE` default read back by the book-details query and the page the
  reader then opens on are modelled with it.
- **The search list** built by `HomeServices.getSearchList`, and **the
  navigation bar's** suggestion filter, search and suggestion click.
- **The upload form**: field edits, file-type detection, the upload guard,
  file renaming and the result message.
- **The book grid's sort**: the comparator, the direction toggle, and the
  sorted copy that is displayed.

JavaScript behaviour is written out where it matters:
- `String.prototype.trim` uses the ECMAScript whitespace set.
- `toLowerCase` is modelled for ASCII letters.
- `split('.').pop()` returns the last dot-separated segment.
- `Array.prototype.sort` is a stable insertion sort. For a consistent
  comparator this gives the same result as the engine's sort.
- `localeCompare` is a parameter. Sortedness is proved under the hypothesis
  that it is consistent.

Modules follow the source: `Reader`, `Bookmarks`, `SessionId`,
`HistoryService`, `HomeServices`, `Navbar`, `UploadFile` and `BooksSection`.
The helpers `Wrappers`, `JsString`, `Seqs` and `StableSort` support them.
`Resume` connects the reader's writes to the server's store.

The model follows the code as written. In particular:
- Each page change force-saves the page being left. This happens in the
  cleanup of the lifecycle effect, which depends on `currentPage`. So a burst
  of page turns is not collapsed into one write: each turn posts the page it
  leaves, and the timer then posts the last page (`Reader.BurstThenQuiet`).
- `lastSavedPage` is updated after the POST resolves, not when it is issued
  (`Reader.Settle`). A thrown fetch leaves it unchanged. A resolved fetch
  with an HTTP error status updates it.
- Forced saves skip the equality check, so flushing twice posts twice
  (`Reader.FlushTwiceWritesTwice`).
- A hidden tab does not cancel the pending timer (`Reader.HiddenKeepsTimer`).
- Bookmarks on the same page are not de-duplicated
  (`Bookmarks.SamePageTwiceKeepsBoth`).
- A bookmark's POST reports the bookmarked page, so it moves the resume point
  (`Resume.BookmarkMovesResumePoint`).
- The server keeps one history row per book, not a log of bookmarks. The
  bookmark part of the request body is not read.
- The keydown listener is registered again only when `currentPage` or
  `showSearch` changes. Its `handlePageChange` checks against the page count
  of the render that registered it. Right after the document loads, that
  count is still 0, so the arrow keys do nothing until a button, the page
  field, a bookmark jump or the search toggle causes a new registration
  (`Reader.ArrowKeysIdleAfterLoad`, `Reader.ToggleSearchRevivesKeys`).

## Model

| member | source | states |
|---|---|---|
| JsString.Trim | Shelf/src/components/Navbar.tsx:22 | the result is the input minus a leading and a trailing run of ECMAScript whitespace, and starts and ends with non-whitespace |
| JsString.TrimEmptyIff | Shelf/src/components/Navbar.tsx:22 | a query trims to empty exactly when every character is whitespace (both directions) |
| JsString.ToLower | Shelf/src/components/Navbar.tsx:37 | same length; each upper-case ASCII letter is lowered, every other character kept |
| JsString.LastSegment | Shelf/src/components/UploadFile.tsx:42 | `split('.').pop()`: a suffix of the name containing no dot, preceded by a dot unless it is the whole name |
| JsString.LastSegmentAfterDot | Shelf/src/components/UploadFile.tsx:98-105 | for a segment without dots, the last segment of `a + "." + b` is `b`, whatever `a` contains |
| JsString.LastSegmentNoDot | Shelf/src/components/UploadFile.tsx:42 | a name without a dot is its own last segment |
| Seqs.Filter | Shelf/src/components/Navbar.tsx:35-38 | `Array.prototype.filter`: every kept element is accepted by the predicate, and none is added |
| Seqs.FilterKeepsMatches | Shelf/src/components/Navbar.tsx:35-38 | `Array.prototype.filter` drops no accepted element |
| Seqs.FilterCount | Shelf/src/components/Navbar.tsx:35-38 | `Array.prototype.filter` keeps every occurrence of an accepted value and no occurrence of a rejected one |
| Seqs.FilterIsSubsequence | Shelf/src/components/Navbar.tsx:35-38 | the filtered list is the input with elements dropped, order kept |
| Seqs.PrefixOfSubsequence | Shelf/src/components/Navbar.tsx:39 | a prefix (`slice(0, k)`) of an order-preserving selection is still one |
| StableSort.SortWithSorted | Shelf/src/components/BooksSection.tsx:86 | for a consistent comparator, `sort` returns a permutation in which no element comes after one it compares greater than |
| StableSort.InsertSorted | Shelf/src/pages/PDFReader.tsx:135 | inserting into a sorted list keeps it sorted |
| StableSort.SortWithOfSorted | Shelf/src/components/BooksSection.tsx:86 | stability: an already ordered list (in particular one whose elements all compare equal) comes back unchanged |
| StableSort.SortWithAppend | Shelf/src/pages/PDFReader.tsx:135 | sorting a list with one element appended is inserting that element into the sorted list |
| SessionId.Pick | Shelf/src/pages/PDFReader.tsx:76 | `Math.floor(Math.random() * 62)` is a valid alphabet position for every draw in [0, 1) |
| SessionId.Generate | Shelf/src/pages/PDFReader.tsx:72-79 | the loop yields 16 characters, each the alphabet symbol its draw picks |
| SessionId.PickOfIndex | Shelf/src/pages/PDFReader.tsx:76 | the draw k/62 picks symbol k |
| SessionId.EveryTokenReachable | Shelf/src/pages/PDFReader.tsx:72-79 | every 16-character string over the alphabet is produced by some draws |
| Bookmarks.ByPageConsistent | Shelf/src/pages/PDFReader.tsx:135 | the page-difference comparator is consistent |
| Bookmarks.SortedByPageIff | Shelf/src/pages/PDFReader.tsx:135 | sorted under the comparator iff page numbers never decrease |
| Bookmarks.IsBookmarkedIff | Shelf/src/pages/PDFReader.tsx:148 | a page shows as bookmarked exactly when it has at least one entry |
| Bookmarks.Add | Shelf/src/pages/PDFReader.tsx:128-137 | the list grows by exactly the new bookmark (as a multiset), stays sorted by page, and the page is then bookmarked |
| Bookmarks.AddIsInsertion | Shelf/src/pages/PDFReader.tsx:135 | re-sorting a sorted list after appending is a stable insertion behind equal pages |
| Bookmarks.AddPerPage | Shelf/src/pages/PDFReader.tsx:135 | per page, the old entries keep their order and the new one comes last; other pages are untouched |
| Bookmarks.InsertPerPage | Shelf/src/pages/PDFReader.tsx:135 | the same per-page statement for the insertion itself |
| Bookmarks.SamePageTwiceKeepsBoth | Shelf/src/pages/PDFReader.tsx:135 | two bookmarks on one page are both kept, in the order added (no de-duplication) |
| Bookmarks.NoneOnSmallerPage | Shelf/src/pages/PDFReader.tsx:135 | a sorted list whose first page exceeds p has no entry on p |
| Bookmarks.Remove | Shelf/src/pages/PDFReader.tsx:143-145 | afterwards the page has no bookmark, every entry of another page survives, and order is kept |
| Bookmarks.RemoveAbsent | Shelf/src/pages/PDFReader.tsx:143-145 | removing a page without entries changes nothing |
| Bookmarks.RemovePerPage | Shelf/src/pages/PDFReader.tsx:143-145 | removing p empties page p and leaves every other page's entries exactly as they were |
| Bookmarks.RemoveSorted | Shelf/src/pages/PDFReader.tsx:143-145 | removal keeps the list sorted by page |
| Reader.Mount | Shelf/src/pages/PDFReader.tsx:47-69 | the reader opens on `pageNo || 1` with lastSavedPage 1, nothing written, the debounce timer armed for that page, and the invariant established |
| Reader.InitialPage | Shelf/src/pages/PDFReader.tsx:47 | `pageNo \|\| 1`: never page 0, and every non-zero resume page is kept |
| Reader.SaveHistory | Shelf/src/pages/PDFReader.tsx:82-102 | no POST without a book id or, unless forced, for the last saved page; otherwise exactly one POST reporting the page |
| Reader.ChangePage | Shelf/src/pages/PDFReader.tsx:202-240 | setting the same page does nothing; a new page force-saves the page left, re-arms the timer for the new one, registers the keydown listener with the current page count, and changes nothing else |
| Reader.RequestPage | Shelf/src/pages/PDFReader.tsx:291-295 | only requests within 1..totalPages change the page |
| Reader.KeyPage | Shelf/src/pages/PDFReader.tsx:243-295 | an arrow key changes the page only within 1..the page count the listener was registered with |
| Reader.SetSearch | Shelf/src/pages/PDFReader.tsx:266-289 | a change of `showSearch` registers the keydown listener with the current page count; setting the value it has does nothing |
| Reader.PageFieldValue | Shelf/src/pages/PDFReader.tsx:442 | `parseInt(value) \|\| 1`: NaN and 0 ask for page 1, every other number is asked for as is |
| Reader.Step | Shelf/src/pages/PDFReader.tsx:243-295 | after unmount only write completions have an effect, and no event changes the book or the session |
| Reader.FireTimer | Shelf/src/pages/PDFReader.tsx:208-210 | the timer is consumed and saves its page without forcing, so a page already saved is not re-posted |
| Reader.Flush | Shelf/src/pages/PDFReader.tsx:222-230 | a hidden tab or unload posts the current page, forced, and changes nothing else; the timer stays armed |
| Reader.Teardown | Shelf/src/pages/PDFReader.tsx:212-239 | unmount clears the timer, force-posts the current page, and changes nothing else |
| Reader.Settle | Shelf/src/pages/PDFReader.tsx:97-101 | lastSavedPage moves only when a progress write resolves, and then to that write's page; a thrown fetch only logs |
| Reader.AddBookmarkAt | Shelf/src/pages/PDFReader.tsx:105-137 | the trimmed note on the current page joins the list and one POST reports that page; lastSavedPage and the timer are untouched |
| Reader.RemoveBookmarkAt | Shelf/src/pages/PDFReader.tsx:143-145 | removal is local: the page is no longer bookmarked and nothing is posted |
| Reader.RotateOnce | Shelf/src/pages/PDFReader.tsx:305-307 | rotation stays a quarter turn and advances by 90 degrees modulo 360 |
| Reader.StepPreservesInv | Shelf/src/pages/PDFReader.tsx:202-240 | every event keeps the invariant (one timer at most, armed for the page shown; bookmarks sorted; lastSavedPage justified by a resolved write) and only appends to the write log |
| Reader.RunPreservesInv | Shelf/src/pages/PDFReader.tsx:202-240 | the invariant holds after any sequence of events |
| Reader.LastSavedMovesOnlyOnResolve | Shelf/src/pages/PDFReader.tsx:98 | lastSavedPage changes only on the resolution of a progress write, to that write's page |
| Reader.AtMostOneWritePerEvent | Shelf/src/pages/PDFReader.tsx:202-240 | no single event issues more than one POST |
| Reader.TimerSavesCurrentPage | Shelf/src/pages/PDFReader.tsx:208-210 | when the timer fires it posts the page on screen |
| Reader.FlushTwiceWritesTwice | Shelf/src/pages/PDFReader.tsx:222-230 | forced saves are not de-duplicated: two flushes post the page twice |
| Reader.BurstThenQuiet | Shelf/src/pages/PDFReader.tsx:202-240 | two page turns then a quiet period post the two pages left (forced) and then the final page (by the timer) |
| Reader.HiddenKeepsTimer | Shelf/src/pages/PDFReader.tsx:226-230 | hiding the tab does not cancel the timer, which later posts the page again |
| Reader.NothingAfterUnmount | Shelf/src/pages/PDFReader.tsx:235-239 | after unmount only write completions have any effect |
| Reader.RotationsTurn | Shelf/src/pages/PDFReader.tsx:305-307 | n presses of the rotate button turn the page by n quarter turns modulo a full turn and change nothing else |
| Reader.FourRotationsIdentity | Shelf/src/pages/PDFReader.tsx:305-307 | four presses of the rotate button give back the starting state |
| Reader.GuardIgnoresOutOfRange | Shelf/src/pages/PDFReader.tsx:291-295 | out-of-range requests, and all requests before the document loads, change nothing |
| Reader.BookmarkedAfterAddNotAfterRemove | Shelf/src/pages/PDFReader.tsx:148 | after adding, the current page shows as bookmarked; after removing a page it does not |
| Reader.ArrowKeysIdleAfterLoad | Shelf/src/pages/PDFReader.tsx:243-295 | right after the document loads the arrow keys do nothing, while the next-page button turns the page |
| Reader.KeysMatchButtonsWhenBound | Shelf/src/pages/PDFReader.tsx:243-295 | once the listener holds the current page count, each arrow key does what its button does |
| Reader.ToggleSearchRevivesKeys | Shelf/src/pages/PDFReader.tsx:266-289 | opening or closing the search bar registers the listener again, after which the arrow keys work as the buttons do |
| HistoryService.SaveHistory | shelf-backend/src/main/java/com/shelf/shelfbackend/service/HistoryService.java:23-46 | unknown books change nothing; an existing row gets the new page and server time but keeps its id; a new row takes the client's id; other books are untouched |
| HistoryService.ClientDateIgnored | shelf-backend/src/main/java/com/shelf/shelfbackend/service/HistoryService.java:35-42 | the client's timestamp never reaches the store |
| HistoryService.SaveIdempotent | shelf-backend/src/main/java/com/shelf/shelfbackend/service/HistoryService.java:23-46 | the same request twice at the same time equals once |
| HistoryService.LaterSaveWins | shelf-backend/src/main/java/com/shelf/shelfbackend/service/HistoryService.java:31-43 | of two saves for one book the later page wins and the row keeps its first id |
| HistoryService.SavesForDifferentBooksCommute | shelf-backend/src/main/java/com/shelf/shelfbackend/service/HistoryService.java:23-46 | saves for different books commute |
| HistoryService.ResumePage | shelf-backend/src/main/java/com/shelf/shelfbackend/repositories/BooksRepo.java:18 | `COALESCE(readPages, 0)`: the stored page, or 0 without a row |
| HistoryService.SaveThenResume | shelf-backend/src/main/java/com/shelf/shelfbackend/service/HistoryService.java:23-46 | after saving a known book its resume page is the saved page |
| HomeServices.NewSearchDto | shelf-backend/src/main/java/com/shelf/shelfbackend/dto/SearchDTO.java:14-17 | the repository constructor leaves the kind unset |
| HomeServices.Tag | shelf-backend/src/main/java/com/shelf/shelfbackend/service/HomeServices.java:38-46 | every entry gets the kind, nothing else changes |
| HomeServices.SearchList | shelf-backend/src/main/java/com/shelf/shelfbackend/service/HomeServices.java:32-52 | books, then authors, then publishers, each tagged with its kind, names and ids kept |
| HomeServices.SearchListIsTaggedLists | shelf-backend/src/main/java/com/shelf/shelfbackend/service/HomeServices.java:32-52 | the search list is the three tagging loops' results concatenated in order |
| HomeServices.UntagRecoversQueries | shelf-backend/src/main/java/com/shelf/shelfbackend/service/HomeServices.java:32-52 | removing the tags gives back the three query results concatenated in order |
| Navbar.Suggest | Shelf/src/components/Navbar.tsx:35-39 | exactly the first min(8, number of matches) matches, in server order, all matching; when 8 or fewer match, every match is shown |
| Navbar.Refresh | Shelf/src/components/Navbar.tsx:21-49 | a blank query hides and clears the list without fetching; a failed fetch changes nothing; otherwise the list is the suggestions and shows iff non-empty |
| Navbar.Type | Shelf/src/components/Navbar.tsx:21 | the effect runs only when the query text changes |
| Navbar.Search | Shelf/src/components/Navbar.tsx:51-57 | navigation happens iff the trimmed query is non-empty, with the untrimmed query, and hides the list |
| Navbar.ClickSuggestion | Shelf/src/components/Navbar.tsx:59-64 | the query becomes the suggestion's name; picking the current query only hides the list; a new blank name clears the list; a new name keeps the old list hidden when the refetch fails and shows the new suggestions when it succeeds |
| Navbar.NameMatchesItself | Shelf/src/components/Navbar.tsx:37 | a name matches itself whatever its case |
| Navbar.ClickReopensDropdown | Shelf/src/components/Navbar.tsx:59-64 | picking a new non-blank suggestion reopens the list once the refetch succeeds |
| Navbar.UntrimmedQueryMisses | Shelf/src/components/Navbar.tsx:37 | the query is not trimmed for matching: " a" trims to "a" yet does not match "a" |
| UploadFile.InitialForm | Shelf/src/components/UploadFile.tsx:15-25 | fresh id, English, today's date, every other field empty |
| UploadFile.HandleChange | Shelf/src/components/UploadFile.tsx:84-87 | only the named field takes the new value; id and date never change |
| UploadFile.DetectFileType | Shelf/src/components/UploadFile.tsx:42-52 | the file type is the lower-cased last dot-segment of the name, and contains no dot |
| UploadFile.FileTypeWithoutDot | Shelf/src/components/UploadFile.tsx:42-52 | a name without a dot yields the whole name lower-cased |
| UploadFile.FileTypeTrailingDot | Shelf/src/components/UploadFile.tsx:51 | a name ending in a dot yields the empty type |
| UploadFile.DropBook | Shelf/src/components/UploadFile.tsx:35-54 | the drag ends; a dropped file becomes the book file and sets the file type |
| UploadFile.InputBook | Shelf/src/components/UploadFile.tsx:57-74 | a chosen file becomes the book file and sets the file type; no file changes nothing |
| UploadFile.DropAndInputAgree | Shelf/src/components/UploadFile.tsx:35-74 | dropping and choosing a file give the same book file and form |
| UploadFile.InputCover | Shelf/src/components/UploadFile.tsx:77-81 | a chosen image becomes the cover; form and book file untouched |
| UploadFile.Renamed | Shelf/src/components/UploadFile.tsx:105 | the upload name is the form id, a dot, and the original extension with its case |
| UploadFile.HandleUpload | Shelf/src/components/UploadFile.tsx:90-113 | rejected with the fill-in message iff there is no book file or the title is empty; otherwise both files are renamed after the id, the cover part present iff a cover was chosen |
| UploadFile.BlankTitlePasses | Shelf/src/components/UploadFile.tsx:92 | a title of one space passes the guard |
| UploadFile.RenamingKeepsExtension | Shelf/src/components/UploadFile.tsx:98-105 | the renamed file has the original's extension and therefore the same file type |
| UploadFile.Digits | Shelf/src/components/UploadFile.tsx:122 | a status code prints as its decimal representation: digits only, no leading zero, denoting the code |
| UploadFile.UploadMessage | Shelf/src/components/UploadFile.tsx:121-147 | the success message appears iff the upload was accepted; a failure shows the failure prefix and then the status error, the thrown message, or "Unknown error" |
| UploadFile.StatusReadBack | Shelf/src/components/UploadFile.tsx:120-122 | the status code of a rejected upload can be read back from the digits at the end of the message |
| UploadFile.Reset | Shelf/src/components/UploadFile.tsx:128-143 | after a success both files are cleared and the form is fresh |
| UploadFile.ResetRejects | Shelf/src/components/UploadFile.tsx:128-143 | an upload right after the reset is rejected by the guard |
| BooksSection.Initial | Shelf/src/components/BooksSection.tsx:15-18 | no books, loading, by title, ascending |
| BooksSection.Loaded | Shelf/src/components/BooksSection.tsx:20-37 | loading ends; a fetched list replaces the books, a failure keeps them |
| BooksSection.Toggle | Shelf/src/components/BooksSection.tsx:73 | the button always flips the direction |
| BooksSection.CompareAsc | Shelf/src/components/BooksSection.tsx:39-47 | each text key compares its own field with `localeCompare`, `totalPages` compares by difference, and any other key compares equal |
| BooksSection.ToggleTwice | Shelf/src/components/BooksSection.tsx:73 | two clicks restore the direction |
| BooksSection.Compare | Shelf/src/components/BooksSection.tsx:40-50 | descending is the negation of ascending |
| BooksSection.DescReversesAsc | Shelf/src/components/BooksSection.tsx:49 | descending puts first what ascending puts last, and ties stay ties |
| BooksSection.AscConsistent | Shelf/src/components/BooksSection.tsx:43-47 | the ascending comparison is consistent whenever `localeCompare` is |
| BooksSection.NegatedConsistent | Shelf/src/components/BooksSection.tsx:49 | negating a consistent comparator keeps it consistent |
| BooksSection.ComparatorConsistent | Shelf/src/components/BooksSection.tsx:40-50 | `sortBooks` is consistent for every key and direction whenever `localeCompare` is |
| BooksSection.Displayed | Shelf/src/components/BooksSection.tsx:86 | the displayed list is a permutation of the stored books, which are not modified |
| BooksSection.DisplayedIsSorted | Shelf/src/components/BooksSection.tsx:86 | the displayed list is ordered by `sortBooks` |
| BooksSection.PagesOrdered | Shelf/src/components/BooksSection.tsx:45-49 | by pages, page counts rise ascending and fall descending |
| BooksSection.UnknownKeyKeepsOrder | Shelf/src/components/BooksSection.tsx:41-47 | a key the comparator does not know leaves the books in fetched order |
| Resume.RequestBody | Shelf/src/pages/PDFReader.tsx:91-96 | the body carries the session id, the book id and the reported page |
| Resume.DeliverAll | shelf-backend/src/main/java/com/shelf/shelfbackend/service/HistoryService.java:23-46 | writes for a book the server does not know change nothing |
| Resume.FirstVisitOpensFirstPage | Shelf/src/pages/BookDetailPage.tsx:84-90 | a book with no history opens on page 1 |
| Resume.LastWriteDecidesResume | Shelf/src/pages/BookDetailPage.tsx:84-90 | after a session's writes arrive in order, the next visit opens on the page of the last one |
| Resume.BookmarkMovesResumePoint | Shelf/src/pages/PDFReader.tsx:114-118 | a bookmark write moves the resume point to the bookmarked page, overriding saved progress |

## Left out

- Rendering, zoom, full screen, theme, the contents of the search-in-document
  box, the download button, the PDF fetch and its error display are
  presentation only.
  So are `HistoryCard`, `HistorySection`, `BookCard` and `SearchDropdown`.
- Timers, `fetch` and the clock are modelled as events and parameters. Time
  itself is not modelled: a timer fires when the `TimerFires` event arrives.
  Each write's completion can arrive in any order.
- React StrictMode's double mount in development is not modelled. The model
  mounts once.
- The keyboard listener ignores keys typed into an input element. The model's
  key events are the ones that reach it from elsewhere. The zoom,
  bookmark-dialog and bookmark-panel shortcuts are presentation only. The
  arrow keys, Ctrl+F and Escape are modelled (`ArrowLeft`, `ArrowRight`,
  `ToggleSearch`, `CloseSearch`), because they use or change what the
  listener was registered with.
- Reader.Mount: the reader reads `location.state.pageNo` during its first
  render. Only the book-details page navigates there with a state. Opening
  the reader's URL directly makes that render throw, so nothing mounts and
  nothing is written. `Mount` takes the resume page as given and does not
  model this crash.
- A resume page beyond the document's length is not modelled: the reader
  shows it as given, and the renderer's response is outside this model.
- JsString.ToLower: lowers ASCII letters only. JavaScript's full Unicode case
  mapping, including mappings that change length, is not modelled.
- JsString.Trim: works on Unicode scalar values. JavaScript strings are UTF-16
  code units. The two differ only for characters outside the Basic
  Multilingual Plane, none of which is whitespace.
- BooksSection.DisplayedIsSorted: `localeCompare` is a parameter, and the
  result is proved only when it is consistent. The ICU collation itself is
  not modelled.
- UploadFile.DetectFileType: `mimeToType` is a plain object. Looking up an
  extension named after an `Object.prototype` member, such as `constructor`,
  returns a function rather than the extension. The model treats the table
  as a four-entry map.
- `generateId` for the upload form and the ISO date are parameters
  (`InitialForm`, `Reset`).
- The multipart encoding of the upload is not modelled, nor the server side
  of the upload (`UploadServices`, MinIO storage).
- `encodeURIComponent` on the search navigation is not modelled.
  `Navbar.Search` returns the raw query that gets encoded.
- A stale suggestion response can arrive after a newer query. The model
  applies each fetch result to the query that issued it (`Navbar.Refresh`).
- HistoryService.SaveHistory: the History table's primary key is the client's
  session id. A new row whose id collides with another book's row would
  overwrite it in JPA. The store is keyed by book, as `findByBook_Id` reads
  it, and the collision is not modelled.
- HistoryService.SaveHistory: requests are applied one at a time. In the
  source, the find-then-save does not run in a transaction, and a history
  row's book carries no unique constraint. So the first saves of two
  sessions for one book can both insert a row, after which `findByBook_Id`,
  which expects at most one row, fails on every save for that book. This
  race is not modelled.
- The Java `long` range of `readPages` and null request fields are not
  modelled. Pages are unbounded integers and ids are strings.
- Reader.RotateOnce: JavaScript `%` truncates toward zero and Dafny's does
  not. They agree on the non-negative angles every reachable state has, and
  the contract is stated only for those.
