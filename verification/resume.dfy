/** Where reading resumes: the reader's writes as `HistoryDTO` request bodies,
    their upsert on the server, and the page the next visit opens on. */
module Resume {
  import opened Wrappers
  import opened Bookmarks
  import opened Reader
  import opened HistoryService

  /** The JSON body of a write: the session id as the row id, the book, the
      reported page, and the client's clock (which the server drops). */
  function RequestBody(s: Reader, w: Write, clientTime: int): (d: HistoryDto)
    ensures d.id == s.sessionId && d.bookId == s.bookId && d.readPages == w.readPages
  {
    HistoryDto(s.sessionId, s.bookId, w.readPages, Some(clientTime))
  }

  /** The server receives the writes in order, all at time `now`. */
  function DeliverAll(store: Store, books: set<string>, s: Reader, ws: seq<Write>, now: int): (r: Store)
    ensures s.bookId !in books ==> r == store
    decreases |ws|
  {
    if ws == [] then store
    else DeliverAll(HistoryService.SaveHistory(store, books, RequestBody(s, ws[0], now), now), books, s, ws[1..], now)
  }

  /** A book opened for the first time starts on page 1. */
  lemma FirstVisitOpensFirstPage(store: Store, bookId: string, sessionId: string)
    requires bookId !in store
    ensures Mount(bookId, sessionId, ResumePage(store, bookId)).currentPage == 1
  {
  }

  /** Whatever was written last, progress or bookmark, is where the next
      visit opens (a page 0 opening on page 1). */
  lemma {:induction false} LastWriteDecidesResume(store: Store, books: set<string>, s: Reader, ws: seq<Write>, now: int, sid: string)
    requires s.bookId in books && ws != []
    ensures ResumePage(DeliverAll(store, books, s, ws, now), s.bookId) == ws[|ws| - 1].readPages
    ensures Mount(s.bookId, sid, ResumePage(DeliverAll(store, books, s, ws, now), s.bookId)).currentPage
         == InitialPage(ws[|ws| - 1].readPages)
    decreases |ws|
  {
    var next := HistoryService.SaveHistory(store, books, RequestBody(s, ws[0], now), now);
    if |ws| == 1 {
      assert DeliverAll(next, books, s, ws[1..], now) == next;
      SaveThenResume(store, books, RequestBody(s, ws[0], now), now);
    } else {
      LastWriteDecidesResume(next, books, s, ws[1..], now, sid);
      assert ws[1..][|ws[1..]| - 1] == ws[|ws| - 1];
    }
  }

  /** Adding a bookmark on a page moves the resume point to that page once
      its write reaches the server, whatever progress was saved before. */
  lemma BookmarkMovesResumePoint(store: Store, books: set<string>, s: Reader, note: string, ts: string, now: int)
    requires s.mounted && s.bookId != "" && s.bookId in books
    ensures var r := Step(s, AddBookmark(note, ts));
            && |r.writes| == |s.writes| + 1
            && r.writes[|s.writes|].origin.BookmarkSave?
            && ResumePage(DeliverAll(store, books, s, r.writes, now), s.bookId) == s.currentPage
  {
    var r := Step(s, AddBookmark(note, ts));
    LastWriteDecidesResume(store, books, s, r.writes, now, s.sessionId);
  }
}
