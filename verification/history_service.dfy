/** The server side of progress saving (`HistoryService.saveHistory`): an
    upsert of one history record per book. Server time is a parameter. */
module HistoryService {
  import opened Wrappers

  /** A `History` row: its own id, the book it belongs to, the page, and when it was written. */
  datatype History = History(id: string, bookId: string, readPages: int, updatedDate: int)

  /** The request body: `HistoryDTO`. A bookmark sent by the client is not part of it. */
  datatype HistoryDto = HistoryDto(id: string, bookId: string, readPages: int, updatedDate: Option<int>)

  /** History rows by book id; `findByBook_Id` looks a book up here. */
  type Store = map<string, History>

  /** Each row is filed under its own book. */
  ghost predicate WellFiled(store: Store) {
    forall b :: b in store ==> store[b].bookId == b
  }

  /** `saveHistory`: unknown books are ignored; an existing row gets the new
      page and server time; otherwise a row keyed by the client's id is created. */
  function SaveHistory(store: Store, books: set<string>, dto: HistoryDto, now: int): (r: Store)
    ensures dto.bookId !in books ==> r == store
    ensures dto.bookId in books ==> r.Keys == store.Keys + {dto.bookId}
    ensures dto.bookId in books && dto.bookId in store ==>
              && r[dto.bookId].id == store[dto.bookId].id
              && r[dto.bookId].bookId == store[dto.bookId].bookId
              && r[dto.bookId].readPages == dto.readPages
              && r[dto.bookId].updatedDate == now
    ensures dto.bookId in books && dto.bookId !in store ==>
              r[dto.bookId] == History(dto.id, dto.bookId, dto.readPages, now)
    ensures forall b :: b in store && b != dto.bookId ==> b in r && r[b] == store[b]
    ensures WellFiled(store) ==> WellFiled(r)
  {
    if dto.bookId !in books then store
    else store[dto.bookId := Row(store, dto, now)]
  }

  /** The row a save of a known book leaves: the existing row with the new
      page and time, or a new row keyed by the client's id. */
  function Row(store: Store, dto: HistoryDto, now: int): History {
    if dto.bookId in store then store[dto.bookId].(readPages := dto.readPages, updatedDate := now)
    else History(dto.id, dto.bookId, dto.readPages, now)
  }

  /** The row for one book does not depend on other books' rows. */
  lemma RowIgnoresOtherBooks(store: Store, k: string, v: History, dto: HistoryDto, now: int)
    requires k != dto.bookId
    ensures Row(store[k := v], dto, now) == Row(store, dto, now)
  {
  }

  /** Updates of two different keys commute. */
  lemma UpdatesCommute(m: Store, k1: string, v1: History, k2: string, v2: History)
    requires k1 != k2
    ensures m[k1 := v1][k2 := v2] == m[k2 := v2][k1 := v1]
  {
    var a := m[k1 := v1][k2 := v2];
    var b := m[k2 := v2][k1 := v1];
    assert a.Keys == b.Keys;
    forall k | k in a ensures a[k] == b[k] {
    }
  }

  /** The client's timestamp never reaches the store. */
  lemma ClientDateIgnored(store: Store, books: set<string>, dto: HistoryDto, now: int, d: Option<int>)
    ensures SaveHistory(store, books, dto.(updatedDate := d), now) == SaveHistory(store, books, dto, now)
  {
  }

  /** Saving the same request twice at the same time is saving it once. */
  lemma SaveIdempotent(store: Store, books: set<string>, dto: HistoryDto, now: int)
    ensures var once := SaveHistory(store, books, dto, now);
            SaveHistory(once, books, dto, now) == once
  {
  }

  /** Two saves for one book: the later page wins, and the row keeps the id it
      was created with, even when the second request comes from another session. */
  lemma LaterSaveWins(store: Store, books: set<string>, d1: HistoryDto, d2: HistoryDto, t1: int, t2: int)
    requires d1.bookId == d2.bookId && d1.bookId in books
    ensures var r := SaveHistory(SaveHistory(store, books, d1, t1), books, d2, t2);
            && r[d1.bookId].readPages == d2.readPages
            && r[d1.bookId].updatedDate == t2
            && r[d1.bookId].id == (if d1.bookId in store then store[d1.bookId].id else d1.id)
  {
  }

  /** Saves for different books commute when they happen at the same time. */
  lemma SavesForDifferentBooksCommute(store: Store, books: set<string>, d1: HistoryDto, d2: HistoryDto, now: int)
    requires d1.bookId != d2.bookId
    ensures SaveHistory(SaveHistory(store, books, d1, now), books, d2, now)
         == SaveHistory(SaveHistory(store, books, d2, now), books, d1, now)
  {
    if d1.bookId in books && d2.bookId in books {
      var r1 := Row(store, d1, now);
      var r2 := Row(store, d2, now);
      RowIgnoresOtherBooks(store, d1.bookId, r1, d2, now);
      RowIgnoresOtherBooks(store, d2.bookId, r2, d1, now);
      UpdatesCommute(store, d1.bookId, r1, d2.bookId, r2);
    }
  }

  /** `COALESCE(h.readPages, 0)` of the book-details query: the stored page, or 0 without a row. */
  function ResumePage(store: Store, bookId: string): (p: int)
    ensures bookId !in store ==> p == 0
    ensures bookId in store ==> p == store[bookId].readPages
  {
    if bookId in store then store[bookId].readPages else 0
  }

  /** After a save of a known book, the book details report the saved page. */
  lemma SaveThenResume(store: Store, books: set<string>, dto: HistoryDto, now: int)
    requires dto.bookId in books
    ensures ResumePage(SaveHistory(store, books, dto, now), dto.bookId) == dto.readPages
  {
  }
}
