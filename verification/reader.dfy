/** The PDF reader's reading-progress and bookmark synchronisation
    (`PdfReaderPage`), as an event-driven state machine.

    Everything React does between two renders is one step: a change of
    `currentPage` runs the cleanups of the two effects that depend on it
    (clear the debounce timer, force-save the old page) and then their
    setups (arm a 2000 ms timer for the new page). Timer expiry and the
    completion of each issued POST are events of their own, so any
    interleaving of writes and completions can be expressed.

    The keydown listener is registered by an effect that depends only on
    `currentPage` and `showSearch`, so the arrow keys check pages against
    the `totalPages` of the render that last changed one of those two, kept
    here as `keyBound`. */
module Reader {
  import opened Wrappers
  import opened JsString
  import opened Bookmarks

  /** Delay of the debounce timer, in milliseconds. */
  const DebounceMs: nat := 2000

  /** A pending `setTimeout` that will save `page`. */
  datatype Timer = Timer(page: int, delayMs: nat)

  /** What made the client POST to the history endpoint: `saveHistory`
      (forced or not) or `saveBookmark`. */
  datatype Origin = Progress(forced: bool) | BookmarkSave(bookmark: Bookmark)

  /** One issued POST; `readPages` is the page it reports. */
  datatype Write = Write(origin: Origin, readPages: int)

  /** How the `fetch` of a write ended: resolved (whatever the HTTP status) or thrown. */
  datatype Outcome = Resolved | Thrown

  /** The reader component's state that matters for synchronisation.
      `writes` is the log of issued POSTs, `settled` the outcome of those
      that have completed; `bookId` is "" when the route gave none. */
  datatype Reader = Reader(
    bookId: string,
    sessionId: string,
    currentPage: int,
    totalPages: int,
    rotation: int,
    lastSavedPage: int,
    timer: Option<Timer>,
    bookmarks: seq<Bookmark>,
    writes: seq<Write>,
    settled: map<nat, Outcome>,
    mounted: bool,
    showSearch: bool,
    keyBound: int)

  /** The inputs the component reacts to. */
  datatype Event =
    | PageRequest(n: int)              // handlePageChange(n)
    | PreviousPage                     // the previous-page button
    | NextPage                         // the next-page button
    | ArrowLeft                        // the left arrow key, outside an input
    | ArrowRight                       // the right arrow key, outside an input
    | ToggleSearch                     // the search button or Ctrl+F
    | CloseSearch                      // the Escape key
    | PageInput(parsed: Option<int>)   // page field: parseInt(value) || 1, None for NaN
    | JumpToBookmark(page: int)
    | FirstPage
    | LastPage
    | DocumentLoaded(numPages: int)    // the renderer reports the page count
    | Rotate
    | TimerFires
    | TabHidden                        // visibilitychange to 'hidden'
    | BeforeUnload
    | Unmount
    | WriteSettled(index: nat, outcome: Outcome)
    | AddBookmark(note: string, timestamp: string)
    | RemoveBookmark(page: int)

  /** `state.pageNo || 1`: a zero resume page opens page 1. */
  function InitialPage(pageNo: int): (p: int)
    ensures p != 0
    ensures pageNo != 0 ==> p == pageNo
  {
    if pageNo == 0 then 1 else pageNo
  }

  /** The debounce effect's setup for page `p`: a timer only for a positive page. */
  function ArmFor(p: int): Option<Timer> {
    if p > 0 then Some(Timer(p, DebounceMs)) else None
  }

  /** Write `i` is a progress write whose fetch resolved, reporting page `p`. */
  predicate ResolvedProgress(s: Reader, i: int, p: int) {
    && 0 <= i < |s.writes|
    && i in s.settled && s.settled[i] == Resolved
    && s.writes[i].origin.Progress? && s.writes[i].readPages == p
  }

  /** `lastSavedPage` is the initial 1 or the page of a progress write that resolved. */
  ghost predicate LastSavedJustified(s: Reader) {
    s.lastSavedPage == 1 || exists i :: ResolvedProgress(s, i, s.lastSavedPage)
  }

  /** Rotation is always a quarter turn. */
  predicate QuarterTurn(r: int) {
    r == 0 || r == 90 || r == 180 || r == 270
  }

  /** What holds of every reachable state. */
  ghost predicate Inv(s: Reader) {
    && (s.timer.Some? ==> s.mounted && s.timer == ArmFor(s.currentPage) && s.currentPage > 0)
    && (forall i :: i in s.settled ==> i < |s.writes|)
    && SortedByPage(s.bookmarks)
    && QuarterTurn(s.rotation)
    && LastSavedJustified(s)
  }

  /** The first commit: state initialised, the debounce effect armed for the
      initial page, listeners registered. Nothing is written yet. */
  function Mount(bookId: string, sessionId: string, pageNo: int): (r: Reader)
    ensures r.currentPage == InitialPage(pageNo) && r.currentPage != 0
    ensures r.lastSavedPage == 1 && r.totalPages == 0 && r.rotation == 0
    ensures r.writes == [] && r.bookmarks == [] && r.mounted
    ensures r.bookId == bookId && r.sessionId == sessionId
    ensures !r.showSearch && r.keyBound == 0
    ensures pageNo >= 0 ==> r.timer == Some(Timer(r.currentPage, DebounceMs))
    ensures pageNo < 0 ==> r.timer == None
    ensures Inv(r)
  {
    var page := InitialPage(pageNo);
    Reader(bookId, sessionId, page, 0, 0, 1, ArmFor(page), [], [], map[], true, false, 0)
  }

  /** `saveHistory(page, force)` up to the `await`: no POST without a book id
      or, unless forced, for the page last saved; otherwise one POST of `page`. */
  function SaveHistory(s: Reader, page: int, force: bool): (r: Reader)
    ensures s.bookId == "" || (!force && page == s.lastSavedPage) ==> r == s
    ensures s.bookId != "" && (force || page != s.lastSavedPage) ==>
              r == s.(writes := s.writes + [Write(Progress(force), page)])
  {
    if s.bookId == "" || (!force && page == s.lastSavedPage) then s
    else s.(writes := s.writes + [Write(Progress(force), page)])
  }

  /** A commit of `setCurrentPage(b)`. Setting the page it already shows is a
      bail-out: nothing re-renders and no effect runs. Otherwise the keydown
      listener is registered anew, with this render's `totalPages`. */
  function ChangePage(s: Reader, b: int): (r: Reader)
    ensures r.currentPage == b
    ensures b == s.currentPage ==> r == s
    ensures b != s.currentPage ==> r.timer == ArmFor(b) && r.keyBound == s.totalPages
    ensures b != s.currentPage ==>
              r == s.(currentPage := b, timer := ArmFor(b), keyBound := s.totalPages, writes := r.writes)
    ensures b != s.currentPage && s.bookId != "" ==>
              r.writes == s.writes + [Write(Progress(true), s.currentPage)]
    ensures s.bookId == "" ==> r.writes == s.writes
    ensures r.lastSavedPage == s.lastSavedPage && r.settled == s.settled
    ensures r.bookmarks == s.bookmarks && r.totalPages == s.totalPages
    ensures r.rotation == s.rotation && r.mounted == s.mounted
  {
    if b == s.currentPage then s
    else
      // cleanups: the debounce effect clears its timer, the lifecycle effect
      // force-saves the page it was registered for
      var flushed := SaveHistory(s.(timer := None), s.currentPage, true);
      // setups: a fresh timer for the new page, the keydown listener anew
      flushed.(currentPage := b, timer := ArmFor(b), keyBound := s.totalPages)
  }

  /** An arrow key: `handlePageChange` of the render that registered the
      listener, so the bound is `keyBound` rather than `totalPages`. */
  function KeyPage(s: Reader, n: int): (r: Reader)
    ensures 1 <= n <= s.keyBound ==> r == ChangePage(s, n)
    ensures !(1 <= n <= s.keyBound) ==> r == s
  {
    if 1 <= n && n <= s.keyBound then ChangePage(s, n) else s
  }

  /** `setShowSearch(v)`: a change re-renders and registers the keydown
      listener anew; setting the current value is a bail-out. */
  function SetSearch(s: Reader, v: bool): (r: Reader)
    ensures r.showSearch == v
    ensures v == s.showSearch ==> r == s
    ensures v != s.showSearch ==> r == s.(showSearch := v, keyBound := s.totalPages)
  {
    if v == s.showSearch then s else s.(showSearch := v, keyBound := s.totalPages)
  }

  /** `handlePageChange(n)`: only pages within 1..totalPages are accepted. */
  function RequestPage(s: Reader, n: int): (r: Reader)
    ensures 1 <= n <= s.totalPages ==> r == ChangePage(s, n)
    ensures !(1 <= n <= s.totalPages) ==> r == s
  {
    if 1 <= n && n <= s.totalPages then ChangePage(s, n) else s
  }

  /** The page the page field asks for: `parseInt(value) || 1`. */
  function PageFieldValue(parsed: Option<int>): (p: int)
    ensures p != 0
    ensures parsed.None? ==> p == 1
    ensures parsed.Some? && parsed.value != 0 ==> p == parsed.value
  {
    match parsed
    case None => 1
    case Some(k) => if k == 0 then 1 else k
  }

  /** The debounce timer expires: a non-forced save of the page it was armed for. */
  function FireTimer(s: Reader): (r: Reader)
    ensures r.timer == None
    ensures s.timer == None ==> r == s
    ensures s.timer.Some? && (s.bookId == "" || s.timer.value.page == s.lastSavedPage) ==>
              r == s.(timer := None)
    ensures s.timer.Some? && s.bookId != "" && s.timer.value.page != s.lastSavedPage ==>
              r == s.(timer := None, writes := s.writes + [Write(Progress(false), s.timer.value.page)])
  {
    match s.timer
    case None => s
    case Some(t) => SaveHistory(s.(timer := None), t.page, false)
  }

  /** `handleVisibilityChange` on hidden and `handleBeforeUnload`: a forced
      save of the current page. The debounce timer stays armed. */
  function Flush(s: Reader): (r: Reader)
    ensures r.timer == s.timer && r.currentPage == s.currentPage
    ensures s.bookId != "" ==> r.writes == s.writes + [Write(Progress(true), s.currentPage)]
    ensures s.bookId == "" ==> r == s
    ensures r == s.(writes := r.writes)
  {
    SaveHistory(s, s.currentPage, true)
  }

  /** Unmount: the debounce cleanup clears the timer and the lifecycle cleanup
      force-saves the current page. */
  function Teardown(s: Reader): (r: Reader)
    ensures r.timer == None && !r.mounted
    ensures s.bookId != "" ==> r.writes == s.writes + [Write(Progress(true), s.currentPage)]
    ensures s.bookId == "" ==> r.writes == s.writes
    ensures r.lastSavedPage == s.lastSavedPage && r.bookmarks == s.bookmarks
    ensures r == s.(timer := None, mounted := false, writes := r.writes)
  {
    SaveHistory(s.(timer := None, mounted := false), s.currentPage, true)
  }

  /** Completion of write `i`. Only a resolved progress write moves
      `lastSavedPage`; a thrown fetch is merely logged. Completions of
      unknown or already settled writes do not occur and change nothing. */
  function Settle(s: Reader, i: nat, o: Outcome): (r: Reader)
    ensures i < |s.writes| && i !in s.settled ==> r.settled == s.settled[i := o]
    ensures !(i < |s.writes| && i !in s.settled) ==> r == s
    ensures r.lastSavedPage != s.lastSavedPage ==>
              o == Resolved && i < |s.writes| && s.writes[i].origin.Progress?
              && r.lastSavedPage == s.writes[i].readPages
    ensures i < |s.writes| && i !in s.settled && o == Resolved && s.writes[i].origin.Progress? ==>
              r.lastSavedPage == s.writes[i].readPages
    ensures r.writes == s.writes && r.timer == s.timer && r.currentPage == s.currentPage
    ensures r.bookmarks == s.bookmarks
  {
    if i < |s.writes| && i !in s.settled then
      var s' := s.(settled := s.settled[i := o]);
      if o == Resolved && s.writes[i].origin.Progress? then s'.(lastSavedPage := s.writes[i].readPages)
      else s'
    else s
  }

  /** `addBookmark` followed by `saveBookmark`: the current page with the
      trimmed note joins the list, and one POST reports that page. */
  function AddBookmarkAt(s: Reader, note: string, timestamp: string): (r: Reader)
    ensures var nb := Bookmark(s.currentPage, Trim(note), timestamp);
            && r.bookmarks == Add(s.bookmarks, nb)
            && (s.bookId != "" ==> r.writes == s.writes + [Write(BookmarkSave(nb), s.currentPage)])
            && (s.bookId == "" ==> r.writes == s.writes)
    ensures IsBookmarked(r.bookmarks, s.currentPage)
    ensures |r.bookmarks| == |s.bookmarks| + 1
    ensures r == s.(bookmarks := r.bookmarks, writes := r.writes)
  {
    var nb := Bookmark(s.currentPage, Trim(note), timestamp);
    var s' := s.(bookmarks := Add(s.bookmarks, nb));
    if s.bookId == "" then s'
    else s'.(writes := s.writes + [Write(BookmarkSave(nb), nb.pageNumber)])
  }

  /** `removeBookmark(p)`: a local change only, no POST. */
  function RemoveBookmarkAt(s: Reader, p: int): (r: Reader)
    ensures !IsBookmarked(r.bookmarks, p)
    ensures r.writes == s.writes && r.lastSavedPage == s.lastSavedPage && r.timer == s.timer
    ensures !IsBookmarked(s.bookmarks, p) ==> r == s
    ensures r == s.(bookmarks := r.bookmarks)
  {
    if !IsBookmarked(s.bookmarks, p) then
      RemoveAbsent(s.bookmarks, p);
      s
    else s.(bookmarks := Remove(s.bookmarks, p))
  }

  /** `handleRotate`: a quarter turn clockwise, modulo a full turn. */
  function RotateOnce(s: Reader): (r: Reader)
    ensures QuarterTurn(s.rotation) ==> QuarterTurn(r.rotation)
    ensures 0 <= s.rotation ==> r.rotation == (s.rotation + 90) % 360
    ensures r == s.(rotation := r.rotation)
  {
    // JavaScript's % truncates; both operands are non-negative on reachable states
    s.(rotation := (s.rotation + 90) % 360)
  }

  /** One event. After unmount only write completions still arrive. */
  function Step(s: Reader, e: Event): (r: Reader)
    ensures !s.mounted && !e.WriteSettled? ==> r == s
    ensures r.bookId == s.bookId && r.sessionId == s.sessionId
  {
    if !s.mounted && !e.WriteSettled? then s
    else if IsNavigation(e) then Navigate(s, e)
    else if IsLifecycle(e) then Lifecycle(s, e)
    else Interact(s, e)
  }

  /** The page buttons and field go through `handlePageChange`; bookmark
      jumps and the first/last buttons call `setCurrentPage` directly. */
  function Navigate(s: Reader, e: Event): (r: Reader)
    requires IsNavigation(e)
    ensures r.bookId == s.bookId && r.sessionId == s.sessionId
  {
    var (p, guarded) := Target(s, e);
    if guarded then RequestPage(s, p) else ChangePage(s, p)
  }

  /** Timer expiry, page hiding and unload, unmount, and write completions. */
  predicate IsLifecycle(e: Event) {
    e.TimerFires? || e.TabHidden? || e.BeforeUnload? || e.Unmount? || e.WriteSettled?
  }

  function Lifecycle(s: Reader, e: Event): (r: Reader)
    requires IsLifecycle(e)
    ensures r.bookId == s.bookId && r.sessionId == s.sessionId
  {
    match e
    case TimerFires => FireTimer(s)
    case TabHidden => Flush(s)
    case BeforeUnload => Flush(s)
    case Unmount => Teardown(s)
    case WriteSettled(i, o) => Settle(s, i, o)
  }

  /** The keys, the document load, rotation, the search bar and bookmarks. */
  function Interact(s: Reader, e: Event): (r: Reader)
    requires !IsNavigation(e) && !IsLifecycle(e)
    ensures r.bookId == s.bookId && r.sessionId == s.sessionId
  {
    match e
    case ArrowLeft => KeyPage(s, s.currentPage - 1)
    case ArrowRight => KeyPage(s, s.currentPage + 1)
    case DocumentLoaded(n) => s.(totalPages := n)
    case Rotate => RotateOnce(s)
    case ToggleSearch => SetSearch(s, !s.showSearch)
    case CloseSearch => SetSearch(s, false)
    case AddBookmark(note, ts) => AddBookmarkAt(s, note, ts)
    case RemoveBookmark(p) => RemoveBookmarkAt(s, p)
  }

  /** A sequence of events, in order. */
  function Run(s: Reader, es: seq<Event>): Reader
    decreases |es|
  {
    if es == [] then s else Run(Step(s, es[0]), es[1..])
  }

  /** `r` only appended to the write log and only added completions. */
  ghost predicate Extends(s: Reader, r: Reader) {
    && |s.writes| <= |r.writes| && r.writes[..|s.writes|] == s.writes
    && (forall i :: i in s.settled ==> i in r.settled && r.settled[i] == s.settled[i])
  }

  /** The justification of `lastSavedPage` survives growth of the logs. */
  lemma JustifiedExtends(s: Reader, r: Reader)
    requires LastSavedJustified(s) && Extends(s, r) && r.lastSavedPage == s.lastSavedPage
    ensures LastSavedJustified(r)
  {
    if s.lastSavedPage != 1 {
      var i :| ResolvedProgress(s, i, s.lastSavedPage);
      assert r.writes[i] == r.writes[..|s.writes|][i];
      assert ResolvedProgress(r, i, r.lastSavedPage);
    }
  }

  /** Completing a write keeps the invariant. */
  lemma SettlePreservesInv(s: Reader, i: nat, o: Outcome)
    requires Inv(s)
    ensures Inv(Settle(s, i, o))
  {
    var r := Settle(s, i, o);
    if i < |s.writes| && i !in s.settled {
      assert Extends(s, r);
      if o == Resolved && s.writes[i].origin.Progress? {
        assert ResolvedProgress(r, i, r.lastSavedPage);
      } else {
        JustifiedExtends(s, r);
      }
    }
  }

  /** A save keeps the invariant and appends at most one write. */
  lemma SavePreservesInv(s: Reader, page: int, force: bool)
    requires Inv(s)
    ensures Inv(SaveHistory(s, page, force)) && Extends(s, SaveHistory(s, page, force))
  {
    var r := SaveHistory(s, page, force);
    assert r.writes[..|s.writes|] == s.writes;
    JustifiedExtends(s, r);
  }

  /** A page change keeps the invariant. */
  lemma ChangePreservesInv(s: Reader, b: int)
    requires Inv(s) && s.mounted
    ensures Inv(ChangePage(s, b)) && Extends(s, ChangePage(s, b))
  {
    if b != s.currentPage {
      var c := s.(timer := None);
      SameLogsKeepInv(s, c);
      SavePreservesInv(c, s.currentPage, true);
      var f := SaveHistory(c, s.currentPage, true);
      var r := f.(currentPage := b, timer := ArmFor(b), keyBound := s.totalPages);
      assert LastSavedJustified(f);
      assert forall i :: ResolvedProgress(f, i, f.lastSavedPage) ==> ResolvedProgress(r, i, r.lastSavedPage);
    }
  }

  /** Clearing the timer or unmounting keeps the invariant. */
  lemma SameLogsKeepInv(s: Reader, c: Reader)
    requires Inv(s) && c == s.(timer := None, mounted := c.mounted)
    ensures Inv(c)
  {
    assert c.writes[..|s.writes|] == s.writes;
    JustifiedExtends(s, c);
  }

  /** Adding a bookmark keeps the invariant. */
  lemma AddPreservesInv(s: Reader, note: string, ts: string)
    requires Inv(s)
    ensures Inv(AddBookmarkAt(s, note, ts)) && Extends(s, AddBookmarkAt(s, note, ts))
  {
    var r := AddBookmarkAt(s, note, ts);
    assert r.writes[..|s.writes|] == s.writes;
    QuietPreservesInv(s, r);
  }

  /** Events that neither move the page nor settle a write keep the invariant. */
  lemma QuietPreservesInv(s: Reader, r: Reader)
    requires Inv(s)
    requires |s.writes| <= |r.writes| && r.writes[..|s.writes|] == s.writes
    requires r.settled == s.settled && r.lastSavedPage == s.lastSavedPage
    requires r.timer == s.timer && r.currentPage == s.currentPage && r.mounted == s.mounted
    requires SortedByPage(r.bookmarks) && QuarterTurn(r.rotation)
    ensures Inv(r) && Extends(s, r)
  {
    JustifiedExtends(s, r);
  }

  /** The events that move `currentPage`. */
  predicate IsNavigation(e: Event) {
    e.PageRequest? || e.PreviousPage? || e.NextPage? || e.PageInput?
    || e.JumpToBookmark? || e.FirstPage? || e.LastPage?
  }

  /** The page a navigation event asks `ChangePage` for, and whether it is bounds-checked. */
  function Target(s: Reader, e: Event): (p: (int, bool))
    requires IsNavigation(e)
  {
    match e
    case PageRequest(n) => (n, true)
    case PreviousPage => (s.currentPage - 1, true)
    case NextPage => (s.currentPage + 1, true)
    case PageInput(parsed) => (PageFieldValue(parsed), true)
    case JumpToBookmark(p) => (p, false)
    case FirstPage => (1, false)
    case LastPage => (s.totalPages, false)
  }

  /** Navigation keeps the invariant. */
  lemma NavigationPreservesInv(s: Reader, e: Event)
    requires Inv(s) && s.mounted && IsNavigation(e)
    ensures Inv(Step(s, e)) && Extends(s, Step(s, e))
  {
    var (p, guarded) := Target(s, e);
    ChangePreservesInv(s, p);
    if guarded {
      assert Step(s, e) == RequestPage(s, p);
      if !(1 <= p <= s.totalPages) {
        assert s.writes[..|s.writes|] == s.writes;
      }
    } else {
      assert Step(s, e) == ChangePage(s, p);
    }
  }

  /** The arrow keys keep the invariant. */
  lemma KeyPreservesInv(s: Reader, e: Event)
    requires Inv(s) && s.mounted && (e.ArrowLeft? || e.ArrowRight?)
    ensures Inv(Step(s, e)) && Extends(s, Step(s, e))
  {
    var p := if e.ArrowLeft? then s.currentPage - 1 else s.currentPage + 1;
    ChangePreservesInv(s, p);
    assert Step(s, e) == KeyPage(s, p);
    if !(1 <= p <= s.keyBound) {
      assert s.writes[..|s.writes|] == s.writes;
    }
  }

  /** Saving events keep the invariant. */
  lemma SavingPreservesInv(s: Reader, e: Event)
    requires Inv(s) && s.mounted && (e.TimerFires? || e.TabHidden? || e.BeforeUnload? || e.Unmount?)
    ensures Inv(Step(s, e)) && Extends(s, Step(s, e))
  {
    match e
    case TimerFires =>
      if s.timer.Some? {
        var c := s.(timer := None);
        SameLogsKeepInv(s, c);
        SavePreservesInv(c, s.timer.value.page, false);
      } else {
        assert s.writes[..|s.writes|] == s.writes;
      }
    case TabHidden => SavePreservesInv(s, s.currentPage, true);
    case BeforeUnload => SavePreservesInv(s, s.currentPage, true);
    case Unmount =>
      var c := s.(timer := None, mounted := false);
      SameLogsKeepInv(s, c);
      SavePreservesInv(c, s.currentPage, true);
  }

  /** Every event keeps the invariant and only ever appends to the logs. */
  lemma StepPreservesInv(s: Reader, e: Event)
    requires Inv(s)
    ensures Inv(Step(s, e)) && Extends(s, Step(s, e))
  {
    if !s.mounted && !e.WriteSettled? {
      assert Step(s, e) == s;
      assert s.writes[..|s.writes|] == s.writes;
    } else if IsNavigation(e) {
      NavigationPreservesInv(s, e);
    } else if e.WriteSettled? {
      SettlePreservesInv(s, e.index, e.outcome);
    } else if IsLifecycle(e) {
      SavingPreservesInv(s, e);
    } else {
      InteractPreservesInv(s, e);
    }
  }

  /** The keys, the document load, rotation, the search bar and bookmarks
      keep the invariant. */
  lemma InteractPreservesInv(s: Reader, e: Event)
    requires Inv(s) && s.mounted && !IsNavigation(e) && !IsLifecycle(e)
    ensures Inv(Step(s, e)) && Extends(s, Step(s, e))
  {
    if e.ArrowLeft? || e.ArrowRight? {
      KeyPreservesInv(s, e);
    } else if e.AddBookmark? {
      AddPreservesInv(s, e.note, e.timestamp);
    } else if e.RemoveBookmark? {
      RemoveSorted(s.bookmarks, e.page);
      QuietPreservesInv(s, Step(s, e));
    } else {
      QuietPreservesInv(s, Step(s, e));
    }
  }

  /** Every reachable state satisfies the invariant. */
  lemma {:induction false} RunPreservesInv(s: Reader, es: seq<Event>)
    requires Inv(s)
    ensures Inv(Run(s, es)) && Extends(s, Run(s, es))
    decreases |es|
  {
    if es != [] {
      StepPreservesInv(s, es[0]);
      RunPreservesInv(Step(s, es[0]), es[1..]);
      var m := Step(s, es[0]);
      var r := Run(m, es[1..]);
      assert r.writes[..|s.writes|] == r.writes[..|m.writes|][..|s.writes|];
    }
  }

  /** `lastSavedPage` changes only when a progress write resolves, and then
      to that write's page: thrown fetches and bookmark writes never move it. */
  lemma LastSavedMovesOnlyOnResolve(s: Reader, e: Event)
    ensures var r := Step(s, e);
            r.lastSavedPage != s.lastSavedPage ==>
              && e.WriteSettled? && e.outcome == Resolved
              && e.index < |s.writes| && s.writes[e.index].origin.Progress?
              && r.lastSavedPage == s.writes[e.index].readPages
  {
  }

  /** No event issues more than one write. */
  lemma AtMostOneWritePerEvent(s: Reader, e: Event)
    ensures |Step(s, e).writes| <= |s.writes| + 1
  {
  }

  /** Never more than one pending timer, and it always saves the page on screen. */
  lemma TimerSavesCurrentPage(s: Reader)
    requires Inv(s) && s.timer.Some? && s.bookId != "" && s.currentPage != s.lastSavedPage
    ensures FireTimer(s).writes == s.writes + [Write(Progress(false), s.currentPage)]
  {
  }

  /** Forced saves skip the duplicate check: two flushes in a row post the
      same page twice. */
  lemma FlushTwiceWritesTwice(s: Reader)
    requires s.bookId != ""
    ensures Flush(Flush(s)).writes == s.writes + [Write(Progress(true), s.currentPage), Write(Progress(true), s.currentPage)]
  {
  }

  /** A burst of two page turns followed by a quiet period: each turn
      force-saves the page it leaves, and the timer saves the last page. */
  lemma BurstThenQuiet(s: Reader, b: int, c: int)
    requires Inv(s) && s.mounted && s.bookId != ""
    requires 1 <= b <= s.totalPages && 1 <= c <= s.totalPages
    requires s.currentPage != b && b != c && c != s.lastSavedPage
    ensures var r := Run(s, [PageRequest(b), PageRequest(c), TimerFires]);
            && r.currentPage == c && r.timer == None
            && r.writes == s.writes + [Write(Progress(true), s.currentPage), Write(Progress(true), b), Write(Progress(false), c)]
  {
    var es := [PageRequest(b), PageRequest(c), TimerFires];
    var s1 := Step(s, PageRequest(b));
    var s2 := Step(s1, PageRequest(c));
    var s3 := Step(s2, TimerFires);
    assert s1.timer == Some(Timer(b, DebounceMs)) && s1.currentPage == b;
    assert s2.timer == Some(Timer(c, DebounceMs)) && s2.lastSavedPage == s.lastSavedPage;
    assert es[1..][1..][1..] == [];
    assert Run(s2, es[1..][1..]) == s3;
    assert Run(s1, es[1..]) == s3;
  }

  /** Hiding the tab does not cancel the debounce timer: after the forced
      save the timer still fires and saves again unless the forced write has
      already resolved. */
  lemma HiddenKeepsTimer(s: Reader)
    requires Inv(s) && s.mounted && s.bookId != "" && s.timer.Some? && s.currentPage != s.lastSavedPage
    ensures var r := Step(Step(s, TabHidden), TimerFires);
            r.writes == s.writes + [Write(Progress(true), s.currentPage), Write(Progress(false), s.currentPage)]
  {
  }

  /** After unmount nothing but completions has an effect; in particular a
      timer can no longer write. */
  lemma NothingAfterUnmount(s: Reader, e: Event)
    requires !e.WriteSettled?
    ensures var u := Step(s, Unmount);
            s.mounted ==> Step(u, e) == u
  {
  }

  /** `n` presses of the rotate button. */
  function Rotations(n: nat): (es: seq<Event>)
    ensures |es| == n && forall i :: 0 <= i < n ==> es[i] == Rotate
  {
    if n == 0 then [] else [Rotate] + Rotations(n - 1)
  }

  /** `n` rotations turn the page by `n` quarter turns, modulo a full turn,
      and change nothing else. */
  lemma {:induction false} RotationsTurn(s: Reader, n: nat)
    requires s.mounted && 0 <= s.rotation < 360
    ensures Run(s, Rotations(n)) == s.(rotation := (s.rotation + 90 * n) % 360)
    decreases n
  {
    if n > 0 {
      var s1 := RotateOnce(s);
      StepRotate(s);
      assert Rotations(n)[1..] == Rotations(n - 1);
      RotationsTurn(s1, n - 1);
      ModAdd(s.rotation + 90, 90 * (n - 1));
    }
  }

  /** Reducing the first summand first does not change the remainder. */
  lemma ModAdd(a: nat, b: nat)
    ensures (a % 360 + b) % 360 == (a + b) % 360
  {
    var q := a / 360;
    assert a == 360 * q + a % 360;
  }

  /** Four rotations are a full turn. */
  lemma FourRotationsIdentity(s: Reader)
    requires s.mounted && QuarterTurn(s.rotation)
    ensures Run(s, Rotations(4)) == s
  {
    RotationsTurn(s, 4);
    FullTurn(s.rotation);
  }

  /** A full turn from a quarter-turn angle comes back to it. */
  lemma FullTurn(r: int)
    requires QuarterTurn(r)
    ensures (r + 90 * 4) % 360 == r
  {
  }

  /** While mounted, the rotate button is `RotateOnce`. */
  lemma StepRotate(s: Reader)
    requires s.mounted
    ensures Step(s, Rotate) == RotateOnce(s)
  {
  }

  /** The bounds guard: out-of-range requests, and every request before the
      document has loaded, leave the state as it was. */
  lemma GuardIgnoresOutOfRange(s: Reader, n: int)
    requires s.totalPages == 0 || n < 1 || n > s.totalPages
    ensures Step(s, PageRequest(n)) == s
  {
  }

  /** Right after the document loads, the arrow keys still see the page
      count of the first render, 0, and do nothing, while the next-page
      button turns the page. */
  lemma ArrowKeysIdleAfterLoad(bookId: string, sid: string, pageNo: int, n: int)
    requires 1 <= InitialPage(pageNo) < n
    ensures var s := Step(Mount(bookId, sid, pageNo), DocumentLoaded(n));
            && Step(s, ArrowRight) == s && Step(s, ArrowLeft) == s
            && Step(s, NextPage).currentPage == InitialPage(pageNo) + 1
  {
    var m := Mount(bookId, sid, pageNo);
    var s := m.(totalPages := n);
    assert Step(m, DocumentLoaded(n)) == s;
    StepArrows(s);
    StepButtons(s);
  }

  /** Once the listener has been registered with the current page count,
      the arrow keys do what the buttons do. */
  lemma KeysMatchButtonsWhenBound(s: Reader)
    requires s.mounted && s.keyBound == s.totalPages
    ensures Step(s, ArrowRight) == Step(s, NextPage)
    ensures Step(s, ArrowLeft) == Step(s, PreviousPage)
  {
    StepArrows(s);
    StepButtons(s);
  }

  /** Opening or closing the search bar registers the listener anew, after
      which the arrow keys work as the buttons do. */
  lemma ToggleSearchRevivesKeys(s: Reader)
    requires s.mounted
    ensures var r := Step(s, ToggleSearch);
            && Step(r, ArrowRight) == Step(r, NextPage)
            && Step(r, ArrowLeft) == Step(r, PreviousPage)
  {
    var r := SetSearch(s, !s.showSearch);
    assert Step(s, ToggleSearch) == r;
    KeysMatchButtonsWhenBound(r);
  }

  /** While mounted, the arrow keys are `KeyPage`. */
  lemma StepArrows(s: Reader)
    requires s.mounted
    ensures Step(s, ArrowRight) == KeyPage(s, s.currentPage + 1)
    ensures Step(s, ArrowLeft) == KeyPage(s, s.currentPage - 1)
  {
  }

  /** While mounted, the page buttons are `RequestPage`. */
  lemma StepButtons(s: Reader)
    requires s.mounted
    ensures Step(s, NextPage) == RequestPage(s, s.currentPage + 1)
    ensures Step(s, PreviousPage) == RequestPage(s, s.currentPage - 1)
  {
  }

  /** After adding a bookmark its page is bookmarked; after removing a page it is not. */
  lemma BookmarkedAfterAddNotAfterRemove(s: Reader, note: string, ts: string, p: int)
    requires s.mounted
    ensures IsBookmarked(Step(s, AddBookmark(note, ts)).bookmarks, s.currentPage)
    ensures !IsBookmarked(Step(s, RemoveBookmark(p)).bookmarks, p)
  {
    StepAdd(s, note, ts);
    StepRemove(s, p);
  }

  /** While mounted, the add button is `AddBookmarkAt`. */
  lemma StepAdd(s: Reader, note: string, ts: string)
    requires s.mounted
    ensures Step(s, AddBookmark(note, ts)) == AddBookmarkAt(s, note, ts)
  {
  }

  /** While mounted, the remove button is `RemoveBookmarkAt`. */
  lemma StepRemove(s: Reader, p: int)
    requires s.mounted
    ensures Step(s, RemoveBookmark(p)) == RemoveBookmarkAt(s, p)
  {
  }
}
