/** A client of the table component: the user sessions the selection
    feature is meant to support, replayed against the model on a collection
    of 50 records with the default 12 rows per page. */
module Scenarios {
  import opened Types
  import PageCache
  import Selection
  import App
  import Arith

  /** The effect that re-fetches whenever the lazy state changes, answered by the server. */
  method Refresh(t: App.ArtworkTable, records: seq<Artwork>)
    requires t.Valid()
    modifies t
    ensures t.Valid() && t.lazyState == old(t.lazyState)
    ensures t.selectedRows == old(t.selectedRows) && t.lastSelectionStartPage == old(t.lastSelectionStartPage)
    ensures t.customRowCount == old(t.customRowCount) && t.totalRecords == |records|
    ensures t.artworks == PageCache.ServerPage(records, t.lazyState.page, t.lazyState.rows) && !t.loading
    ensures t.allArtworks == PageCache.Merge(old(t.allArtworks), t.lazyState.page, t.lazyState.rows,
                                             PageCache.ServerPage(records, t.lazyState.page, t.lazyState.rows))
  {
    t.BeginFetch();
    var page, rows := t.lazyState.page, t.lazyState.rows;
    t.CompleteFetch(page, rows, Fetched(PageCache.ServerPage(records, page, rows), |records|));
  }

  /** The user pages forward to `page` (0-based `page - 1` in the event) and the page is fetched. */
  method GoToPage(t: App.ArtworkTable, records: seq<Artwork>, page: int)
    requires t.Valid() && t.lazyState.rows == 12 && page >= 1
    modifies t
    ensures t.Valid() && t.Aligned() && t.lazyState.page == page && t.lazyState.rows == 12
    ensures t.selectedRows == old(t.selectedRows) && t.lastSelectionStartPage == old(t.lastSelectionStartPage)
    ensures t.lazyState.sortField == old(t.lazyState.sortField) && t.lazyState.sortOrder == old(t.lazyState.sortOrder)
    ensures t.customRowCount == old(t.customRowCount) && t.totalRecords == |records|
    ensures t.artworks == PageCache.ServerPage(records, page, 12) && !t.loading
    ensures t.allArtworks == PageCache.Merge(old(t.allArtworks), page, 12, PageCache.ServerPage(records, page, 12))
  {
    t.OnPage(PageEvent((page - 1) * 12, 12, Some(page - 1)));
    Refresh(t, records);
  }

  /** With the table's 12 rows per page, visiting pages 1 to `n` in order
      caches exactly the collection's first `n` pages. */
  lemma {:induction false} VisitedPagesMirror(records: seq<Artwork>, n: nat)
    ensures PageCache.FetchedInOrder(records, 12, n) == records[..Arith.Min(|records|, n * 12)]
  {
    PageCache.FetchedInOrderMirrors(records, 12, n);
  }

  /** A page the cache already holds, fetched again, changes nothing. */
  lemma RefetchKeepsCache(records: seq<Artwork>, page: int)
    requires 1 <= page && (page - 1) * 12 <= |records|
    ensures PageCache.Merge(records, page, 12, PageCache.ServerPage(records, page, 12)) == records
  {
    PageCache.MergeUnchangedPage(records, page, 12);
  }

  /** Mount the table and visit pages 1 to 5, then return to page 1. */
  method LoadAllPages(records: seq<Artwork>) returns (t: App.ArtworkTable)
    requires |records| == 50
    ensures fresh(t) && t.Valid() && t.allArtworks == records
    ensures t.selectedRows == [] && t.lazyState.page == 1 && t.lazyState.rows == 12
  {
    t := new App.ArtworkTable();
    t.BeginFetch();
    t.CompleteFetch(1, 12, Fetched(PageCache.ServerPage(records, 1, 12), 50));
    assert t.allArtworks == PageCache.FetchedInOrder(records, 12, 1);
    GoToPage(t, records, 2);
    assert t.allArtworks == PageCache.FetchedInOrder(records, 12, 2);
    GoToPage(t, records, 3);
    assert t.allArtworks == PageCache.FetchedInOrder(records, 12, 3);
    GoToPage(t, records, 4);
    assert t.allArtworks == PageCache.FetchedInOrder(records, 12, 4);
    GoToPage(t, records, 5);
    assert t.allArtworks == PageCache.FetchedInOrder(records, 12, 5);
    VisitedPagesMirror(records, 5);
    GoToPage(t, records, 1);
    RefetchKeepsCache(records, 1);
  }

  /** Set the count, apply it, and let the table fetch the page it moved to. */
  method ApplyAndRefresh(t: App.ArtworkTable, records: seq<Artwork>, count: int)
    returns (sel: seq<Artwork>, page: int)
    requires t.Valid() && t.allArtworks == records && t.lazyState.rows == 12 && count >= 1 && |records| >= 1
    requires t.selectedRows == [] ==> t.lazyState.page >= 1
    requires t.selectedRows != [] ==> t.lastSelectionStartPage >= 1
    modifies t
    ensures t.Valid() && t.Aligned() && t.allArtworks == records && t.lazyState.rows == 12
    ensures t.lazyState.sortField == old(t.lazyState.sortField) && t.lazyState.sortOrder == old(t.lazyState.sortOrder)
    ensures t.totalRecords == |records| && t.artworks == PageCache.ServerPage(records, page, 12) && !t.loading
    ensures t.selectedRows == sel && t.lazyState.page == page && t.customRowCount == count
    ensures t.lastSelectionStartPage == old(if t.selectedRows == [] then t.lazyState.page else t.lastSelectionStartPage)
    ensures sel == Selection.Select(records, t.lastSelectionStartPage, 12, count)
    ensures page == Selection.TargetPage(Selection.EndIndex(Selection.StartIndex(t.lastSelectionStartPage, 12), count, |records|), 12)
  {
    t.SetCustomRowCount(Some(count));
    t.ApplyCustomRowCount();
    sel, page := t.selectedRows, t.lazyState.page;
    RefetchKeepsCache(records, page);
    Refresh(t, records);
  }

  /** The anchor rule, for any table state and any answer to the fetch that
      follows: once an application selects something, the next application
      (with no manual selection change in between) starts from the same page,
      whatever count it uses. */
  method ReapplyStartsFromSamePage(t: App.ArtworkTable, first: int, second: int, outcome: FetchOutcome)
    returns (firstStart: int, secondStart: int)
    requires t.Valid() && first >= 1 && second >= 1
    modifies t
    ensures firstStart == if old(t.selectedRows) == [] then old(t.lazyState.page) else old(t.lastSelectionStartPage)
    ensures Selection.Select(old(t.allArtworks), firstStart, old(t.lazyState.rows), first) != [] ==>
              secondStart == firstStart
    ensures t.lastSelectionStartPage == secondStart
    ensures t.selectedRows == Selection.Select(t.allArtworks, secondStart, t.lazyState.rows, second)
  {
    t.SetCustomRowCount(Some(first));
    t.ApplyCustomRowCount();
    firstStart := t.lastSelectionStartPage;
    t.BeginFetch();
    t.CompleteFetch(t.lazyState.page, t.lazyState.rows, outcome);
    t.SetCustomRowCount(Some(second));
    t.ApplyCustomRowCount();
    secondStart := t.lastSelectionStartPage;
  }

  /** Clearing the selection re-anchors: the next application starts from
      the page on screen, not from the earlier anchor. */
  method ClearThenApplyStartsHere(t: App.ArtworkTable, count: int) returns (start: int)
    requires t.Valid() && count >= 1
    modifies t
    ensures start == old(t.lazyState.page) && t.lastSelectionStartPage == start
    ensures t.selectedRows == Selection.Select(t.allArtworks, start, t.lazyState.rows, count)
  {
    t.OnSelectionChange([]);
    t.SetCustomRowCount(Some(count));
    t.ApplyCustomRowCount();
    start := t.lastSelectionStartPage;
  }

  /** Select 16 rows from page 1 (pages 1 and 2, table on page 2); re-apply
      with 5 without clearing (still from page 1, table back on page 1);
      re-apply with 1000 (cut at the 50 cached rows, table on page 5); clear
      the selection on page 5 and select 3 (only the last 2 rows exist from
      there, table stays on page 5). */
  method SelectionSession(records: seq<Artwork>)
    returns (sel16: seq<Artwork>, page16: int, sel5: seq<Artwork>, page5: int,
             sel1000: seq<Artwork>, page1000: int, sel3: seq<Artwork>, page3: int)
    requires |records| == 50
    ensures sel16 == records[..16] && page16 == 2
    ensures sel5 == records[..5] && page5 == 1
    ensures sel1000 == records && page1000 == 5
    ensures sel3 == records[48..] && page3 == 5
  {
    var t := LoadAllPages(records);
    Selection.SelectionIsWindow(records, 1, 12, 16);
    sel16, page16 := ApplyAndRefresh(t, records, 16);
    Selection.SelectionIsWindow(records, 1, 12, 5);
    sel5, page5 := ApplyAndRefresh(t, records, 5);
    Selection.SelectionIsWindow(records, 1, 12, 1000);
    sel1000, page1000 := ApplyAndRefresh(t, records, 1000);
    t.OnSelectionChange([]);
    Selection.SelectionIsWindow(records, 5, 12, 3);
    sel3, page3 := ApplyAndRefresh(t, records, 3);
  }
}
