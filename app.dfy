/** The table component's state and its handlers, rendering stripped away.
    React state (`artworks`, `selectedRows`, `totalRecords`, `loading`,
    `lazyState`, `customRowCount`) and the two mutable refs
    (`allArtworksRef`, `lastSelectionStartPage`) are fields; each handler is
    a method that changes exactly the fields it sets. */
module App {
  import opened Types
  import PageCache
  import Selection

  class ArtworkTable {
    var artworks: seq<Artwork>                  // rows of the page on screen
    var selectedRows: seq<Artwork>
    var totalRecords: int
    var loading: bool
    var lazyState: LazyState
    var customRowCount: int
    var allArtworks: seq<Artwork>               // allArtworksRef.current
    var lastSelectionStartPage: int             // lastSelectionStartPage.current

    /** The paginator always has a positive page size and the count input a
        value of at least 1. */
    ghost predicate Valid()
      reads this
    {
      lazyState.rows >= 1 && customRowCount >= 1
    }

    /** `first` is the global index of the first row of `page`. */
    ghost predicate Aligned()
      reads this
    {
      lazyState.first == (lazyState.page - 1) * lazyState.rows
    }

    /** The initial state on mount. */
    constructor ()
      ensures Valid() && Aligned()
      ensures artworks == [] && selectedRows == [] && totalRecords == 0 && loading
      ensures lazyState == LazyState(0, 12, 1, None, None)
      ensures customRowCount == 12
      ensures allArtworks == [] && lastSelectionStartPage == 1
    {
      artworks, selectedRows, totalRecords, loading := [], [], 0, true;
      lazyState := LazyState(0, 12, 1, None, None);
      customRowCount := 12;
      allArtworks, lastSelectionStartPage := [], 1;
    }

    /** First half of `fetchData`, before the request is awaited. */
    method BeginFetch()
      modifies this`loading
      ensures loading
    {
      loading := true;
    }

    /** Second half of `fetchData`, once the request for `page` of `pageSize`
        rows has settled. A full response shows the page, takes the total and
        merges the page into the cache; a response without `pagination` has
        shown its page before the throw and changes nothing else; a failed
        request changes nothing. The loading flag is cleared in every case. */
    method CompleteFetch(page: int, pageSize: int, outcome: FetchOutcome)
      modifies this`artworks, this`totalRecords, this`allArtworks, this`loading
      ensures !loading
      ensures outcome.Fetched? ==>
        artworks == outcome.data && totalRecords == outcome.total &&
        allArtworks == PageCache.Merge(old(allArtworks), page, pageSize, outcome.data)
      ensures outcome.MissingPagination? ==>
        artworks == outcome.data && totalRecords == old(totalRecords) && allArtworks == old(allArtworks)
      ensures outcome.Failed? ==>
        artworks == old(artworks) && totalRecords == old(totalRecords) && allArtworks == old(allArtworks)
    {
      match outcome {
        case Fetched(data, total) =>
          artworks := data;
          totalRecords := total;
          allArtworks := PageCache.Merge(allArtworks, page, pageSize, data);
        case MissingPagination(data) =>
          artworks := data;
        case Failed =>
      }
      loading := false;
    }

    /** The paginator moved: its 0-based page becomes the 1-based page and
        `first` and `rows` are copied; the sort settings are kept. A
        consistent event keeps `first` aligned with the page. */
    method OnPage(event: PageEvent)
      requires Valid() && event.rows >= 1
      modifies this`lazyState
      ensures Valid()
      ensures lazyState.page == event.page.GetOr(0) + 1
      ensures lazyState.first == event.first && lazyState.rows == event.rows
      ensures lazyState.sortField == old(lazyState.sortField) && lazyState.sortOrder == old(lazyState.sortOrder)
      ensures event.first == event.page.GetOr(0) * event.rows ==> Aligned()
    {
      var newPage := event.page.GetOr(0) + 1;
      lazyState := lazyState.(first := event.first, page := newPage, rows := event.rows);
    }

    /** The count input changed; clearing it falls back to 12. The input
        widget never reports a value below 1. */
    method SetCustomRowCount(value: Option<int>)
      requires Valid()
      requires value.Some? ==> value.value >= 1
      modifies this`customRowCount
      ensures Valid()
      ensures customRowCount == (if value.Some? then value.value else 12)
    {
      customRowCount := value.GetOr(12);
    }

    /** Select `customRowCount` rows of the cache starting at the anchor page
        (or at the current page when nothing is selected), pin the anchor to
        that start page and move the table to the page holding the last
        selected row. */
    method ApplyCustomRowCount()
      requires Valid()
      modifies this`selectedRows, this`lastSelectionStartPage, this`lazyState
      ensures Valid() && Aligned()
      ensures lastSelectionStartPage ==
        if |old(selectedRows)| == 0 then old(lazyState.page) else old(lastSelectionStartPage)
      ensures selectedRows == Selection.Select(allArtworks, lastSelectionStartPage, lazyState.rows, customRowCount)
      ensures var endIndex := Selection.EndIndex(Selection.StartIndex(lastSelectionStartPage, lazyState.rows),
                                                 customRowCount, |allArtworks|);
              (lazyState.page - 1) * lazyState.rows <= endIndex - 1 < lazyState.page * lazyState.rows
      ensures lazyState.rows == old(lazyState.rows)
      ensures lazyState.sortField == old(lazyState.sortField) && lazyState.sortOrder == old(lazyState.sortOrder)
      ensures |selectedRows| <= customRowCount
      ensures selectedRows != [] ==> lazyState.page >= lastSelectionStartPage
    {
      var startPage := if |selectedRows| == 0 then lazyState.page else lastSelectionStartPage;
      var startIndex := (startPage - 1) * lazyState.rows;
      var endIndex := Selection.EndIndex(startIndex, customRowCount, |allArtworks|);
      selectedRows := Selection.Select(allArtworks, startPage, lazyState.rows, customRowCount);
      lastSelectionStartPage := startPage;
      var targetPage := Selection.TargetPage(endIndex, lazyState.rows);
      lazyState := lazyState.(first := (targetPage - 1) * lazyState.rows, page := targetPage);
      if selectedRows != [] {
        Selection.TargetNotBeforeStart(allArtworks, startPage, lazyState.rows, customRowCount);
      }
    }

    /** The user changed the selection by hand: it is replaced by `value`,
        and an empty selection re-anchors at the current page. */
    method OnSelectionChange(value: seq<Artwork>)
      modifies this`selectedRows, this`lastSelectionStartPage
      ensures selectedRows == value
      ensures |value| == 0 ==> lastSelectionStartPage == lazyState.page
      ensures |value| != 0 ==> lastSelectionStartPage == old(lastSelectionStartPage)
    {
      selectedRows := value;
      if |value| == 0 {
        lastSelectionStartPage := lazyState.page;
      }
    }
  }
}
