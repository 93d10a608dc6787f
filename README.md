# Cross-page selection in a lazily paginated artwork table

The repository is a single React component (`src/App.tsx`) that shows an
art-collection API in a paginated table. The API serves one page at a time.
The component keeps every page it has fetched in one dense array (the
`allArtworksRef` cache). It also offers "select the next N rows": the
selection may run past the page on screen, and the table then moves to the
page that holds the last selected row.

Without the rendering, the component is a small state machine. This project
models it as the class `App.ArtworkTable`:

- its React state and its two refs are fields;
- each handler is a method that changes only the fields it sets.

The pure parts are functions, and lemmas state their properties:

- `Arith`: `Math.min`, `Math.max` and one fact about products.
- `JsArray`: ECMAScript `Array.prototype.slice`. Negative indices count from
  the end and every index is clamped. The component can reach negative
  indices (see below).
- `PageCache.Merge`: how a fetched page is spliced into the cache.
- `Selection`: the start index, the end index, the selected slice and the
  target page of a custom-count selection. `App.ArtworkTable.ApplyCustomRowCount`
  picks the start page.
- `Scenarios`: a client that replays user sessions against the class.

Behaviour the model reproduces on purpose:

- The cache is a dense array. If it is shorter than the fetched page's first
  index, `slice` clamps and the page is appended at the cache's current end
  (`PageCache.MergeAtEnd`). Rows picked later by index may therefore come from
  another page.
- A selection is cut at the cache's length. It is not cut at `totalRecords`,
  and missing pages are never fetched first.
- From a start page of 1 or more and an empty cache, the end index is 0 and
  the table moves to page 0 (`Selection.TargetPageOfEmptyCache`). A later fetch of page 0 calls
  `slice(0, -pageSize)` (`PageCache.MergePageZero`).
- If the start page lies past the end of the cache, the selection is empty.
  The table then moves back to the page of the last cached row, not to the
  start page (`Selection.EmptySelectionMovesBack`).
- From a start page of 0 or below with a count smaller than the page size,
  the end index can be negative. The table then goes to the start page
  itself, while `slice` took the selected rows from the end of the cache,
  so the new page does not hold the last selected row
  (`Selection.StartPageZeroMissesSelectedRow`).
- There is no request sequencing. A fetch is `BeginFetch` followed later by
  `CompleteFetch`, so fetches can interleave. Whichever completes last sets
  the rows on screen and the total; the cache receives the pages in the
  order their requests complete.
- `onSelectionChange` replaces the whole selection with the table's new
  value. An empty value re-anchors the next custom selection at the current
  page (`Scenarios.ClearThenApplyStartsHere`); any other value keeps the
  anchor (`Scenarios.ReapplyStartsFromSamePage`).
- The handler clamps neither the count nor the start page. Only the input
  widget keeps the count at 1 or more. From a start page of 0 or below the
  start index is negative and `slice` counts it from the end of the cache.

## Model

| member | source | states |
|---|---|---|
| JsArray.Resolve | src/App.tsx:53-55 | a relative slice index resolves into [0, len]: an index in range is itself, a negative one within the length counts back from the end, one past the end clamps to len and one below -len clamps to 0 |
| JsArray.Slice | src/App.tsx:88 | `s.slice(start, end)` has length max(0, resolved end - resolved start), and its i-th element is the element at the resolved start plus i |
| JsArray.SliceFrom | src/App.tsx:55 | `s.slice(start)` has length len - resolved start, and its i-th element is the element at the resolved start plus i |
| JsArray.SliceNonNegative | src/App.tsx:53 | with non-negative bounds, slice is the sub-sequence between the bounds clamped to the length, and empty when they cross |
| JsArray.SliceFromNonNegative | src/App.tsx:55 | with a non-negative start, `slice(start)` is the suffix from start, or empty past the end |
| PageCache.Splice | src/App.tsx:52-56 | for any bounds, negative ones included, the data lands intact where `start` resolves, and the result's length is the kept prefix plus the data plus the kept suffix |
| PageCache.Merge | src/App.tsx:52-56 | for any page, page 0 included, the fetched records appear intact and contiguous where `slice` resolves the page's first index |
| PageCache.SpliceShape | src/App.tsx:52-56 | with non-negative bounds, `[...cache.slice(0, start), ...data, ...cache.slice(end)]` is the prefix up to min(len, start), the data, and the suffix from min(len, end) |
| PageCache.SplicePreservesPrefix | src/App.tsx:51-56 | a splice keeps every entry before its start, if the cache reached the start |
| PageCache.SpliceLayout | src/App.tsx:52-56 | a splice puts the data contiguously at min(len, start), followed by the old entries from end on, in order; the length is the sum of the three parts |
| PageCache.SpliceOverwritesBlock | src/App.tsx:52-56 | a block inside the cache, spliced with data of its own length, is overwritten and every other entry is kept |
| PageCache.SpliceAtEnd | src/App.tsx:52-56 | a splice whose start is at or past the cache's end appends the data |
| PageCache.SpliceIdempotent | src/App.tsx:52-56 | splicing the same block-sized data twice equals splicing it once, if the cache reached the start |
| PageCache.SpliceExtendsPrefix | src/App.tsx:52-56 | splicing the collection's next window onto a cached prefix gives the longer prefix |
| PageCache.MergeShape | src/App.tsx:52-56 | for a page >= 1, the new cache is the old prefix up to min(len, (page-1)*size), then the fetched data, then the old suffix from min(len, page*size) |
| PageCache.MergePreservesEarlierPages | src/App.tsx:51-56 | if the cache reached the page's first index, every entry before that index is unchanged |
| PageCache.MergeLayout | src/App.tsx:52-56 | the fetched records sit contiguously from min(len, (page-1)*size), followed by the old entries from page*size on in their original order; the length is min(len,(page-1)*size) + length of data + max(0, len - page*size) |
| PageCache.MergeOverwritesBlock | src/App.tsx:52-56 | if the cache covers the whole page and a full page arrives, exactly the indices [(page-1)*size, page*size) are overwritten, and the length and all other entries stay the same |
| PageCache.MergeAtEnd | src/App.tsx:52-56 | if the cache does not reach the page's first index, the fetched records are appended at the cache's current end |
| PageCache.MergeIdempotent | src/App.tsx:52-56 | merging the same full page twice equals merging it once, if the cache reached the page's first index |
| PageCache.MergeRepeatedAcrossGap | src/App.tsx:52-56 | without that condition the merge is not idempotent: merging page 2 of size 1 twice into an empty cache gives two copies |
| PageCache.MergeUnchangedPage | src/App.tsx:52-56 | re-fetching a page whose server records equal the cache's window leaves the cache unchanged |
| PageCache.MergePageZero | src/App.tsx:52-56 | for page 0, the merge keeps the cache minus its last page-size entries, then the data, then the whole old cache |
| PageCache.ServerPage | src/App.tsx:47 | the collection API's answer for a page has at most `limit` records |
| PageCache.FetchedInOrderMirrors | src/App.tsx:52-56 | fetching pages 1 to n in order from an empty cache leaves exactly the collection's first n pages in it |
| PageCache.SpliceDisjointBlocksCommute | src/App.tsx:52-56 | splices of two disjoint blocks inside the cache, each with data of its block's length, give the same cache in either order |
| PageCache.MergeDistinctPagesCommute | src/App.tsx:52-56 | merges of two different pages that are both fully cached, with full-page data, give the same cache in either order |
| Selection.StartIndex | src/App.tsx:84 | the first row index of a page >= 1 is non-negative, so `slice` reads it as an absolute index |
| Selection.EndIndex | src/App.tsx:85 | the end index is at most the cache length and at most start + count, and equals one of the two |
| Selection.Select | src/App.tsx:83-88 | from any start page, positive or not, the selection has at most `count` rows |
| Selection.TargetPage | src/App.tsx:94 | the target page t satisfies (t-1)*rows <= endIndex-1 < t*rows; from a start page >= 1 this is the page holding the last selected row |
| Selection.TargetPageUnique | src/App.tsx:94 | any page holding row endIndex-1 is the target page |
| Selection.TargetPageOfEmptyCache | src/App.tsx:85-94 | with end index 0 (empty cache) the target page is 0 |
| Selection.SelectionIsWindow | src/App.tsx:84-88 | from a start page >= 1 the selection is exactly cache[start, min(start+count, len)), and is empty when start >= len |
| Selection.TargetNotBeforeStart | src/App.tsx:84-94 | from any start page, a non-empty selection moves the table to a page >= the start page |
| Selection.EmptySelectionMovesBack | src/App.tsx:84-94 | a start at or past the end of a non-empty cache gives an empty selection, and the target page is the last cached row's page, strictly before the start page |
| Selection.StartPageZeroMissesSelectedRow | src/App.tsx:84-94 | from start page 0 with 24 cached rows, 12 per page and count 1, the selection is row 12 but the end index is -11 and the target page is 0 |
| App.ArtworkTable.constructor | src/App.tsx:25-41 | the initial state: nothing loaded or selected, total 0, loading, first 0, 12 rows, page 1, no sort, count 12, empty cache, anchor 1 |
| App.ArtworkTable.BeginFetch | src/App.tsx:44-45 | a fetch sets loading and nothing else |
| App.ArtworkTable.CompleteFetch | src/App.tsx:46-61 | success sets the page's rows and the total and merges the page into the cache; a missing `pagination` shows the rows but keeps the total and the cache; a failure keeps all three; loading is cleared every time |
| App.ArtworkTable.OnPage | src/App.tsx:70-78 | the page becomes (event page or 0) + 1, first and rows are copied, sort settings are kept, and a consistent event keeps first = (page-1)*rows |
| App.ArtworkTable.SetCustomRowCount | src/App.tsx:134-135 | the count becomes the input's value, or 12 when the input is cleared |
| App.ArtworkTable.ApplyCustomRowCount | src/App.tsx:81-103 | the anchor becomes the start page (current page if nothing was selected, else the old anchor); the selection is the cache slice from that page and has at most count rows; the new page holds row endIndex-1 (for a start page >= 1, the last selected row) and is never before the start page when something is selected; first = (page-1)*rows; rows and sort unchanged |
| App.ArtworkTable.OnSelectionChange | src/App.tsx:106-112 | the selection becomes exactly the given value; an empty value re-anchors at the current page, a non-empty one keeps the anchor |
| Scenarios.Refresh | src/App.tsx:44-67 | the re-fetch after a lazy-state change shows the server's answer for the current page, sets the total, merges the answer into the cache, clears loading, and keeps the lazy state, the selection, the anchor and the count |
| Scenarios.GoToPage | src/App.tsx:44-78 | paging to page p and fetching it leaves the table on page p, aligned, 12 rows, sort kept, showing page p's records with the total set and loading cleared, the page merged into the cache, selection, anchor and count unchanged |
| Scenarios.VisitedPagesMirror | src/App.tsx:29-56 | with the table's 12 rows per page, visiting pages 1 to n in order caches exactly the collection's first n pages |
| Scenarios.RefetchKeepsCache | src/App.tsx:52-56 | re-fetching a page of a fully cached collection leaves the cache unchanged |
| Scenarios.LoadAllPages | src/App.tsx:25-78 | visiting pages 1 to 5 of a 50-record collection caches all 50 records |
| Scenarios.ApplyAndRefresh | src/App.tsx:81-103 | applying a count and re-fetching the target page gives the selection and page that Selection computes from the start page; the table is aligned, sort kept, shows the target page with the total set and loading cleared, and the cache is unchanged |
| Scenarios.ReapplyStartsFromSamePage | src/App.tsx:81-112 | for any table state and any fetch result in between: the first application starts from the current page if nothing was selected, else from the anchor; if it selects something, the next application starts from the same page whatever its count |
| Scenarios.ClearThenApplyStartsHere | src/App.tsx:83-112 | after the selection is cleared, the next application starts from the page on screen and selects from there |
| Scenarios.SelectionSession | src/App.tsx:81-112 | with 50 records and 12 rows per page: 16 from page 1 selects rows [0,16) on page 2; re-applying 5 without clearing selects [0,5) on page 1; 1000 selects all 50 on page 5; clearing on page 5 and selecting 3 gives rows [48,50) on page 5 |

## Left out

- Rendering is not modelled: the JSX, the `DataTable`/`Column` setup, the header template, the overlay panel and its `hide()` call (lines 102, 114-178) and the CSS imports. It is UI only.
- The HTTP GET and the destructuring of its response (lines 47-48) are not modelled. The request's outcome is the `FetchOutcome` parameter of `CompleteFetch`.
- A response whose `data` is not an array is not modelled. Spreading it would throw after the total has been set.
- The `useEffect` scheduling (lines 65-67) is not modelled. The scenarios call `Refresh` where React would run the effect.
- React's batched state updates are modelled as immediate assignments. Each handler reads its inputs before it writes them, so its result is the same.
- `console.error` (line 58) is not modelled.
- JavaScript numbers are modelled as unbounded integers. Non-integer values and `NaN` are not modelled.
- The count input's `max={totalRecords}` clamp is not modelled. It belongs to the widget; the model keeps only its minimum of 1.
