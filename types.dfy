/** The values the table component passes around: the artwork record, the
    paginator's lazy-loading state and page event, and the outcome of one
    page request. */
module Types {

  datatype Option<+T> = None | Some(value: T) {
    /** `x ?? default` */
    function GetOr(default: T): T {
      match this
      case Some(v) => v
      case None => default
    }
  }

  /** One artwork as the collection API returns it; the component only relies
      on `id` (the table's data key). */
  datatype Artwork = Artwork(
    id: string,
    title: string,
    artistDisplay: string,
    placeOfOrigin: string,
    inscriptions: string,
    dateStart: int,
    dateEnd: int)

  /** The paginator state: index of the first row shown, rows per page, the
      1-based page number and the (never changed) sort settings. */
  datatype LazyState = LazyState(
    first: int,
    rows: int,
    page: int,
    sortField: Option<string>,
    sortOrder: Option<int>)

  /** What the paginator reports on a page change; `page` is 0-based and may be absent. */
  datatype PageEvent = PageEvent(first: int, rows: int, page: Option<int>)

  /** How one page request ended: a body with `data` and `pagination.total`,
      a body whose `pagination` is missing (reading `total` throws after the
      page has already been shown), or a request that failed outright. */
  datatype FetchOutcome =
    | Fetched(data: seq<Artwork>, total: int)
    | MissingPagination(data: seq<Artwork>)
    | Failed
}
