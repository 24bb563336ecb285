/** When the query-log page asks for logs (client/src/components/Logs/index.js):
    the first request on mount, the `getLogs` guard on the log settings, the
    last-page trigger of `fetchData` and the page change. */
module LogPaging {
  import opened Wrappers
  import opened LogEffects

  /** `TABLE_FIRST_PAGE`. */
  const FirstPage := 0

  /** `INITIAL_REQUEST_DATA`: no cursor, the first page, the default size
      (`TABLE_DEFAULT_PAGE_SIZE`, a parameter here). */
  function InitialRequest(defaultPageSize: int): LogsRequest {
    LogsRequest("", FirstPage, defaultPageSize)
  }

  /** `getLogs(older_than, page)`: one request when the query log is enabled,
      none otherwise. A third argument is ignored: the size is always the
      default. */
  function RequestLogs(enabled: bool, olderThan: string, page: int, defaultPageSize: int): (e: seq<Effect>)
    ensures e == [] <==> !enabled
    ensures e != [] ==> e == [GetLogs(LogsRequest(olderThan, page, defaultPageSize))]
  {
    if enabled then [GetLogs(LogsRequest(olderThan, page, defaultPageSize))] else []
  }

  /** `pages && (page + 1 === pages)`; an absent page count is `None`, and a
      count of 0 is falsy. */
  function IsLastPage(pages: Option<int>, page: int): (b: bool)
    ensures b <==> pages == Some(page + 1) && page != -1
  {
    pages.Some? && pages.value != 0 && page + 1 == pages.value
  }

  /** `fetchData`: the table asks for data; the page requests the logs older
      than the current cursor only while it shows the last page. */
  function FetchData(pages: Option<int>, enabled: bool, oldest: string, page: int, defaultPageSize: int): (e: seq<Effect>)
    ensures e != [] <==> enabled && page != -1 && pages == Some(page + 1)
    ensures e != [] ==> e == [GetLogs(LogsRequest(oldest, page, defaultPageSize))]
  {
    if IsLastPage(pages, page) then RequestLogs(enabled, oldest, page, defaultPageSize) else []
  }

  /** `componentDidMount`. */
  function MountEffects(enabled: bool, defaultPageSize: int): (e: seq<Effect>)
    ensures |e| == if enabled then 5 else 4
    ensures e[0] == SetLogsPage(FirstPage)
    ensures e[|e| - 3..] == [GetFilteringStatus, GetClients, GetLogsConfig]
    ensures GetLogs(InitialRequest(defaultPageSize)) in e <==> enabled
    ensures forall k :: 0 <= k < |e| && e[k].GetLogs? ==> k == 1 && e[k].request == InitialRequest(defaultPageSize)
  {
    var r := InitialRequest(defaultPageSize);
    [SetLogsPage(FirstPage)] + RequestLogs(enabled, r.olderThan, r.page, r.pageSize)
      + [GetFilteringStatus, GetClients, GetLogsConfig]
  }

  /** `changePage`: exactly two calls, the page first and then the
      pagination, at the default size; nothing is fetched. */
  function ChangePage(page: int, defaultPageSize: int): (e: seq<Effect>)
    ensures forall k :: 0 <= k < |e| ==> !e[k].GetLogs?
    ensures SetLogsPage(page) in e && SetLogsPagination(page, defaultPageSize) in e
    ensures |e| == 2 && e[0] == SetLogsPage(page)
  {
    [SetLogsPage(page), SetLogsPagination(page, defaultPageSize)]
  }

  /** The mount request is what `fetchData` would send for page 0 of a
      one-page table with no cursor. */
  lemma MountRequestIsFirstFetch(enabled: bool, defaultPageSize: int)
    requires enabled
    ensures MountEffects(enabled, defaultPageSize)[1..2] == FetchData(Some(1), enabled, "", FirstPage, defaultPageSize)
  {
  }
}
