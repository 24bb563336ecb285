/** The query-log page's calls into its owner (the Redux action creators it
    receives as properties), recorded as data so that each handler can be
    a function that returns the calls it makes, in order. */
module LogEffects {

  /** Which success notice the rule toggle raises. */
  datatype ToastKind = RuleRemoved | RuleAdded

  /** The argument of `getLogs`: the cursor, the page and the page size. */
  datatype LogsRequest = LogsRequest(olderThan: string, page: int, pageSize: int)

  datatype Effect =
    | SetRules(rules: string)
    | SuccessToast(kind: ToastKind, rule: string)
    | GetFilteringStatus
    | GetLogs(request: LogsRequest)
    | SetLogsPage(page: int)
    | SetLogsPagination(page: int, pageSize: int)
    | GetClients
    | GetLogsConfig
}
