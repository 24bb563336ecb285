/** How the query-log page reads one log entry (client/src/components/Logs/index.js):
    the predicates on the entry's `reason`, the filter key and filter name
    shown in the response cell, the service name, the colour of the row and
    the action offered in the client cell. */
module LogEntries {
  import opened Wrappers
  import opened Text
  import opened LogRules

  /** `FILTERED_REASON`. */
  const FilteredReason := "Filtered"

  /** The three `FILTERED_STATUS` values the page compares `reason` with.
      They come from client/src/helpers/constants.js, which is not part of
      this model, so they are a parameter. */
  datatype FilteredStatus = FilteredStatus(rewrite: string, notFilteredWhiteList: string, filteredBlockedService: string)

  /** One filter list of the filtering status (`filters[key]`). */
  datatype Filter = Filter(id: int, name: string)

  /** One entry of `SERVICES`. */
  datatype Service = Service(id: string, name: string)

  /** The fields of a log entry the page reads; `serviceName` is absent
      (`undefined`) on most entries. */
  datatype LogEntry = LogEntry(
    domain: string,
    responses: seq<string>,
    reason: string,
    filterId: int,
    rule: string,
    status: string,
    serviceName: Option<string>)

  // ---------------------------------------------------------------------
  // Predicates on the reason
  // ---------------------------------------------------------------------

  /** `checkFiltered`: `reason.indexOf('Filtered') === 0`. */
  function IsFiltered(reason: string): (b: bool)
    ensures b <==> StartsWith(reason, FilteredReason)
  {
    var r := FirstOccurrence(reason, FilteredReason);
    assert StartsWith(reason, FilteredReason) ==> OccursAt(reason, FilteredReason, 0);
    r == Some(0)
  }

  /** `checkRewrite`. */
  predicate IsRewrite(reason: string, st: FilteredStatus) {
    reason == st.rewrite
  }

  /** `checkWhiteList`. */
  predicate IsWhiteList(reason: string, st: FilteredStatus) {
    reason == st.notFilteredWhiteList
  }

  predicate IsBlockedService(reason: string, st: FilteredStatus) {
    reason == st.filteredBlockedService
  }

  /** `reason.replace('Filtered', '')`: the first `Filtered` anywhere in the
      reason is deleted, so the key is the rest of a filtered reason, and the
      reason itself when `Filtered` does not occur. */
  function FilterKey(reason: string): (k: string)
    ensures IsFiltered(reason) ==> k == reason[|FilteredReason|..]
    ensures (forall j: nat :: !OccursAt(reason, FilteredReason, j)) ==> k == reason
    ensures forall j: nat :: OccursAt(reason, FilteredReason, j) && (forall i: nat :: i < j ==> !OccursAt(reason, FilteredReason, i))
              ==> k == reason[..j] + reason[j + |FilteredReason|..]
  {
    assert IsFiltered(reason) ==> OccursAt(reason, FilteredReason, 0);
    RemoveFirst(reason, FilteredReason)
  }

  // ---------------------------------------------------------------------
  // Names
  // ---------------------------------------------------------------------

  /** The first catalog position, in key order, whose filter has this id. */
  function FirstFilterWithId(filters: seq<Filter>, id: int): (r: Option<nat>)
    ensures r.Some? ==> r.value < |filters| && filters[r.value].id == id
    ensures r.Some? ==> forall k :: 0 <= k < r.value ==> filters[k].id != id
    ensures r.None? <==> forall k :: 0 <= k < |filters| ==> filters[k].id != id
  {
    if filters == [] then None
    else if filters[0].id == id then Some(0)
    else match FirstFilterWithId(filters[1..], id)
      case None => None
      case Some(k) => Some(k + 1)
  }

  /** The label shown for the filter an entry matched: the translation of
      `custom_filter_rules`, a filter's name, or the translation of
      `unknown_filter` with the id. Translations are opaque tokens here. */
  datatype FilterLabel = CustomFilterRules | FilterNamed(name: string) | UnknownFilter(filterId: int)

  predicate IsFirstWithId(filters: seq<Filter>, id: int, k: int) {
    0 <= k < |filters| && filters[k].id == id && forall m :: 0 <= m < k ==> filters[m].id != id
  }

  /** The filter name of the response cell. */
  function FilterName(filterId: int, filters: seq<Filter>): (r: FilterLabel)
    ensures filterId == 0 ==> r == CustomFilterRules
    ensures filterId != 0 ==> !r.CustomFilterRules?
    ensures forall k :: filterId != 0 && IsFirstWithId(filters, filterId, k) && filters[k].name != ""
              ==> r == FilterNamed(filters[k].name)
    ensures (filterId != 0 && forall k :: IsFirstWithId(filters, filterId, k) ==> filters[k].name == "") ==>
              r == UnknownFilter(filterId)
  {
    if filterId == 0 then CustomFilterRules
    else
      var name := match FirstFilterWithId(filters, filterId)
        case None => ""
        case Some(k) => filters[k].name;
      if name == "" then UnknownFilter(filterId) else FilterNamed(name)
  }

  /** The first service, in catalog order, whose id equals the entry's
      `serviceName` (`SERVICES.find(...)`); an absent `serviceName` matches
      nothing. */
  function FindService(services: seq<Service>, serviceName: Option<string>): (r: Option<nat>)
    ensures r.Some? ==> r.value < |services| && serviceName == Some(services[r.value].id)
    ensures r.Some? ==> forall k :: 0 <= k < r.value ==> serviceName != Some(services[k].id)
    ensures r.None? <==> forall k :: 0 <= k < |services| ==> serviceName != Some(services[k].id)
  {
    if services == [] then None
    else if serviceName == Some(services[0].id) then Some(0)
    else match FindService(services[1..], serviceName)
      case None => None
      case Some(k) => Some(k + 1)
  }

  /** `currentService && currentService.name`. */
  function ServiceName(services: seq<Service>, serviceName: Option<string>): (r: Option<string>)
    ensures r.None? <==> forall k :: 0 <= k < |services| ==> serviceName != Some(services[k].id)
    ensures r.Some? ==> FindService(services, serviceName).Some? &&
                        r.value == services[FindService(services, serviceName).value].name
  {
    match FindService(services, serviceName)
    case None => None
    case Some(k) => Some(services[k].name)
  }

  // ---------------------------------------------------------------------
  // The response cell, the row and the client cell
  // ---------------------------------------------------------------------

  /** What a popover shows: a matched rule and its filter, or (for a blocked
      service) only the service name, with the rule and filter empty. */
  datatype Popover = RulePopover(rule: string, filter: FilterLabel) | ServicePopover(service: Option<string>)

  /** The answers of the entry as a list, or the response status when there
      are none. */
  datatype ResponseList = Answers(items: seq<string>) | StatusLine(status: string)

  /** The parts of the response cell that depend on the entry:
      `filteredReason` is the filter key given to `query_log_filtered`. */
  datatype ResponseCell = ResponseCell(
    filteredReason: Option<string>,
    popover: Option<Popover>,
    rewriteApplied: bool,
    responses: ResponseList,
    whiteListPopover: Option<Popover>)

  /** `getResponseCell`. */
  function ResponseCellOf(e: LogEntry, st: FilteredStatus, filters: seq<Filter>, services: seq<Service>): (c: ResponseCell)
    ensures c.filteredReason.Some? <==> IsFiltered(e.reason) || IsBlockedService(e.reason, st)
    ensures c.filteredReason.Some? ==> c.filteredReason.value == FilterKey(e.reason)
    ensures c.popover.Some? <==> IsFiltered(e.reason)
    ensures c.popover.Some? ==> (c.popover.value.ServicePopover? <==> IsBlockedService(e.reason, st))
    ensures c.popover.Some? && c.popover.value.ServicePopover? ==> c.popover.value.service == ServiceName(services, e.serviceName)
    ensures c.popover.Some? && c.popover.value.RulePopover? ==> c.popover.value == RulePopover(e.rule, FilterName(e.filterId, filters))
    ensures c.rewriteApplied <==> IsRewrite(e.reason, st)
    ensures c.whiteListPopover.Some? <==> IsWhiteList(e.reason, st)
    ensures c.whiteListPopover.Some? ==> c.whiteListPopover.value == RulePopover(e.rule, FilterName(e.filterId, filters))
    ensures c.responses == if |e.responses| > 0 then Answers(e.responses) else StatusLine(e.status)
  {
    var isFiltered := IsFiltered(e.reason);
    var isBlockedService := IsBlockedService(e.reason, st);
    var filterName := FilterName(e.filterId, filters);
    var tooltip :=
      if !isFiltered then None
      else if isBlockedService then Some(ServicePopover(ServiceName(services, e.serviceName)))
      else Some(RulePopover(e.rule, filterName));
    ResponseCell(
      if isFiltered || isBlockedService then Some(FilterKey(e.reason)) else None,
      tooltip,
      IsRewrite(e.reason, st),
      if |e.responses| > 0 then Answers(e.responses) else StatusLine(e.status),
      if IsWhiteList(e.reason, st) then Some(RulePopover(e.rule, filterName)) else None)
  }

  /** The class `getTrProps` gives a row; `None` stands for the empty
      properties returned when there is no row. */
  function RowClass(row: Option<LogEntry>, st: FilteredStatus): (r: Option<string>)
    ensures r.None? <==> row.None?
    ensures r == Some("red") <==> row.Some? && IsFiltered(row.value.reason)
    ensures r == Some("green") <==> row.Some? && !IsFiltered(row.value.reason) && IsWhiteList(row.value.reason, st)
    ensures r == Some("blue") <==> row.Some? && !IsFiltered(row.value.reason) && !IsWhiteList(row.value.reason, st) && IsRewrite(row.value.reason, st)
    ensures r == Some("") <==> row.Some? && !IsFiltered(row.value.reason) && !IsWhiteList(row.value.reason, st) && !IsRewrite(row.value.reason, st)
  {
    match row
    case None => None
    case Some(e) =>
      if IsFiltered(e.reason) then Some("red")
      else if IsWhiteList(e.reason, st) then Some("green")
      else if IsRewrite(e.reason, st) then Some("blue")
      else Some("")
  }

  /** The action of the client cell: a link to the rewrite settings, or the
      block/unblock button (disabled while rules are being processed). */
  datatype ClientAction = ConfigureRewrites | ToggleButton(kind: ToggleKind, domain: string, disabled: bool)

  /** `getClientCell` with `renderBlockingButton`. */
  function ClientActionOf(e: LogEntry, st: FilteredStatus, processingRules: bool): (a: ClientAction)
    ensures a.ConfigureRewrites? <==> IsRewrite(e.reason, st)
    ensures a.ToggleButton? ==> a.domain == e.domain && a.disabled == processingRules
    ensures a.ToggleButton? ==> (a.kind == Unblock <==> IsFiltered(e.reason))
  {
    if IsRewrite(e.reason, st) then ConfigureRewrites
    else ToggleButton(if IsFiltered(e.reason) then Unblock else Block, e.domain, processingRules)
  }

  // ---------------------------------------------------------------------
  // How the pieces agree
  // ---------------------------------------------------------------------

  /** The row colour and the response cell tell the same story: red rows
      carry the filter popover, green rows the allow-list popover, blue rows
      the rewrite notice. */
  lemma RowColourMatchesCell(e: LogEntry, st: FilteredStatus, filters: seq<Filter>, services: seq<Service>)
    ensures var c := ResponseCellOf(e, st, filters, services);
      var r := RowClass(Some(e), st);
      (r == Some("red") <==> c.popover.Some?) &&
      (r == Some("green") <==> c.popover.None? && c.whiteListPopover.Some?) &&
      (r == Some("blue") <==> c.popover.None? && c.whiteListPopover.None? && c.rewriteApplied)
  {
  }

  /** Outside rewritten entries, the button unblocks exactly on red rows. */
  lemma UnblockExactlyOnRedRows(e: LogEntry, st: FilteredStatus, processingRules: bool)
    requires !IsRewrite(e.reason, st)
    ensures ClientActionOf(e, st, processingRules).ToggleButton?
    ensures ClientActionOf(e, st, processingRules).kind == Unblock <==> RowClass(Some(e), st) == Some("red")
  {
  }

  /** Pressing the button of a red row whose domain has neither override
      adds the exception rule for that domain and no block rule. */
  lemma UnblockingRedRowAddsException(e: LogEntry, st: FilteredStatus, rules: string)
    requires !IsRewrite(e.reason, st) && IsFiltered(e.reason)
    requires '\n' !in e.domain
    requires !HasLine(rules, BlockRule(e.domain)) && !HasLine(rules, ExceptionRule(e.domain))
    ensures var a := ClientActionOf(e, st, false);
      var r := Toggle(rules, a.domain, a.kind);
      r.Some? && HasLine(r.value, ExceptionRule(e.domain)) && !HasLine(r.value, BlockRule(e.domain))
  {
    ToggleLeavesOneOverride(rules, e.domain, Unblock);
  }

  /** A reason naming a filter list: filtered, with the list's key. */
  lemma FilteredReasonExample()
    ensures IsFiltered("FilteredAdGuardBase") && FilterKey("FilteredAdGuardBase") == "AdGuardBase"
  {
    assert StartsWith("FilteredAdGuardBase", FilteredReason);
    assert "FilteredAdGuardBase"[8..] == "AdGuardBase";
  }

  /** A pattern cannot occur where its first letter does not. */
  lemma NoOccurrenceAt(s: string, p: string, j: nat)
    requires j < |s| && |p| > 0 && s[j] != p[0]
    ensures !OccursAt(s, p, j)
  {
  }

  const WhiteListedReason := "NotFilteredWhiteList"

  lemma WhiteListedReasonFirstFiltered()
    ensures FirstOccurrence(WhiteListedReason, FilteredReason) == Some(3)
  {
    var s := WhiteListedReason;
    assert OccursAt(s, FilteredReason, 3);
    NoOccurrenceAt(s, FilteredReason, 0);
    NoOccurrenceAt(s, FilteredReason, 1);
    NoOccurrenceAt(s, FilteredReason, 2);
  }

  lemma WhiteListedReasonCut()
    ensures WhiteListedReason[..3] + WhiteListedReason[11..] == "NotWhiteList"
  {
    assert WhiteListedReason[..3] == "Not";
    assert WhiteListedReason[11..] == "WhiteList";
  }

  /** The key is not a suffix in general: an allow-listed entry is not
      filtered, yet its key loses the `Filtered` in the middle. */
  lemma WhiteListReasonKey()
    ensures !IsFiltered(WhiteListedReason)
    ensures FilterKey(WhiteListedReason) == "NotWhiteList"
  {
    WhiteListedReasonFirstFiltered();
    WhiteListedReasonCut();
    var s := WhiteListedReason;
    assert FilterKey(s) == RemoveFirst(s, FilteredReason);
  }
}
