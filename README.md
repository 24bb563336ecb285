# Query-log toggling and first-run configuration, modelled in Dafny

This project models two parts of a DNS-filtering server with a web
interface.

**The query-log page** is `client/src/components/Logs/index.js`.

- Each log entry is classified by its `reason`: filtered, allow-listed,
  rewritten, or a blocked service.
- That classification chooses three things: the colour of the row, what the
  response cell shows (the filter key, the filter or service popover, the
  rewrite notice), and the action in the client cell (a link to the rewrite
  settings, or a block/unblock button).
- The block/unblock button edits the user's custom filtering rules, a text
  of `\n`-separated lines. It first looks for the contradicting rule on a line
  of its own, using the anchored regular expression `(^|\n)RULE($|\n)`.
  - If found, it deletes the first occurrence of that rule's text.
  - Otherwise, if the wanted rule is not there either, it appends the wanted
    rule.
  - Either way, it then reloads the filtering status.
- Logs are requested when the page mounts and when the table reaches its
  last page, but only while the query log is enabled.
- The page's calls to its store (`setRules`, `getLogs`, toasts, …) are
  modelled as a sequence of `LogEffects.Effect` values.

**The first-run wizard** is `home/control_install.go`.

- `hasStaticIP` scans `/etc/dhcpcd.conf` for a `static ip_address=` line
  inside the block of the named interface. It is an imperative loop over the
  lines, carrying a flag for "inside the interface's block".
- `getInterfaceByIP` is a nested search over the interfaces and their
  addresses.
- `handleInstallConfigure` works as follows:
  - It validates the request: zero ports are refused, the web port is checked
    only when the web server must move, then the DNS port is checked over UDP
    and over TCP.
  - It then saves a copy of the install settings, writes in the requested
    ones, and clears `firstRun`.
  - If the DNS server fails to start, or the configuration cannot be written,
    it restores the copy and sets `firstRun` again.
  - The global configuration is a `class InstallConfig.Configuration`, and the
    handler is a method that modifies it.

Modules follow the source:

- `Text` holds the string operations both halves rely on. These are Go's
  `strings.Split`, `strings.TrimSpace` and `strings.HasPrefix`, and
  JavaScript's `indexOf`, `String.prototype.replace` with a string pattern,
  and lodash's `endsWith`.
- `Wrappers` holds `Option` and `Result`.
- `LogEffects` holds the store calls.
- `LogRules` holds `toggleBlocking`.
- `LogEntries` holds the classifier, the cells and the row class.
- `LogPaging` holds the requests.
- `InstallNetwork` holds `hasStaticIP` and `getInterfaceByIP`.
- `InstallConfig` holds the settings, `copyInstallSettings` and
  `handleInstallConfigure`.

Four behaviours of the code are easy to misread:

- Appending to an empty rule list gives `"\n" + rule + "\n"`, not
  `rule + "\n"`. This is because lodash's `endsWith("", "\n")` is false, so the
  line ending is added (`LogRules.ToggleOnEmpty`).
- The code has no in-flight gate on log requests: every `fetchData` on the
  last page of an enabled log sends a request (`LogPaging.FetchData`).
- The code does not keep the cursor monotonic. The cursor is passed on as it
  is found.
- Blocking and then unblocking does not restore the original rules
  (`LogRules.BlockThenUnblockFromEmpty`).

## Model

| member | source | states |
|---|---|---|
| Text.FindFrom | client/src/components/Logs/index.js:83 | the least index at or after `from` where the pattern occurs, or None exactly when it occurs nowhere from there on |
| Text.FirstOccurrence | client/src/components/Logs/index.js:112 | the index `indexOf` returns: the first occurrence of the pattern, and None exactly when it never occurs |
| Text.RemoveFirst | client/src/components/Logs/index.js:83 | `replace` with a string pattern: unchanged text when the pattern does not occur, otherwise the text with its first occurrence cut out |
| Text.FirstIndexOf | home/control_install.go:85 | the first position of the separator, None exactly when it is absent |
| Text.Split | home/control_install.go:85 | `strings.Split` yields at least one piece and no piece holds the separator |
| Text.SplitAtFirst | home/control_install.go:85 | the first piece is the text before the first separator, followed by the pieces of the rest |
| Text.SplitNoSep | home/control_install.go:85 | a text without the separator is one piece |
| Text.SplitConcat | home/control_install.go:85 | splitting `a + sep + b` gives the pieces of `a` followed by the pieces of `b` |
| Text.JoinSplit | home/control_install.go:85 | joining the pieces with the separator restores the text |
| Text.SplitJoin | home/control_install.go:85 | splitting a join of separator-free pieces gives back the pieces |
| Text.TrimLeftDrops | home/control_install.go:90 | the left trim is a suffix of the text, begins with a non-space, and only white space was dropped |
| Text.TrimRightDrops | home/control_install.go:90 | the right trim is a prefix of the text, ends with a non-space, and only white space was dropped |
| Text.StartsWith | home/control_install.go:109 | `strings.HasPrefix`: the text begins with the pattern |
| Text.EndsWith | client/src/components/Logs/index.js:74 | lodash `endsWith`: the text ends with the pattern, which the empty text does not for a non-empty pattern |
| Text.TrimSpace | home/control_install.go:90 | `strings.TrimSpace`: the left trim, then the right trim; its properties are the lemmas below |
| Text.TrimSpaceEnds | home/control_install.go:90 | `TrimSpace` yields a slice of the text with only white space before and after it, and no white space at either end |
| Text.TrimSpaceKeeps | home/control_install.go:90 | a text without white space at its ends is its own trim |
| Text.TrimSpaceIdempotent | home/control_install.go:100 | trimming twice is trimming once, so the second `TrimSpace` of the loop changes nothing |
| LogRules.BlockRule | client/src/components/Logs/index.js:75 | `baseRule`, `\|\|domain^$important` |
| LogRules.ExceptionRule | client/src/components/Logs/index.js:76 | `baseUnblocking`, `@@` followed by the block rule |
| LogRules.ConflictingRule | client/src/components/Logs/index.js:77 | `blockingRule`: the exception for a block, the block rule for an unblock |
| LogRules.WantedRule | client/src/components/Logs/index.js:78 | `unblockingRule`: the block rule for a block, the exception for an unblock |
| LogRules.OnLineAt | client/src/components/Logs/index.js:79-80 | the rule occurs at the index, preceded by the start or a line feed and followed by the end or a line feed, which is what the anchored expression matches there |
| LogRules.HasLine | client/src/components/Logs/index.js:82 | `match` of the anchored expression: an anchored occurrence exists |
| LogRules.LineEnding | client/src/components/Logs/index.js:74 | `lineEnding`: a line feed unless the rules already end with one; its properties are `LineEndingTerminates` |
| LogRules.LineEndingTerminates | client/src/components/Logs/index.js:74 | the rules followed by the line ending always end with a line feed; the ending is empty exactly when the rules already end with one, and is a line feed for the empty list |
| LogRules.RulesOfActions | client/src/components/Logs/index.js:75-78 | block and unblock swap the same two rules, and the exception is `@@` followed by the block rule |
| LogRules.RulesHaveNoLineFeed | client/src/components/Logs/index.js:75-78 | a domain without a line feed gives rules without one |
| LogRules.LinesAround | client/src/components/Logs/index.js:79-80 | the lines of a text cut around a line-feed-free middle are the lines before it, the middle, and the lines after it |
| LogRules.LineAtIndex | client/src/components/Logs/index.js:79-83 | an anchored occurrence is one of the lines, and cutting its text empties exactly that line |
| LogRules.LineOfSplitIsAnchored | client/src/components/Logs/index.js:79-80 | every line of the text is matched by the anchored expression |
| LogRules.HasLineIffLine | client/src/components/Logs/index.js:79-82 | for a rule without a line feed, the anchored expression matches exactly when the rule is one of the lines |
| LogRules.Toggle | client/src/components/Logs/index.js:71-88 | `setRules` is skipped exactly when the contradicting rule is not a line and the wanted rule is |
| LogRules.ToggleEffects | client/src/components/Logs/index.js:82-90 | set the rules and show a removal or addition notice naming the rule, when something changed; reload the filtering status last, always |
| LogRules.ToggleDeletesFirstOccurrence | client/src/components/Logs/index.js:82-83 | when the contradicting rule is a line, the first occurrence of its text, which may come before every anchored one, is cut out |
| LogRules.ToggleRemoves | client/src/components/Logs/index.js:82-83 | when the contradicting rule is a line, the result is `replace` of that rule |
| LogRules.RemoveFirstCutsFirst | client/src/components/Logs/index.js:83 | the cut happens at the first occurrence, no later than any given occurrence |
| LogRules.ToggleEmptiesLine | client/src/components/Logs/index.js:82-83 | when the first occurrence is itself a line, exactly that line becomes empty and every other line is kept |
| LogRules.EmptiedLine | client/src/components/Logs/index.js:83 | cutting an anchored occurrence's text empties its line and keeps the others |
| LogRules.ToggleCutsAt | client/src/components/Logs/index.js:82-83 | an anchored occurrence with no earlier occurrence is the place of the cut |
| LogRules.AppendAfterLineFeed | client/src/components/Logs/index.js:74-86 | after a text ending in a line feed, the new rule takes the place of the final empty line and a new empty line follows |
| LogRules.LastLineEmpty | client/src/components/Logs/index.js:74-86 | a text ending in a line feed is its text before that line feed plus the line feed, and its lines are those of that text followed by an empty line |
| LogRules.AppendAfterOtherText | client/src/components/Logs/index.js:74-86 | otherwise the old lines are kept and the rule and an empty line are added |
| LogRules.ToggleAppendsLine | client/src/components/Logs/index.js:85-86 | when neither rule is a line, the wanted rule is appended with the line ending and a line feed, with the resulting lines in both cases |
| LogRules.ToggleLeavesOneOverride | client/src/components/Logs/index.js:85-86 | after an append the wanted rule is a line and the contradicting one is not |
| LogRules.ToggleTwiceIsNoOp | client/src/components/Logs/index.js:82-88 | repeating a request that appended its rule changes nothing |
| LogRules.ToggleOnEmpty | client/src/components/Logs/index.js:74-86 | an empty rule list becomes `"\n" + rule + "\n"` |
| LogRules.BlockThenUnblockFromEmpty | client/src/components/Logs/index.js:82-87 | block then unblock from an empty list leaves `"\n\n"`, not the empty list |
| LogRules.MiddleLine | client/src/components/Logs/index.js:83 | a rule between two line feeds has its first occurrence right after the first line feed, stands alone on a line there, and cutting it leaves the two line feeds |
| LogRules.ToggleCutsFirst | client/src/components/Logs/index.js:82-83 | when the rule is a line, the cut is at its first occurrence anywhere |
| LogRules.ExceptionThenBlockLayout | client/src/components/Logs/index.js:83 | in `@@RULE\nRULE` the block rule first occurs inside the exception rule, and stands alone on the second line |
| LogRules.UnblockCutsIntoException | client/src/components/Logs/index.js:82-83 | unblocking `@@RULE\nRULE` gives `@@\nRULE`: the block rule stays and the exception is destroyed |
| LogRules.LineAfterMarker | client/src/components/Logs/index.js:79-80 | the rule after `@@` and a line feed is still a line |
| LogRules.FindLineFrom | client/src/components/Logs/index.js:79 | the least index from `from` where the rule stands on a line of its own, or None when there is none |
| LogRules.ToggleAnchored | client/src/components/Logs/index.js:82-83 | the corrected toggle: the cut is at the first anchored occurrence, and everything else is as in `Toggle` |
| LogRules.ToggleAnchoredEmptiesLine | client/src/components/Logs/index.js:82-83 | the corrected toggle always empties exactly the line holding the contradicting rule |
| LogRules.ExceptionThenBlockLine | client/src/components/Logs/index.js:79 | in `@@RULE\nRULE` the rule's first anchored place is the second line |
| LogRules.ToggleAnchoredKeepsException | client/src/components/Logs/index.js:82-83 | the corrected toggle on `@@RULE\nRULE` keeps the exception and drops the block rule |
| LogRules.CutLastLine | client/src/components/Logs/index.js:83 | cutting the text of the last line keeps everything up to its line feed |
| LogRules.RulesDiffer | client/src/components/Logs/index.js:75-78 | the two rules of a request differ and neither is empty |
| LogRules.DoubledBlockLayout | client/src/components/Logs/index.js:83 | in `@@RULERULE\nRULE` the block rule first occurs right after the `@@` and stands alone on the second line |
| LogRules.DoubledBlockLines | client/src/components/Logs/index.js:82 | the exception rule is not a line of `@@RULERULE\nRULE` |
| LogRules.UnblockLeavesBothOverrides | client/src/components/Logs/index.js:82-83 | unblocking `@@RULERULE\nRULE`, where only the block rule is a line, gives `@@RULE\nRULE`, where both rules are lines |
| LogRules.TwoLines | client/src/components/Logs/index.js:79-80 | both halves of `x\ny` are lines |
| LogRules.UpdateKeepsOthers | client/src/components/Logs/index.js:83 | emptying a line other than `w` keeps `w` a line exactly when it was one |
| LogRules.ToggleAnchoredRemovalKeepsWanted | client/src/components/Logs/index.js:82-83 | the corrected removal makes the wanted rule neither appear nor disappear as a line |
| LogRules.ToggleAnchoredLeavesOneOverride | client/src/components/Logs/index.js:82-87 | the corrected toggle never gives a domain both overrides when it did not have both |
| LogEntries.IsFiltered | client/src/components/Logs/index.js:112 | a reason is filtered exactly when it starts with `Filtered` |
| LogEntries.FilterKey | client/src/components/Logs/index.js:146 | a filtered reason's key is the rest after `Filtered`; a reason without `Filtered` is its own key; otherwise the first `Filtered` is cut out wherever it is |
| LogEntries.IsRewrite | client/src/components/Logs/index.js:114 | `checkRewrite`: the reason is the rewrite status |
| LogEntries.IsWhiteList | client/src/components/Logs/index.js:116 | `checkWhiteList`: the reason is the allow-list status |
| LogEntries.IsBlockedService | client/src/components/Logs/index.js:150 | the reason is the blocked-service status |
| LogEntries.FirstFilterWithId | client/src/components/Logs/index.js:158 | the first filter, in key order, with the id, and None exactly when none has it |
| LogEntries.FilterName | client/src/components/Logs/index.js:153-167 | id 0 gives the custom-rules label; otherwise the first matching filter's non-empty name, or the unknown-filter label |
| LogEntries.FindService | client/src/components/Logs/index.js:151 | the first service whose id is the entry's `serviceName`, None exactly when there is none |
| LogEntries.ServiceName | client/src/components/Logs/index.js:151-152 | the name of the first matching service, absent exactly when none matches |
| LogEntries.ResponseCellOf | client/src/components/Logs/index.js:138-192 | the filter key is shown exactly for filtered or blocked-service entries; the popover appears exactly for filtered ones (the service popover exactly for blocked services); the rewrite notice and the allow-list popover follow their predicates; the answers are listed, or the status when there are none |
| LogEntries.RowClass | client/src/components/Logs/index.js:314-338 | red exactly for filtered entries; green for allow-listed ones that are not filtered; blue for rewritten ones that are neither; empty otherwise; no properties without a row |
| LogEntries.ClientActionOf | client/src/components/Logs/index.js:206-214 | the rewrite link exactly for rewritten entries; otherwise a button for the entry's domain, which unblocks exactly when the entry is filtered and is disabled while rules are processed |
| LogEntries.RowColourMatchesCell | client/src/components/Logs/index.js:172-188 | the row colour and the response cell agree: red with the filter popover, green with the allow-list popover, blue with the rewrite notice |
| LogEntries.UnblockExactlyOnRedRows | client/src/components/Logs/index.js:206-214 | outside rewritten entries the button unblocks exactly on red rows |
| LogEntries.UnblockingRedRowAddsException | client/src/components/Logs/index.js:85-87 | pressing a red row's button, with neither override present, adds the exception and no block rule |
| LogEntries.FilteredReasonExample | client/src/components/Logs/index.js:145-146 | `FilteredAdGuardBase` is filtered, with key `AdGuardBase` |
| LogEntries.WhiteListedReasonFirstFiltered | client/src/components/Logs/index.js:146 | in `NotFilteredWhiteList`, `Filtered` first occurs at index 3 |
| LogEntries.WhiteListReasonKey | client/src/components/Logs/index.js:145-146 | `NotFilteredWhiteList` is not filtered, yet its key loses the inner `Filtered` |
| LogPaging.InitialRequest | client/src/components/Logs/index.js:26 | `INITIAL_REQUEST_DATA`: no cursor, page 0, the default size |
| LogPaging.IsLastPage | client/src/components/Logs/index.js:222 | `pages && page + 1 === pages` holds exactly when the page count is `page + 1` and the page is not -1 (which would make the count a falsy 0) |
| LogPaging.RequestLogs | client/src/components/Logs/index.js:38-44 | no request exactly when the query log is disabled; otherwise one request with the cursor, the page and the default size |
| LogPaging.FetchData | client/src/components/Logs/index.js:219-227 | a request is sent exactly when the log is enabled and the table is on its last page, and it carries the current cursor and page |
| LogPaging.MountEffects | client/src/components/Logs/index.js:25-36 | exactly five calls when enabled and four otherwise: the page is reset first; the initial request is made exactly when enabled, and only second; the status, clients and log settings are loaded last |
| LogPaging.ChangePage | client/src/components/Logs/index.js:229-232 | exactly two calls, setting the page first and then the pagination at the default size; nothing is fetched |
| LogPaging.MountRequestIsFirstFetch | client/src/components/Logs/index.js:219-225 | the mount request is what `fetchData` sends for page 0 of a one-page table with no cursor |
| InstallNetwork.NextWithin | home/control_install.go:92-113 | the flag after a line that is not a static address inside the block: blank lowers it, a comment keeps it, the header raises it from down, an `interface ` line lowers it from up |
| InstallNetwork.WithinAt | home/control_install.go:87-113 | the flag before a given line, starting down |
| InstallNetwork.HasStaticIP | home/control_install.go:76-121 | on Windows, and when the file cannot be read, the answer is false with the error; otherwise no error, and true exactly when a static address line is met inside the interface's block |
| InstallNetwork.ScanLines | home/control_install.go:87-120 | the loop answers true exactly when some trimmed line starts with `static ip_address=` while the flag is up |
| InstallNetwork.TrimmedAt | home/control_install.go:90 | the scan sees each line trimmed, in place |
| InstallNetwork.TrimmedLength | home/control_install.go:89-90 | trimming keeps the number of lines |
| InstallNetwork.PrefixesDiffer | home/control_install.go:109-114 | no line starts with both prefixes, and an address line is neither blank nor a comment |
| InstallNetwork.BlockStaysOpen | home/control_install.go:92-113 | after the interface's header, the flag stays up over non-blank lines that are comments or not `interface ` lines |
| InstallNetwork.WithinHasHeader | home/control_install.go:102-106 | the flag is up only after a header that raised it, followed by such lines |
| InstallNetwork.WithinIffBlock | home/control_install.go:92-113 | the flag is up exactly inside a block |
| InstallNetwork.StaticAddressIffBlock | home/control_install.go:89-120 | true exactly when an address line follows the header, met with the flag down, with no blank line and no other `interface ` line in between |
| InstallNetwork.HeaderAfterBlankOpens | home/control_install.go:92-106 | a header at the top or after a blank line opens a block |
| InstallNetwork.BlankAndCommentLines | home/control_install.go:92-99 | blank and comment lines never raise the flag, and a blank line lowers it |
| InstallNetwork.InterfaceLineCloses | home/control_install.go:109-112 | inside a block any `interface ` line, even the same header, lowers the flag |
| InstallNetwork.RepeatedHeaderHidesAddress | home/control_install.go:102-116 | the same header twice in a row hides the static address after it |
| InstallNetwork.RepeatedHeaderIsTrimmed | home/control_install.go:90 | that example's lines are their own trim |
| InstallNetwork.GetInterfaceByIP | home/control_install.go:144-159 | the name of the first interface carrying the address; empty when the enumeration fails or no interface carries it |
| InstallConfig.Configuration.Zero | home/control_install.go:339 | the zero record: `firstRun` false, empty hosts, zero ports, no users |
| InstallConfig.CopyInstallSettings | home/control_install.go:290-295 | the four install settings of the source are copied; `firstRun` and the users are untouched |
| InstallConfig.NeedsRebind | home/control_install.go:311-315 | `restartHTTP`: the web server moves unless both its host and its port stay |
| InstallConfig.Validate | home/control_install.go:306-337 | validation passes exactly when both ports are nonzero, the web port is free if the web server moves, and the DNS port is free over UDP and TCP; each failure cause is named exactly when it is the first check to fail; the web port is probed exactly when it moves |
| InstallConfig.HandleInstallConfigure | home/control_install.go:298-379 | malformed and invalid requests give 400 and change nothing; DNS start and write failures give 500 and restore the settings with `firstRun` set; success installs the requested settings with `firstRun` cleared; the web server is shut down exactly on success when it moves |
| InstallConfig.CommitInstall | home/control_install.go:339-368 | saves, replaces and on failure restores the settings; the user is added before the write and stays when the write fails |

## Left out

- I/O is not modelled: the file read, the interface enumeration, the port
  checks, starting the DNS server and writing the configuration become
  inputs (`dhcpcdConf`, `ifaces`, `tcpFree`, `udpFree`, `dnsStarts`,
  `writeSucceeds`). `runtime.GOOS` becomes `isWindows`.
- JSON decoding is an `Option` of the decoded request. The Go error messages
  of `httpError` keep only their status and a `Cause`.
- Rendering is not modelled: React elements, CSS classes other than the row
  colour, translations (`t`, `Trans`) and the text of toasts. A toast keeps
  its kind and its rule.
- `initDNSServer` is not modelled. `auth.UserAdd` becomes appending the user
  with its password; hashing and persistence are not modelled.
- The `Shutdown` goroutine is not modelled. It becomes the `shutdownHttp`
  result.
- `handleInstallGetAddresses`, `handleInstallCheckConfig`, `getFullIP` and the
  DNS stub-listener checks and fixes of `home/control_install.go` are not part
  of this model.
- `FILTERED_STATUS`, `SERVICES` and `TABLE_DEFAULT_PAGE_SIZE` come from
  `client/src/helpers/constants.js`, which is not part of this model. They
  are parameters.
- The key order of `Object.keys(filters)` is the order of a sequence.
- Go byte strings are modelled as `seq<char>`. `IsSpace` is Unicode white
  space by code point. The regular-expression engine is replaced by the
  anchored-occurrence predicate `OnLineAt`, which matches what the escaped
  expression matches.
- LogPaging.FetchData: the cursor is passed on as found; no monotonicity or
  in-flight gate is stated, because the code has neither.
- The props data returned by `getTrProps` is an `Option<string>` class name.

## Findings

| source | as written | input that shows it | evidently intended | confidence | as-written member | corrected member |
|---|---|---|---|---|---|---|
| client/src/components/Logs/index.js:83 | the rule is found with an anchored expression but removed with `replace` of its text, which cuts the first occurrence anywhere, even inside another rule | unblock `d` with rules `@@\|\|d^$important\n\|\|d^$important` gives `@@\n\|\|d^$important`: the exception is broken and the block stays | cut the rule where the anchored expression found it, giving `@@\|\|d^$important\n` | medium, not executed | LogRules.UnblockCutsIntoException | LogRules.ToggleAnchored |
| client/src/components/Logs/index.js:82-83 | the same unanchored `replace` can join the rest of a line into the other override, so a toggle can leave a domain with both overrides | unblock `d` with rules `@@\|\|d^$important\|\|d^$important\n\|\|d^$important`: only the block rule is a line, and the result `@@\|\|d^$important\n\|\|d^$important` has both rules as lines | a toggle never leaves a domain with both overrides | medium, not executed | LogRules.UnblockLeavesBothOverrides | LogRules.ToggleAnchoredLeavesOneOverride |
