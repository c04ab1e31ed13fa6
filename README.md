# release-tracker-ui: a verified model of the dashboard's data shaping

release-tracker-ui is a React dashboard. It shows which build of each component is deployed to which environment (dev, qa, uat, prod and others), keeps a filterable, paged history of deployments per component, and lets the user pick an EIM (the application group whose components are shown). This project models in Dafny the logic that turns API answers into what the screens show:

- the per-environment "latest deployment" reduction and the record transforms applied to API answers;
- the deployment-history filter (environment, status, inclusive date range);
- the derived environment list (a fixed baseline, then other names in first-seen order);
- the 24-hour recency test and the colour and icon lookups;
- the ISO timestamp split and its fallback display;
- the pagination arithmetic and the 5-button page window;
- the status and per-environment counters;
- the substring search filters over EIM and IEM lists.

Module layout, one module per source file:

- `Wrappers`, `Seqs`, `Text` and `Types` are shared.
  - `Seqs` holds `filter`, order-preserving subsequences, and the insertion-ordered `Set` filled by `add`.
  - `Text` holds ASCII `toLowerCase`, `includes`, `split`, `trim`, the whitespace-run slug, and decimal printing.
  - `Types` holds the records of src/types.ts.
- `ComponentHistoryHelpers`: src/utils/componentHistoryHelpers.ts.
- `MockData`: src/data/mockData.ts.
- `Helpers`: src/utils/helpers.ts.
- `FormatDateTime`: src/utils/formatDateTime.ts.
- `Pagination`: src/components/Pagination.tsx, plus the page arithmetic of src/components/ComponentHistory.tsx.
- `ComponentHistory`: src/components/ComponentHistory.tsx, as the class `ComponentHistoryView`. It holds the four filter controls and the current page, and methods change them the way the component's `useState` setters and reset effect do.
- `ComponentHistoryStats`, `SummaryStats`, `IemSelector`, `EimSearch`: the components of the same names.

Where the source changes state step by step, the model does too:

- `FilterDeploymentHistory` computes the match flags in a loop. It is proved equal to the specification `FilteredHistory`.
- `ComputeEnvironments` fills an insertion-ordered set in a loop. It is proved equal to `EnvironmentList`.
- `LatestPerEnvironment` and `GetComponentHistory` update a map in a loop. Each is proved to meet a declarative contract.

Dates are abstract:

- `parse` stands for `new Date(s).getTime()`.
- `dayStart` stands for `new Date(s)` after `setHours(0, 0, 0, 0)`.
- `dayEnd` stands for `new Date(s)` after `setHours(23, 59, 59, 999)`. It is a function of its own, not `dayStart` plus a constant: on a daylight-saving day the local day lasts 23 or 25 hours.
- All three are functions to `Option<int>` milliseconds, where `None` is an invalid date (NaN).
- The clock reading `nowMs` is a parameter.

Notes on the code as written:

- An event whose timestamp does not parse is kept by the date filter. Every comparison with NaN is false, so neither bound drops it (componentHistoryHelpers.ts:23,30). The model follows the code: `UnparseableNotExcludedByDates`.
- In the latest-per-environment reduction, an event replaces the stored one only on a strictly higher `rn` (mockData.ts:40). On a tie, the first event in input order stays. The model follows the code: `LatestPerEnvironmentTieKeepsFirst`.
- ComponentHistory.tsx contains copies of code from componentHistoryHelpers.ts:
  - The filter callback (44-71) is modelled separately as `InlineKeeps`. It is proved to keep the same events as the helper (`InlineFilterIsHelperFilter`).
  - The `environments` memo (97-108) is the same `Set` filling as `computeEnvironments`, so `Environments` calls `ComputeEnvironments`.
  - The status and colour switches (110-150) are the same as the helpers' (`StatusIcon`, `StatusColor`, `EnvironmentColor`).
- `getEnvironmentColor` in componentHistoryHelpers.ts lower-cases its argument. The one in helpers.ts does not, and it special-cases `fut` in dark mode only.

## Model

| member | source | states |
|---|---|---|
| ComponentHistoryHelpers.FilterDeploymentHistory | src/utils/componentHistoryHelpers.ts:3-38 | the flag-by-flag loop returns exactly `FilteredHistory`: the events meeting all four criteria, in input order |
| ComponentHistoryHelpers.FilteredHistoryIsSubsequence | src/utils/componentHistoryHelpers.ts:10 | the filtered history is an order-preserving subsequence of the input |
| ComponentHistoryHelpers.NoCriteriaKeepsAll | src/utils/componentHistoryHelpers.ts:11-36 | with all four controls empty the result is the input itself |
| ComponentHistoryHelpers.FilteredHistoryMembers | src/utils/componentHistoryHelpers.ts:11-36 | an event is kept iff it is in the input, the environment matches case-insensitively (or is unset), the status equals the criterion (or is unset), and the dates allow it |
| ComponentHistoryHelpers.FilteredHistoryIdempotent | src/utils/componentHistoryHelpers.ts:10-37 | filtering the result again with the same criteria changes nothing |
| ComponentHistoryHelpers.DateRangeInclusive | src/utils/componentHistoryHelpers.ts:18-33 | with both bounds set and parseable, an event passes iff `dayStart(start) <= t <= dayEnd(end)` |
| ComponentHistoryHelpers.EndOfDayBoundary | src/utils/componentHistoryHelpers.ts:26-32 | an event at the end day's last millisecond (23:59:59.999 local) is kept, one a millisecond later is dropped |
| ComponentHistoryHelpers.UnparseableNotExcludedByDates | src/utils/componentHistoryHelpers.ts:19-30 | an unparseable timestamp (NaN) passes both date bounds |
| ComponentHistoryHelpers.EnvironmentAndStatusExample | src/utils/componentHistoryHelpers.ts:11-14 | environment and status combine with AND: of dev/success, dev/failed and qa/failed, only dev/failed is kept for "dev" and "failed" |
| ComponentHistoryHelpers.ComputeEnvironments | src/utils/componentHistoryHelpers.ts:40-51 | the set-filling loop returns exactly `EnvironmentList(history)` |
| ComponentHistoryHelpers.EnvNamesMembers | src/utils/componentHistoryHelpers.ts:43-47 | the names added to the set are exactly the lower-cased non-empty `envName`s |
| ComponentHistoryHelpers.EnvironmentListShape | src/utils/componentHistoryHelpers.ts:42-50 | the list is the baseline followed by the other names in first-seen order |
| ComponentHistoryHelpers.BaselineFiltersOut | src/utils/componentHistoryHelpers.ts:49 | the `!standard.includes` filter removes every baseline name |
| ComponentHistoryHelpers.EnvironmentListStartsWithBaseline | src/utils/componentHistoryHelpers.ts:41-50 | the list starts with exactly dev, qa, uat, prod, even for an empty history |
| ComponentHistoryHelpers.EnvironmentListNoDuplicates | src/utils/componentHistoryHelpers.ts:42-50 | no name occurs twice in the list |
| ComponentHistoryHelpers.EnvironmentListMembers | src/utils/componentHistoryHelpers.ts:43-49 | a name is listed iff it is a baseline name or the lower-cased form of some non-empty `envName` |
| ComponentHistoryHelpers.StatusIcon | src/utils/componentHistoryHelpers.ts:53-64 | the icon is `Clock` exactly for strings that are not one of the three statuses |
| ComponentHistoryHelpers.StatusColor | src/utils/componentHistoryHelpers.ts:66-77 | the badge is gray exactly for strings that are not one of the three statuses |
| ComponentHistoryHelpers.EnvironmentColor | src/utils/componentHistoryHelpers.ts:79-93 | the history badge colour; its contract is stated by `EnvironmentColorIgnoresCase` |
| ComponentHistoryHelpers.EnvironmentColorIgnoresCase | src/utils/componentHistoryHelpers.ts:79-93 | the colour depends only on the lower-cased name, and is non-gray exactly for the four baseline names |
| MockData.LatestPerEnvironment | src/data/mockData.ts:33-44 | the `deploymentsByEnv` map has one key per lower-cased `envName` occurring in the events, and each value is an input event under that key with the highest `rn`, the first such on a tie |
| MockData.LatestAtUnique | src/data/mockData.ts:38-42 | at most one event is the first with the highest `rn` under a key |
| MockData.LatestPerEnvironmentUnique | src/data/mockData.ts:35-44 | the reduction's result is determined by its input: two maps meeting its contract are equal |
| MockData.LatestPerEnvironmentTieKeepsFirst | src/data/mockData.ts:38-42 | with two `prod` events of equal `rn` around a `dev` event, the first `prod` event and the `dev` event are stored, under keys `prod` and `dev` only |
| MockData.EnvKeyIgnoresCase | src/data/mockData.ts:36 | `PROD` and `prod` are grouped under the same key `prod` |
| MockData.ComponentId | src/data/mockData.ts:47-49 | with a first-event `componentId`, the id is a canonical decimal (no leading zero, no `-0`) that reads back as that number; otherwise it is a whitespace-free slug no longer than the name |
| MockData.NumericIdIsCanonical | src/data/mockData.ts:48 | the numeric id is the only canonical decimal of the first event's `componentId`, so `"07"` never appears |
| MockData.SlugShape | src/data/mockData.ts:49 | the slug holds no upper-case ASCII letter, and each of its characters is a `-` or a character of the lower-cased name |
| MockData.SlugReplacesRun | src/data/mockData.ts:49 | a whitespace run between whitespace-free text and text not starting with whitespace becomes exactly one `-`; the text before it is lower-cased and kept, the rest is slugged the same way |
| MockData.SlugOfPlainName | src/data/mockData.ts:49 | a lower-case name without whitespace is its own slug |
| MockData.Repository | src/data/mockData.ts:52 | the first event's `branchUrl`, or `""` without one |
| MockData.Owner | src/data/mockData.ts:53 | a present non-empty EIM id is the owner; anything else gives `Unknown`, and anything but `Unknown` is the given EIM id |
| MockData.ToComponent | src/data/mockData.ts:31-56 | the component record of one API entry: id, name, `"<name> component"`, repository, owner, and the latest-per-environment map |
| MockData.GetComponents | src/data/mockData.ts:30-57 | one component per API entry, in entry order, each the record of its entry |
| MockData.HistoryDate | src/data/mockData.ts:94 | the history date is the text before the first `T` and holds no `T` |
| MockData.HistoryTime | src/data/mockData.ts:95 | the history time is null without a `T`; a present time is non-empty, holds no `T` or `.`, follows `date + "T"` in the input and runs up to the end, a `.` or a second `T`; it is null with a `T` only when the text after the first `T` is empty up to such a stop |
| MockData.ToHistoryEntry | src/data/mockData.ts:91-111 | each history entry is its event with only `deployedAt` and `deployedTime` replaced by the split parts |
| MockData.ToHistory | src/data/mockData.ts:91-111 | the history has the events' length and order, entry by entry |
| MockData.ToHistoryKeepsEvents | src/data/mockData.ts:91-111 | `id`, `status`, `rn` and `envName` are copied unchanged, position by position |
| MockData.GetComponentHistory | src/data/mockData.ts:84-112 | the keys are exactly the entries' component ids, and each id holds the history of the last entry with that id |
| MockData.GetEims | src/data/mockData.ts:139 | a list payload is returned unchanged, a single record as a one-element list |
| MockData.SearchEims | src/data/mockData.ts:142-163 | `[]` for a blank term without a request, else the endpoint's answer; its contract is stated by `SearchEimsBlankTerm` |
| MockData.SearchEimsBlankTerm | src/data/mockData.ts:142-145 | an empty or whitespace-only term yields `[]` locally; any other term yields the endpoint's answer |
| Helpers.EnvironmentColor | src/utils/helpers.ts:1-31 | the background is the gray default exactly for names outside dev, qa, uat, fut, prod (dark) or dev, qa, uat, prod (light) |
| Helpers.EnvironmentTextColor | src/utils/helpers.ts:33-64 | the text colour is the gray default exactly for names outside dev, qa, uat, prod, in both modes |
| Helpers.FutOnlyInDarkMode | src/utils/helpers.ts:1-64 | `fut` has `uat`'s dark background, the gray light background, and gray text in both modes |
| Helpers.ColorsAreCaseSensitive | src/utils/helpers.ts:1-31 | `PROD` gets the gray default, unlike `prod` |
| Helpers.IsRecentDeployment | src/utils/helpers.ts:66-72 | the 24-hour recency test; its contract is stated by `NotRecentWithoutTime`, `RecentIffWithinDay`, `RecentBoundary`, `FutureIsRecent` and `RecentMonotone` |
| Helpers.NotRecentWithoutTime | src/utils/helpers.ts:66-72 | an absent, empty or unparseable timestamp is never recent |
| Helpers.RecentIffWithinDay | src/utils/helpers.ts:68-71 | a parseable timestamp is recent iff `now - t <= 86 400 000` ms |
| Helpers.RecentBoundary | src/utils/helpers.ts:70-71 | exactly 24 hours old is recent, 24 hours and 1 ms is not |
| Helpers.FutureIsRecent | src/utils/helpers.ts:70-71 | a timestamp later than `now` is recent |
| Helpers.RecentMonotone | src/utils/helpers.ts:70-71 | recent at `now` implies recent at every earlier `now` |
| FormatDateTime.ExtractDateTime | src/utils/formatDateTime.ts:2-10 | `extractDateTime`; its contract is stated by `ExtractDateTimeEmpty` and `ExtractDateTimeParts` |
| FormatDateTime.ExtractDateTimeEmpty | src/utils/formatDateTime.ts:6 | null or `""` give empty date and time |
| FormatDateTime.ExtractDateTimeParts | src/utils/formatDateTime.ts:7-9 | the date is the input up to its first `T` and holds no `T`; the time holds no `T` or `.`, is empty without a `T`, `date + "T" + time` starts the input, and the time runs up to the end of the input, a `.` or a second `T` |
| FormatDateTime.FormatDateTime | src/utils/formatDateTime.ts:12-40 | `formatDateTime` with the locale call as a parameter; its contract is stated by `FormatDateTimeEmpty` and `FallbackShape` |
| FormatDateTime.Fallback | src/utils/formatDateTime.ts:34-39 | the `catch` display; its contract is stated by `FallbackShape` |
| FormatDateTime.FormatDateTimeEmpty | src/utils/formatDateTime.ts:16 | null or `""` format as `""` |
| FormatDateTime.FallbackShape | src/utils/formatDateTime.ts:36-38 | the fallback is `""` iff the input starts with `T`, the date alone without a time, otherwise `date at time`, and never shows a `T` |
| Pagination.TotalPages | src/components/ComponentHistory.tsx:79 | the least page count covering `n` items five to a page; 0 exactly for no items |
| Pagination.PageSlice | src/components/ComponentHistory.tsx:80-82 | a page holds at most five items |
| Pagination.PagesPrefix | src/components/ComponentHistory.tsx:79-82 | pages `1..k` in order are the first `min(5k, n)` items |
| Pagination.PagesCoverItems | src/components/ComponentHistory.tsx:79-82 | pages `1..totalPages` in order are exactly the filtered history |
| Pagination.PageInRangeNonEmpty | src/components/ComponentHistory.tsx:79-82 | every existing page is non-empty, and every page but the last is full |
| Pagination.ClampPage | src/components/ComponentHistory.tsx:85 | the new page is at least 1, at most `totalPages` when there are pages, and the requested one when it exists |
| Pagination.ClampPageIdempotent | src/components/ComponentHistory.tsx:84-86 | going to the page one is on changes nothing |
| Pagination.PageWindow | src/components/Pagination.tsx:46-56 | the window has `min(5, totalPages)` buttons |
| Pagination.PageWindowConsecutive | src/components/Pagination.tsx:46-56 | the window's numbers are consecutive and increasing |
| Pagination.PageWindowInRange | src/components/Pagination.tsx:47-56 | with `1 <= current <= total`, every number is a real page and the current page is shown |
| Pagination.PageWindowEnds | src/components/Pagination.tsx:48-53 | per branch: pages `1..total` when `total <= 5`; `1..5` when `current <= 3`; `total-4..total` when `current >= total - 2`; otherwise `current-2..current+2` |
| Pagination.Pager | src/components/Pagination.tsx:21-83 | nothing is rendered iff `totalPages < 1`; a single page shows the all-items text; otherwise the text is `Showing startIndex+1 - b of n` with `b` the smaller of `endIndex` and `n`; controls only for more than one page, with the `PageWindow` buttons; previous disabled iff on page 1, next iff on the last page |
| Pagination.PagerCountsShownItems | src/components/Pagination.tsx:26-31 | with the history view's figures, `Showing a-b of n` has `a = startIndex + 1`, `1 <= a <= b <= n`, and names exactly the items on the page |
| Pagination.ShowingUpper | src/components/ComponentHistory.tsx:322-324 | the upper figure is `min(endIndex, n)`: at most `n` and at most `endIndex`, equal to one of them |
| ComponentHistoryStats.CountStatus | src/components/ComponentHistoryStats.tsx:22-46 | a count is at most the history's length |
| ComponentHistoryStats.Counts | src/components/ComponentHistoryStats.tsx:22-46 | the three tiles; their contract is stated by `CountStatusIsMultiplicity`, `CountsSumToLength` and `CountsPermutationInvariant` |
| ComponentHistoryStats.CountStatusIsMultiplicity | src/components/ComponentHistoryStats.tsx:22-46 | each tile equals the number of entries with its status |
| ComponentHistoryStats.CountsSumToLength | src/components/ComponentHistoryStats.tsx:22-46 | the three tiles sum to the history's length |
| ComponentHistoryStats.CountsPermutationInvariant | src/components/ComponentHistoryStats.tsx:22-46 | reordering the history leaves the tiles unchanged |
| SummaryStats.Stats | src/components/SummaryStats.tsx:21 | one tile per environment, in the order of `environments` |
| SummaryStats.StatFor | src/components/SummaryStats.tsx:22-32 | one environment's tile; its contract is stated by `StatBounds` and `DeployedCountMembers` |
| SummaryStats.Percentage | src/components/SummaryStats.tsx:31-32 | the rounded percentage; its contract is stated by `PercentageIsRounded` and `PercentageBounds` |
| SummaryStats.PercentageIsRounded | src/components/SummaryStats.tsx:31-32 | the percentage is within half a point of `100 * deployed / total` (halves up) |
| SummaryStats.PercentageBounds | src/components/SummaryStats.tsx:31-32 | the percentage lies in 0..100, is 0 without components and 100 when all are deployed |
| SummaryStats.StatBounds | src/components/SummaryStats.tsx:22-32 | `recentCount <= deployedCount <= totalCount = filteredData.length`, and the percentage bounds for the tile |
| SummaryStats.DeployedCountMembers | src/components/SummaryStats.tsx:22-24 | a component is counted as deployed iff it has an entry for the environment |
| IemSelector.FilteredIems | src/components/IEMSelector.tsx:14-20 | the shown IEMs; their contract is stated by `FilteredIemsIsSubsequence`, `FilteredIemsMembers` and `EmptyFiltersKeepAll` |
| IemSelector.FilteredIemsIsSubsequence | src/components/IEMSelector.tsx:14-20 | the filtered list is an order-preserving subsequence of the IEMs |
| IemSelector.FilteredIemsMembers | src/components/IEMSelector.tsx:14-20 | an IEM is shown iff the lower-cased term occurs in its lower-cased name, description or region, and the region is unset or exactly equal |
| IemSelector.EmptyFiltersKeepAll | src/components/IEMSelector.tsx:15-18 | no term and no region shows every IEM |
| IemSelector.RegionsOf | src/components/IEMSelector.tsx:40 | the mapped list has each IEM's region at its position |
| IemSelector.Regions | src/components/IEMSelector.tsx:40 | the region list; its contract is stated by `RegionsDeduplicated` and `RegionCountBound` |
| IemSelector.RegionsDeduplicated | src/components/IEMSelector.tsx:40 | the region list is duplicate-free, in first-seen order, and holds exactly the IEMs' regions |
| IemSelector.RegionCountBound | src/components/IEMSelector.tsx:183 | there are never more regions than IEMs |
| IemSelector.ActiveCount | src/components/IEMSelector.tsx:163 | the active count is at most the number of IEMs |
| IemSelector.ActiveCountMembers | src/components/IEMSelector.tsx:163 | exactly the IEMs with status `active` are counted |
| IemSelector.IemStatuses | src/components/IEMSelector.tsx:163 | the statuses of the IEMs, position by position |
| IemSelector.ActiveCountIsMultiplicity | src/components/IEMSelector.tsx:163 | the active count is the multiplicity of `active` in the IEMs' statuses |
| IemSelector.TotalComponents | src/components/IEMSelector.tsx:173 | the component total; its contract is stated by `TotalComponentsAppend` and `TotalComponentsFromFront` |
| IemSelector.TotalComponentsAppend | src/components/IEMSelector.tsx:173 | the total over a concatenation is the sum of the totals |
| IemSelector.TotalComponentsFromFront | src/components/IEMSelector.tsx:173 | the left fold equals the first `componentCount` plus the total of the rest |
| IemSelector.IemStatusColor | src/components/IEMSelector.tsx:22-29 | the card badge is gray exactly for statuses other than active, maintenance, inactive |
| EimSearch.FilteredEims | src/components/EimSearch.tsx:11-15 | the listed EIMs; their contract is stated by `FilteredEimsIsSubsequence`, `FilteredEimsMembers`, `EmptyTermKeepsAll` and `LongerTermNarrows` |
| EimSearch.FilteredEimsIsSubsequence | src/components/EimSearch.tsx:11-15 | the filtered list is an order-preserving subsequence of the EIMs |
| EimSearch.FilteredEimsMembers | src/components/EimSearch.tsx:11-15 | an EIM is listed iff the lower-cased term occurs in its lower-cased number or name |
| EimSearch.EmptyTermKeepsAll | src/components/EimSearch.tsx:12-14 | the empty term lists every EIM |
| EimSearch.LongerTermNarrows | src/components/EimSearch.tsx:12-14 | a term containing the old one lists a subsequence of the old list |
| ComponentHistory.InlineKeeps | src/components/ComponentHistory.tsx:44-71 | the component's flag-style filter callback; its contract is stated by `InlineFilterIsHelperFilter` |
| ComponentHistory.InlineFilterIsHelperFilter | src/components/ComponentHistory.tsx:44-71 | the component's inline filter keeps the same events as `filterDeploymentHistory` |
| ComponentHistory.ComponentHistoryView.Paginated | src/components/ComponentHistory.tsx:79-82 | the shown page holds at most five events |
| ComponentHistory.ComponentHistoryView.ShowingRange | src/components/ComponentHistory.tsx:322-324 | `Showing a-b of n` never passes `n`, and counts exactly the shown events when there are any |
| ComponentHistory.ComponentHistoryView.StatusTiles | src/components/ComponentHistory.tsx:599-623 | the three tiles over the unfiltered history sum to its length |
| ComponentHistory.ComponentHistoryView.constructor | src/components/ComponentHistory.tsx:37-42 | the screen starts with no filter on page 1 |
| ComponentHistory.ComponentHistoryView.SetSelectedEnvironment | src/components/ComponentHistory.tsx:74-76 | a changed environment filter goes back to page 1; the other controls stay |
| ComponentHistory.ComponentHistoryView.SetSelectedStatus | src/components/ComponentHistory.tsx:74-76 | a changed status filter goes back to page 1; the other controls stay |
| ComponentHistory.ComponentHistoryView.SetStartDate | src/components/ComponentHistory.tsx:74-76 | a changed start date goes back to page 1; the other controls stay |
| ComponentHistory.ComponentHistoryView.SetEndDate | src/components/ComponentHistory.tsx:74-76 | a changed end date goes back to page 1; the other controls stay |
| ComponentHistory.ComponentHistoryView.GoToPage | src/components/ComponentHistory.tsx:84-86 | the page becomes `max(1, min(page, totalPages))`, the requested page when it exists; filters unchanged; the page stays valid |
| ComponentHistory.ComponentHistoryView.ClearAllFilters | src/components/ComponentHistory.tsx:88-94 | all four controls become empty, the page becomes 1, and the filtered list is the whole history |
| ComponentHistory.ComponentHistoryView.Environments | src/components/ComponentHistory.tsx:97-108 | the memo equals `computeEnvironments(history)` |
| Seqs.AddAllIsFirstSeen | src/utils/componentHistoryHelpers.ts:42-47 | filling an insertion-ordered set appends exactly the new elements in first-seen order |
| Text.IntToDecimal | src/data/mockData.ts:48 | `toString()` of an integer is canonical and starts with `-` exactly for negative integers |
| Text.IntToDecimalRoundTrip | src/data/mockData.ts:48 | `toString()` of an integer reads back as that integer |
| Text.CanonicalDecimalUnique | src/data/mockData.ts:48 | two canonical decimals that read as the same integer are the same string |
| Text.DashWhitespaceRuns | src/data/mockData.ts:49 | the slug replacement is no longer than its input and leaves no whitespace |
| Text.DashAddsOnlyDashes | src/data/mockData.ts:49 | the slug replacement adds no character but `-` |
| Text.DashKeepsPrefix | src/data/mockData.ts:49 | whitespace-free text in front is kept unchanged |
| Text.DashWhitespaceRunsRun | src/data/mockData.ts:49 | a whitespace run between whitespace-free text and text not starting with whitespace becomes exactly one `-`, with the text on both sides kept |
| Text.DashWhitespaceRunsIdentity | src/data/mockData.ts:49 | text without whitespace is left unchanged |
| Text.TrimEmptyIffBlank | src/data/mockData.ts:143 | `trim()` is empty exactly for whitespace-only strings |
| Text.SecondSegmentCut | src/utils/formatDateTime.ts:7-8 | the second `T` piece cut at `.` holds neither and follows the first piece and its `T` in the input |
| Text.SecondSegmentEnd | src/utils/formatDateTime.ts:7-8 | the cut piece is as long as it can be: it ends at the end of the input, a second `T` or a `.` |

## Left out

- Network I/O: every `fetch`, URL construction, response check and JSON decode in src/data/mockData.ts. The model starts from the decoded answer: a list of `ApiEntry` values, or an `EimPayload`. `searchEims`' request is the parameter `fetch`.
- `getServers` and `searchEimsAPI` (mockData.ts:166-189): only fetch plumbing and a pass-through.
- ECMAScript `Date` parsing and the local-timezone `setHours`. They are abstract functions (`parse`, `dayStart`, `dayEnd`), so the length of a local day, 23 or 25 hours across a daylight-saving change, is left to them. A date-only string parses as UTC midnight before local hours are set, so the real effective day depends on the host timezone.
- `toLocaleString` and its time zones (formatDateTime.ts:17-33). `FormatDateTime` takes the localized text, or `None` for a throw, as a parameter.
- SummaryStats.Percentage: computed on exact rationals, rounding halves up. `Math.round` of the floating-point quotient can differ at exact halves: 29/200*100 is 14.4999… in binary floating point and rounds to 14, where the model gives 15. The proved properties (the 0..100 bounds, 0 for no components, 100 when all are deployed) hold for both.
- Helpers.IsRecentDeployment: the hour difference is a real quotient; floating-point division is not modelled.
- Inherited object keys: `deploymentsByEnv` (mockData.ts:33-44) and `history` (mockData.ts:84) are plain JavaScript objects. A lower-cased `envName` of `constructor` or `__proto__` finds an inherited, truthy value whose `rn` is `undefined`, so the reduction never stores such an event; `IsLatestPerEnvironment` says it is stored. Likewise `component.deployments[env]` (SummaryStats.tsx:23,27) is truthy for `env` = `constructor` or `__proto__` on every component, where `DeployedTo` tests key membership. A component id `__proto__` in `getComponentHistory` would set the object's prototype instead of a key. The model treats every string as an ordinary key.
- Number width: `rn` and `componentId` are JavaScript doubles. The model uses unbounded integers, so it does not capture the loss of precision above 2^53 in the `rn` comparison, nor `toString()` switching to exponent notation from 1e21 (`IntToDecimal` always prints every digit).
- The wall clock and `setInterval`: `nowMs` is a parameter.
- React scheduling: a changed filter and the page reset are one step in the model. React sets the page to 1 in an effect after the render that showed the changed filter.
- Rendering: JSX, class names inside templates, icons as components (the model returns icon names) and the per-environment dark text classes of SummaryStats.tsx (33-39).
- Unicode case mapping: `Lower` maps ASCII letters only.
- The `IEM` type used by IEMSelector.tsx is not in src/types.ts, and `mockEims` used by EimSearch.tsx is not in src/data/mockData.ts. So `Iem` and `EimEntry` carry only the fields the components read.
- IEMSelector's `getStatusIcon` (31-38): every case renders the same `Activity` icon in a different colour, which is only presentation.
- src/App.tsx and the other rendering-only components are not part of this model.
