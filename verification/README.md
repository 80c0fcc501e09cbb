# Status page: a verified model of its page logic

This project models the logic behind a small status dashboard: a page listing
service components and open incidents, an uptime calendar, an incident history
and the incident list. The model covers the data handling, not the rendering. It
includes:

- the API helpers that compute the page-level indicator and group components;
- the construction of the component forest from flat components that name their
  parent through a group id;
- the recursive search and status filter over that forest;
- the month bucketing, the newest-first month order, the three-month window of
  the uptime calendar with its prev/next buttons, and the calendar grid padding;
- the resolution filter, the month slider and the impact and status counters of
  the incident history;
- the time line and body fallback of the incident list;
- the grouped/ungrouped split and the headline status of the components panel.

One Dafny module per source file:

| module | file | source |
|---|---|---|
| `ApiHandlers` | api_handlers.dfy | src/server/apiHandlers.ts |
| `Nesting` | nesting.dfy | `nestComponents`, which appears verbatim in src/pages/StatusPage.tsx:18-32 and src/pages/UptimePage.tsx:21-35 |
| `StatusPage` | status_page.dfy | src/pages/StatusPage.tsx |
| `UptimePage` | uptime_page.dfy | src/pages/UptimePage.tsx |
| `IncidentHistoryPage` | incident_history.dfy | src/pages/IncidentHistoryPage.tsx |
| `IncidentsList` | incidents_list.dfy | src/components/IncidentsList.tsx |
| `ComponentsContainer` | components_container.dfy | src/components/ComponentsContainer.tsx |

Shared modules:

- `Seqs` defines `Option`, the order-keeping `Filter`, `Any` and `Distinct`.
- `Domain` defines the entities.
- `Text` defines ASCII lower-casing and substring search.
- `Grouping` is the "bucket by key into a record" idiom. Five places in the
  source use it.
- `MonthOrder` sorts month labels newest first.

## Modelling choices

- **JavaScript records.** A record built by `reduce`/`forEach` is modelled as a
  `Groups` value: its keys in first-insertion order (`Object.keys`) plus a map
  from each key to its bucket.
- **The component forest.** `nestComponents` is modelled as an arena:
  - node `p` is the component at position `p`, with child list `children[p]`;
  - the roots are a list of node positions;
  - the id map keeps the last position carrying an id, because a later
    assignment overwrites an earlier one.
  Duplicate ids, self-references and cycles are modelled as the code treats
  them. Nothing is excluded by a precondition.
- **Dates.** A date's month label is the parameter `monthOf`, which returns a
  `Month(year, month)`. Comparing the parsed labels (`new Date(label)`) is the
  order `Later` on those pairs. The two locale formats of the incident time line
  are the parameters `dateTime` and `timeOnly`.
- **UI state.** The uptime calendar's `monthOffset` is the field of the class
  `UptimePage.MonthPager`. The incident history's `monthIndex` is the field of
  `IncidentHistoryPage.MonthSlider`. A click on a disabled button changes
  nothing.
- **Counters.** The impact and status counters are records with one field per
  key (`ImpactCounts`, `StatusCounts`), the same shape as the object literals
  the source starts from.
- **Status page headline.** The API's `getOverallStatus`
  (src/server/apiHandlers.ts:242) takes a flat component list, and the
  components panel (src/components/ComponentsContainer.tsx:35-36) reduces over
  every component of every group. The status page
  (src/pages/StatusPage.tsx:108) passes it its state, which holds only the
  nested roots (lines 71-72). The model follows the code
  (`PageIndicatorAsWritten`); see Findings.

## Model

| member | source | states |
|---|---|---|
| ApiHandlers.TallyStatuses | src/server/apiHandlers.ts:243-246 | a status is a key of the tally exactly when some component has it, and its count is the number of such components |
| ApiHandlers.Cascade | src/server/apiHandlers.ts:248-251 | the indicator is at least as severe as every status with a positive count, and when not operational some counted status is exactly that severe |
| ApiHandlers.GetOverallStatus | src/server/apiHandlers.ts:242-252 | major exactly when some component is in a major outage; partial exactly when none is major and some is partial; minor exactly when neither and some is degraded; operational otherwise |
| ApiHandlers.QuietPageIsOperational | src/server/apiHandlers.ts:248-251 | a list of only operational and under-maintenance components reads operational |
| ApiHandlers.OverallStatusOrderIndependent | src/server/apiHandlers.ts:242-252 | two lists with the same components in any order have the same per-status counts and the same indicator |
| ApiHandlers.GroupKey | src/server/apiHandlers.ts:256 | the key is "Ungrouped" exactly when the group id is missing, empty or literally "Ungrouped" |
| ApiHandlers.GroupComponents | src/server/apiHandlers.ts:254-263 | keys in first-appearance order without repeats; every component sits in its key's bucket; each bucket is the components of that key in input order; the buckets together are a permutation of the input |
| Grouping.GroupBy | src/components/IncidentsList.tsx:19-27 | the record's keys are the distinct keys in first-appearance order, and each bucket lists that key's items in input order |
| Grouping.KeysInOrderMembership | src/components/IncidentsList.tsx:21-24 | a key is in the record exactly when some item has it |
| Grouping.KeysInOrderDistinct | src/components/IncidentsList.tsx:23 | the `if (!groups[key])` guard creates each key once |
| Grouping.KeyAbsentBucketEmpty | src/components/ComponentsContainer.tsx:33 | a key no item has has an empty bucket, the `\|\| []` fallback |
| Grouping.KeyPresentBucketNonEmpty | src/components/IncidentsList.tsx:65 | a key of the record has a non-empty bucket, so the "no incidents for this month" branch never runs |
| Grouping.FlattenLengths | src/pages/IncidentHistoryPage.tsx:60-69 | the concatenated buckets of a key list are as long as the sum of the bucket sizes |
| Grouping.BucketExtend | src/pages/IncidentHistoryPage.tsx:62 | one more item grows its own key's bucket by one and no other |
| Grouping.FlattenMultiplicity | src/components/ComponentsContainer.tsx:36 | concatenating the buckets of distinct keys holds each item as often as the input does when its key is listed, and not at all otherwise |
| Grouping.FlattenIsPermutation | src/components/ComponentsContainer.tsx:36 | when every item's key is listed, the concatenated buckets are a permutation of the input |
| Grouping.GroupsPartition | src/components/IncidentsList.tsx:19-27 | the record's keys are distinct, each bucket is non-empty, and the buckets in key order are a permutation of the input |
| Text.Lower | src/pages/StatusPage.tsx:45 | the result has the input's length and no capital letter; each capital becomes its small letter and every other character is kept |
| Text.LowerIdempotent | src/pages/StatusPage.tsx:45 | lower-casing twice equals lower-casing once |
| Text.Contains | src/pages/StatusPage.tsx:45 | `includes` always finds the empty query and never a query longer than the text |
| Text.ContainsIffOccurs | src/pages/StatusPage.tsx:45 | `includes` holds exactly when the query occurs at some offset |
| Text.EmptyQueryMatches | src/pages/StatusPage.tsx:45 | every name includes the empty search |
| Nesting.IdIndex | src/pages/StatusPage.tsx:21-23 | the id map's keys are exactly the input ids, and each maps to the last position carrying it |
| Nesting.HasParentIff | src/pages/StatusPage.tsx:25 | a component is pushed as a child exactly when its group id is set, non-empty and names some component |
| Nesting.ParentOf | src/pages/StatusPage.tsx:26 | the node pushed onto is a position whose component has the group id as its id |
| Nesting.IndexIds | src/pages/StatusPage.tsx:21-23 | the first pass builds exactly the id map `IdIndex` |
| Nesting.HasParentUnparented | src/pages/StatusPage.tsx:25 | the id-map test for a parent fails exactly when the group id is null, empty or no component's id |
| Nesting.ChildOfIff | src/pages/StatusPage.tsx:25-26 | with unique ids, a component is pushed onto node `p` exactly when its group id is the non-empty id of component `p` |
| Nesting.RootsArePositions | src/pages/StatusPage.tsx:24-30 | with unique ids the roots are the increasing positions of the components whose group id is null, empty or names no component |
| Nesting.ChildrenArePositions | src/pages/StatusPage.tsx:24-30 | with unique ids the children of `p` are the increasing positions of the components whose group id is `p`'s non-empty id |
| Nesting.NestComponents | src/pages/StatusPage.tsx:18-32 | the second pass yields the roots `Roots` and, for every node, the child list `Children` |
| Nesting.PushChild | src/pages/StatusPage.tsx:25-26 | visiting a component with a parent appends its node to that parent's list only and leaves the roots alone |
| Nesting.PushRoot | src/pages/StatusPage.tsx:27-28 | visiting a component without a parent appends its node to the roots and leaves every child list alone |
| Nesting.ChildCountStep | src/pages/StatusPage.tsx:24-30 | one more visit adds a child below a bound exactly when the visited component's parent lies below it |
| Nesting.NoChildrenYet | src/pages/StatusPage.tsx:22 | before the second pass no node has children |
| Nesting.EveryComponentPushedOnce | src/pages/StatusPage.tsx:24-30 | the roots plus all child lists hold exactly one entry per visited component |
| Nesting.RootsInRange | src/pages/StatusPage.tsx:28 | every root is a position of the input |
| Nesting.NodeIsPosition | src/pages/StatusPage.tsx:22 | with unique ids each component's node is its own position |
| Nesting.RootsUpToMembership | src/pages/StatusPage.tsx:27-28 | a node is a root exactly when some visited component without a resolvable parent has that node |
| Nesting.ChildrenUpToMembership | src/pages/StatusPage.tsx:25-26 | a node is a child of `p` exactly when some visited component with parent `p` has that node |
| Nesting.UniqueNodes | src/pages/StatusPage.tsx:21-23 | with unique ids every node is its component's position |
| Nesting.RootsInOrder | src/pages/StatusPage.tsx:24-30 | with unique ids the roots are strictly increasing positions: input order, no repeats |
| Nesting.ChildrenInOrder | src/pages/StatusPage.tsx:24-30 | with unique ids every child list is strictly increasing positions: input order, no repeats |
| Nesting.PlacedExactlyOnce | src/pages/StatusPage.tsx:24-30 | with unique ids a component is a root exactly when its group id is null, empty or names no component; otherwise it is a child of its parent and of no other node |
| Nesting.ReachableIffReachesRoot | src/pages/StatusPage.tsx:18-32 | with unique ids a component appears at depth `k` under a root exactly when its chain of group ids reaches a root in `k` steps |
| Nesting.CyclesUnreachable | src/pages/StatusPage.tsx:24-30 | with unique ids, components on a cycle of group ids (a self-reference included) never appear under any root |
| StatusPage.SelfMatches | src/pages/StatusPage.tsx:43-45 | a search longer than the name never matches, and an empty search leaves only the status filter |
| StatusPage.KeepNode | src/pages/StatusPage.tsx:41-49 | a kept node keeps its component and has no more children than before |
| StatusPage.FilterComponents | src/pages/StatusPage.tsx:35-52 | the filtered list is no longer than the input |
| StatusPage.Pruned | src/pages/StatusPage.tsx:48 | pruning keeps one node per input node |
| StatusPage.FilterComponentsConcat | src/pages/StatusPage.tsx:40-51 | filtering a concatenation filters each part |
| StatusPage.PrunedConcat | src/pages/StatusPage.tsx:48 | pruning a concatenation prunes each part |
| StatusPage.KeepIffSurvives | src/pages/StatusPage.tsx:43-49 | a node is kept exactly when it matches or some descendant matches, and then carries only its filtered children |
| StatusPage.SomeSurvives | src/pages/StatusPage.tsx:46 | a filtered list is non-empty exactly when some node in it survives |
| StatusPage.FilterKeepsSurvivors | src/pages/StatusPage.tsx:35-52 | the filter keeps exactly the surviving siblings, in order, each with its filtered children |
| StatusPage.EmptySearchKeepsAll | src/pages/StatusPage.tsx:35-52 | an empty search with status "all" returns the forest unchanged at every depth |
| StatusPage.EmptySearchKeepsNode | src/pages/StatusPage.tsx:41-49 | an empty search with status "all" keeps a node unchanged |
| StatusPage.FilterIdempotent | src/pages/StatusPage.tsx:35-52 | filtering twice with the same search and status equals filtering once |
| StatusPage.KeepNodeIdempotent | src/pages/StatusPage.tsx:41-49 | a kept node is kept again, unchanged |
| StatusPage.FilterIncidents | src/pages/StatusPage.tsx:104-106 | the incidents kept are exactly those whose lower-cased name includes the lower-cased search |
| StatusPage.EmptySearchKeepsIncidents | src/pages/StatusPage.tsx:104-106 | an empty search keeps every incident, in order |
| StatusPage.RootComponents | src/pages/StatusPage.tsx:71-72 | the state holds the component of each root, in root order; with unique ids it is exactly the components whose group id is null, empty or names no component, in input order |
| StatusPage.PageIndicatorAsWritten | src/pages/StatusPage.tsx:108 | with unique ids the headline as written is major exactly when some component without a resolvable parent is in a major outage, and operational exactly when all such components are operational or under maintenance |
| StatusPage.ChildOutageHidden | src/pages/StatusPage.tsx:108 | for an operational parent with a child in a major outage, the headline as written reads operational while the intended one reads major |
| StatusPage.PageIndicator | src/pages/StatusPage.tsx:108 | the corrected headline is major exactly when some component at any depth is in a major outage, and operational exactly when every component is operational or under maintenance |
| UptimePage.GroupUptimeByMonth | src/pages/UptimePage.tsx:126-135 | every day lies in its month's bucket; buckets are non-empty and list that month's days in order; the months are distinct; the buckets are a permutation of the days |
| UptimePage.SliceBound | src/pages/UptimePage.tsx:143 | a slice bound lands in `[0, len]` and an in-range bound is unchanged |
| UptimePage.JsSlice | src/pages/UptimePage.tsx:141-143 | a slice is no longer than the list |
| UptimePage.MonthRange | src/pages/UptimePage.tsx:138-144 | the window holds only listed months, no repeats when the list has none, and at most three months while the offset is within the list |
| UptimePage.WindowShape | src/pages/UptimePage.tsx:138-144 | for an offset within the list, the window is the contiguous run of `min(3, total - offset)` months ending `offset` months before the newest |
| UptimePage.LatestWindow | src/pages/UptimePage.tsx:138-144 | at offset 0 the window is the newest `min(3, total)` months |
| UptimePage.IndexOf | src/pages/UptimePage.tsx:392 | `indexOf` is -1 exactly when the month is absent, else the first position holding it |
| UptimePage.CanGoPrev | src/pages/UptimePage.tsx:392 | prev is enabled exactly when the window's first month is a key other than the first key |
| UptimePage.CanGoNext | src/pages/UptimePage.tsx:393 | next is enabled exactly when its update `Math.max(o - 1, 0)` changes the offset |
| UptimePage.CanGoNextIffNotLatest | src/pages/UptimePage.tsx:393 | on distinct months and a reachable offset, next is enabled exactly when the window is not the newest one |
| UptimePage.CanGoPrevIffStartPositive | src/pages/UptimePage.tsx:392 | on distinct months, prev is enabled exactly when the window does not start at the oldest month |
| UptimePage.MonthPager.constructor | src/pages/UptimePage.tsx:40 | the pager starts at offset 0 |
| UptimePage.MonthPager.Window | src/pages/UptimePage.tsx:391 | the months shown are the pager's months, one to three of them when it has any, without repeats |
| UptimePage.MonthPager.ClickPrev | src/pages/UptimePage.tsx:410-411 | an enabled prev click moves one month back, a disabled one changes nothing, and the offset stays within reach of the oldest month |
| UptimePage.MonthPager.ClickNext | src/pages/UptimePage.tsx:418-419 | an enabled next click moves one month forward, a disabled one changes nothing, and the offset never goes below 0 |
| UptimePage.WindowMonthsHaveDays | src/pages/UptimePage.tsx:447-452 | every reachable window holds one to three months when there are days, and each month shown has days, so `days[0]` exists |
| UptimePage.WeekPadding | src/pages/UptimePage.tsx:458 | the padding is under a week and completes the last row |
| UptimePage.PadCalendarGrid | src/pages/UptimePage.tsx:457-458 | `firstDay` nulls, then the days in order, then under a week of nulls, for a length that is a multiple of 7 |
| IncidentHistoryPage.FilterIncidents | src/pages/IncidentHistoryPage.tsx:35-39 | the kept incidents are exactly those the resolution filter admits |
| IncidentHistoryPage.FilterCounts | src/pages/IncidentHistoryPage.tsx:232-252 | "all" keeps every incident, and the resolved and unresolved counts add up to the total |
| IncidentHistoryPage.Months | src/pages/IncidentHistoryPage.tsx:54 | one month per entry, in entry order; strictly newest-first entries give months without repeats |
| IncidentHistoryPage.MonthGroups | src/pages/IncidentHistoryPage.tsx:42-51 | entries strictly newest first; each holds exactly its month's incidents in input order and is non-empty; the months are exactly the incidents' months; the entries together are a permutation of the incidents |
| IncidentHistoryPage.SortedMonthsCover | src/pages/IncidentHistoryPage.tsx:50 | the sorted months cover the incidents' months, and their buckets are a permutation of the incidents |
| IncidentHistoryPage.MonthLabels | src/pages/IncidentHistoryPage.tsx:55-57 | on newest-first months and an index in range: the current month is shown; `prevMonth` exists exactly when the previous button is enabled, is older, and is what that button's click shows; `nextMonth` likewise for the next button, and is newer |
| IncidentHistoryPage.FindMonth | src/pages/IncidentHistoryPage.tsx:58 | the lookup fails exactly when the month is not listed |
| IncidentHistoryPage.FindMonthAt | src/pages/IncidentHistoryPage.tsx:58 | with distinct months the lookup returns the entry at that month's position |
| IncidentHistoryPage.CurrentIncidents | src/pages/IncidentHistoryPage.tsx:55-58 | on months without repeats, the incidents shown are the entry at `monthIndex`, and nothing when the index is out of range |
| IncidentHistoryPage.MonthSlider.constructor | src/pages/IncidentHistoryPage.tsx:17 | the slider starts at the newest month |
| IncidentHistoryPage.MonthSlider.ClickPrev | src/pages/IncidentHistoryPage.tsx:261-262 | disabled at the oldest month; otherwise one month back, clamped; the index stays in range |
| IncidentHistoryPage.MonthSlider.ClickNext | src/pages/IncidentHistoryPage.tsx:272-273 | disabled at the newest month; otherwise one month forward; an index in range stays in range |
| IncidentHistoryPage.ImpactCounts.Inc | src/pages/IncidentHistoryPage.tsx:62 | incrementing bumps that impact's counter by one and no other |
| IncidentHistoryPage.ImpactStats | src/pages/IncidentHistoryPage.tsx:60-64 | each impact's counter is the number of incidents with that impact, and the counters add up to the number of incidents |
| IncidentHistoryPage.ImpactsAddUp | src/pages/IncidentHistoryPage.tsx:60-64 | the four impact groups partition the incidents |
| IncidentHistoryPage.StatusCounts.Inc | src/pages/IncidentHistoryPage.tsx:67 | incrementing bumps that status's counter by one and no other |
| IncidentHistoryPage.StatusStats | src/pages/IncidentHistoryPage.tsx:65-69 | each status's counter is the number of incidents with that status, and the counters add up to the number of incidents |
| IncidentHistoryPage.StatusesAddUp | src/pages/IncidentHistoryPage.tsx:65-69 | the five status groups partition the incidents |
| MonthOrder.InsertCounts | src/components/IncidentsList.tsx:54 | inserting adds exactly one copy of the month |
| MonthOrder.InsertKeepsOrder | src/components/IncidentsList.tsx:54 | inserting into a newest-first list keeps it newest first |
| MonthOrder.InsertKeepsDistinct | src/components/IncidentsList.tsx:54 | inserting a new month into a list without repeats keeps it without repeats |
| MonthOrder.StrictWhenDistinct | src/components/IncidentsList.tsx:54 | a newest-first list without repeats is strictly newest first |
| MonthOrder.SortLatestFirst | src/components/IncidentsList.tsx:54 | the result is newest first and a permutation of the input, and strictly newest first when the input has no repeats |
| IncidentsList.GroupByMonthYear | src/components/IncidentsList.tsx:19-27 | every incident is in its month's bucket; each bucket is that month's incidents in order; the sorted months are strictly newest first, are exactly the record's keys, each has incidents, and are empty exactly when there are no incidents |
| IncidentsList.EveryIncidentFiled | src/components/IncidentsList.tsx:21-24 | each incident lies in the bucket of its own month |
| IncidentsList.MonthsNonEmpty | src/components/IncidentsList.tsx:59-65 | no listed month is empty, and the list of months is empty only without incidents |
| IncidentsList.FormatIncidentTime | src/components/IncidentsList.tsx:8-17 | the start's date-time first and " UTC" last; " - " and the end's time between them exactly when the end is non-null and non-empty |
| IncidentsList.DisplayBody | src/components/IncidentsList.tsx:74 | the first update's body when it is non-empty; otherwise the resolved text for a resolved incident, else empty |
| ComponentsContainer.GroupName | src/components/ComponentsContainer.tsx:23 | the group is "Ungrouped" exactly when missing, empty or literally "Ungrouped" |
| ComponentsContainer.PanelStatus | src/components/ComponentsContainer.tsx:35-44 | the panel reducer never yields under_maintenance |
| ComponentsContainer.Layout | src/components/ComponentsContainer.tsx:22-44 | named groups are distinct, non-empty and hold their components in order; the fallback holds the ungrouped components; the two together are a permutation of the input; the headline is the reducer over the input |
| ComponentsContainer.SplitCoversAll | src/components/ComponentsContainer.tsx:32-33 | the named groups and the fallback bucket together hold every component exactly once |
| ComponentsContainer.EntriesForShape | src/components/ComponentsContainer.tsx:32 | the entries pair each named key with its bucket, and their members are those buckets in key order |
| ComponentsContainer.PanelStatusOrderIndependent | src/components/ComponentsContainer.tsx:35-44 | the headline depends only on which statuses occur how often |
| ComponentsContainer.AllOperationalIff | src/components/ComponentsContainer.tsx:37-39 | the count test holds exactly when every component is operational |
| ComponentsContainer.PanelPrecedence | src/components/ComponentsContainer.tsx:35-44 | major beats partial beats degraded; anything else, including all operational, reads operational |
| ComponentsContainer.ReducersAgree | src/components/ComponentsContainer.tsx:35-44 | on the same statuses the panel reducer and the API reducer agree, mapping major_outage, partial_outage and degraded_performance to major, partial and minor |
| ComponentsContainer.StatusText | src/components/ComponentsContainer.tsx:61-74 | "Unknown Status" exactly for strings other than the four statuses the reducer yields |
| ComponentsContainer.HeadlineIsKnown | src/components/ComponentsContainer.tsx:35-74 | the headline label is never "Unknown Status" |

## Left out

- Fetching data, WebSocket updates and the servers are left out. The pages'
  state is the input to each operation.
- The uptime data is not modelled. It comes from a generator that draws random
  numbers. The uptime percentages, their average and `toFixed` are floating
  point, so they are left out too. A day is a date and a status.
- Date parsing and locale formatting are not modelled. They appear only as the
  parameters `monthOf`, `dateTime` and `timeOnly`.
- `getFirstDayOfMonth` and `getDaysInMonth` are not modelled. The weekday of
  the first day is the input `firstDay`.
- Unicode case folding is not modelled. `toLowerCase` is ASCII lower-casing
  (`Text.Lower`).
- JavaScript's ordering of integer-like record keys before other keys is left
  out, and keys are kept in insertion order. Month labels and group ids in the
  source are not integer-like.
- Record lookups on inherited keys are not modelled. For example, a group id
  "toString" would hit `Object.prototype`.
- The status filter's values are only the options of its select: "all" and the
  five statuses.
- Nesting.NestComponents: the result is the arena (roots and per-node child
  lists). The object tree it denotes is reached through `Roots`/`Children`, and
  its unfolding into nested objects is not modelled. Because of that, a
  self-referencing or cyclic tree cannot be followed without end, although the
  source objects would allow it.
- UptimePage.MonthPager: the list of months is fixed for the pager's lifetime.
  A change of selected component, which regenerates the data, is not modelled.
- IncidentHistoryPage.MonthSlider: `monthIndex` is not reset when the filter
  changes, as in the source. `CurrentIncidents` states that the page then shows
  no incidents.
- The `prevMonth`/`nextMonth` labels appear only as `MonthAt`, which
  `MonthLabels` describes.
- All rendering and styling is left out, as are `getStatusColor` and the
  subscribe modal.

## Findings

| source | as written | input that shows it | evidently intended | confidence | as-written member | corrected member |
|---|---|---|---|---|---|---|
| src/pages/StatusPage.tsx:108 | `getOverallStatus(components)` reads the state, which holds only the nested roots, so nested components' statuses never reach the headline | component "a" operational with no group; component "b" in major_outage with group id "a" | the headline reflects every component, major here | medium, not executed | StatusPage.ChildOutageHidden | StatusPage.PageIndicator |
