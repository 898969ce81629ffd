# Chat-history dashboard: session filtering, pagination and export

A Dafny model of the core of a React dashboard over a chat-history table
(`n8n_historial`). The model covers:

- the history screen: filters become query constraints, and the matching sessions are sorted by last activity, cut into pages of 15 and grouped for display;
- the CSV export, which resolves the same sessions and writes their messages;
- the pagination control;
- the analytics and dashboard statistics;
- the message renderer's text handling: the `IA:` split, the markdown-link scanner and the split on a literal backslash-`n`;
- the shipped table configuration.

Everything is written as pure functions over immutable data:

- The table is a `seq<Row>`. A row carries a session id, a message payload, a creation instant in milliseconds, the instant's stored text and its extra columns.
- A backend query is evaluated in memory. `Query.Select` keeps the rows that meet every constraint (`ilike`, `gte`, `lte`, `eq`, `in`).
- `Date` parsing is a parameter `parse: string -> Option<int>`. `None` stands for an Invalid Date, whose `toISOString()` throws.

Modules, one per concern:

| file | module | models |
|---|---|---|
| outcomes.dfy | Outcomes | `Option` / `Result` |
| seqs.dfy | Seqs | duplicate-free sequences, `[...new Set(xs)]`, selection by key, sums |
| sorting.dfy | Sorting | a stable sort on an integer key (`Array.prototype.sort` with a numeric comparator) |
| text.dfy | Text | `toLowerCase`, `includes`, `trim`, `split` on literal alternatives, `join` |
| records.dfy | Records | rows, payloads, the two ways the code reads a message's text |
| query.dfy | Query | query constraints and their meaning on a row |
| config.dfy | Config | filter and table descriptors, `hasRxRequest`, the shipped configuration |
| predicates.dfy | FilterPredicates | the constraint builder shared by the screen and the export; the positive-id query |
| resolver.dfy | Resolver | aggregation of last activity, special-filter refinement, sort by activity |
| paging.dfy | Paging | `Pagination.tsx` and the history page slice |
| grouping.dfy | Grouping | grouping rows by session in arrival order |
| csv.dfy | Csv | `escapeCSV`, the line and file joins, and a reader for the dialect the export writes: quoting as in section 2 of RFC 4180, LF line ends, and a carriage return read as ordinary field text |
| history.dfy | History | `fetchMessages`, `handleExportCSV` |
| urlstate.dfy | UrlState | filter state ⇄ URL parameters, `parseInt`, `handleFilterChange` |
| analytics.dfy | Analytics | `fetchData`, `sessionsByDay`, `pieData` |
| dashboard.dfy | Dashboard | `fetchData`, `recentSessions`, `statCards` |
| messagetext.dfy | MessageText | `MessageRenderer`: link scanner, line split, two-part dialogue |

Where the informal description of the system and the code differ, the model follows the code:

- The history list is ordered by the latest creation time among a session's rows that pass the text and date filters. It is not the session's latest message overall: `sessionLastDates` is filled from the filtered base query. `Resolver.ResolveSessions` states this through `LatestAdmitted`.
- The pagination callback does not move to the requested page (see "## Findings").

## Model

| member | source | states |
|---|---|---|
| FilterPredicates.BuildConstraints | pages/HistoryPage.tsx:45-61 | Succeeds exactly when every active date filter's value parses. On success, a row meets the constraints iff it passes every filter's reference meaning (`Admits`): case-insensitive substring for text filters, `q` searching the message text, `from` ids a lower bound, other `to` ids an end-of-day upper bound. On failure, it names an active date filter value that does not parse. |
| FilterPredicates.ContributionMeaning | pages/HistoryPage.tsx:46-59 | One filter's constraints hold on a row iff the filter admits it. Unset, `all` and `select` filters add nothing. |
| FilterPredicates.NoValuesNoConstraints | pages/HistoryPage.tsx:47 | With no filter value set, the candidate query is unconstrained. |
| FilterPredicates.EndOfDay | pages/HistoryPage.tsx:55-57 | The bound is the last millisecond of the day holding the parsed instant: no earlier than it, less than a day later, and one millisecond before a day boundary. |
| FilterPredicates.FindSelect | pages/HistoryPage.tsx:75 | Returns the first `select` filter, and is `None` iff there is none. |
| FilterPredicates.PositiveQueryMeaning | pages/HistoryPage.tsx:81-87 | The positive query keeps a row iff it is positive: `eq(col, true)` for a boolean column, case-insensitive match for `text_match`, and every row when the descriptor is incomplete. |
| Query.Select | pages/HistoryPage.tsx:43-63 | The rows returned are the table rows meeting every constraint, each as many times as the table holds it, in table order (a subsequence of the table). |
| Query.SelectIn | pages/HistoryPage.tsx:121-125 | `in('session_id', ids)` keeps exactly the rows of the listed sessions. |
| Seqs.Distinct | pages/HistoryPage.tsx:92 | `[...new Set(xs)]` is duplicate-free, has exactly the elements of `xs`, and has one entry per distinct element. |
| Resolver.LastDates | pages/HistoryPage.tsx:66-71 | The keys are exactly the sessions of the base rows, each value is the creation time of one of that session's rows, and no row of the session is later. |
| Resolver.LastDatesStep | pages/HistoryPage.tsx:67-70 | One step of the loop, which overwrites only with a strictly later instant, keeps those three facts for the longer prefix. |
| Resolver.CandidatesAreAggregationKeys | pages/HistoryPage.tsx:66-72 | The candidate ids are duplicate-free and are exactly the keys of the aggregation map. |
| Resolver.PositiveIdsMeaning | pages/HistoryPage.tsx:89-92 | The deduplicated positive ids are the sessions with at least one positive row anywhere in the table. |
| Resolver.KeepIf | pages/HistoryPage.tsx:94-98 | Filtering keeps the candidates in (or, negated, out of) the positive ids. The result is a subsequence of the candidates and stays duplicate-free. |
| Resolver.Refine | pages/HistoryPage.tsx:75-99 | Special-filter law: no `select` filter, or an unset or `all` value, leaves the candidates unchanged. `requested` gives candidates ∩ positive; any other value gives candidates − positive. The result is always a duplicate-free subsequence of the candidates. |
| Resolver.SortByActivity | pages/HistoryPage.tsx:102-104 | The sorted ids are a permutation of the final ids, non-increasing by last activity. |
| Resolver.CandidateRows | pages/HistoryPage.tsx:45-63 | The candidate rows are the table rows the filters admit, and their sessions are the admitted sessions. |
| Resolver.RefinedMeaning | pages/HistoryPage.tsx:74-99 | The refined ids are duplicate-free and are exactly the expected sessions: admitted sessions, refined against the positive sessions of the whole table. |
| Resolver.LastDatesMeaning | pages/HistoryPage.tsx:66-71 | The last-activity map covers exactly the admitted sessions and holds each one's latest admitted instant. |
| Resolver.ResolveWithMeaning | pages/HistoryPage.tsx:63-104 | From a successful constraint build, the ordered ids are duplicate-free, are exactly the expected sessions, and run newest activity first. |
| Resolver.ResolveSessions | pages/HistoryPage.tsx:42-106 | Fails iff some active date does not parse. Otherwise the ids are duplicate-free, equal the expected session set, and are ordered by the latest admitted instant, newest first. |
| Resolver.ScreenExportAgree | pages/HistoryPage.tsx:188-222 | The export path fails exactly when the screen path does. Otherwise its final id list has the same elements and the same length as the screen's sorted list. |
| Resolver.NoFiltersListsEverySession | pages/HistoryPage.tsx:45-99 | With every filter value empty or `all`, the screen lists every session of the table. |
| Resolver.RequestedUsesWholeTable | pages/HistoryPage.tsx:81-95 | Under `requested`, a session is listed iff one of its rows passes the text and date filters and one of its rows, possibly a different one, is positive. |
| Paging.TotalPages | components/Pagination.tsx:16 | `ceil(count / size)`: zero for no items; otherwise the least page count whose pages hold every item. |
| Paging.ControlsHiddenIffOnePage | components/Pagination.tsx:16-17 | The control renders nothing iff everything fits on one page, including when there are no items. |
| Paging.Previous | components/Pagination.tsx:19-23 | Emits a page iff the current page is above 1. The emitted page is one less and at least 1. A NaN page emits nothing. |
| Paging.Next | components/Pagination.tsx:25-29 | Emits a page iff the current page is below the page count. The emitted page is one more and at most the page count. |
| Paging.DisabledIffInert | components/Pagination.tsx:19-46 | On an in-range page, each button is disabled exactly when its handler would do nothing. |
| Paging.SliceIndex | pages/HistoryPage.tsx:111 | `slice`'s index reading: non-negative indices clip to the length; negative ones count from the end and clip at 0. |
| Paging.JsSlice | pages/HistoryPage.tsx:111 | `s.slice(a, b)` is at most `b - a` long, is the plain slice between the clipped indices, takes only elements of `s`, and keeps a duplicate-free list duplicate-free. |
| Paging.PageSlice | pages/HistoryPage.tsx:109-111 | The history slice has at most 15 ids, all from the sorted list and duplicate-free. Page `p ≥ 1` is the `p`-th run of `size` ids, and a NaN or zero page is empty. |
| Paging.PagesCoverList | pages/HistoryPage.tsx:109-111 | Pages 1 to `TotalPages` concatenate to the whole list, and the page after the last is empty. |
| Paging.PagesPrefix | pages/HistoryPage.tsx:109-111 | The first `n` pages, in order, are the first `n * size` elements (clipped). |
| Paging.PositionOnOnePage | pages/HistoryPage.tsx:109-111 | Position `i` lies on page `i / size + 1` and on no other page. |
| Paging.PagesDisjoint | pages/HistoryPage.tsx:109-111 | Distinct pages of a duplicate-free list share no element. |
| History.DetailRows | pages/HistoryPage.tsx:121-125 | The detail query returns exactly the rows of the listed sessions, oldest first, as a permutation of the selected rows. |
| Grouping.Group | pages/HistoryPage.tsx:129-133 | One group per session of the rows; each group holds its session's rows in input order. |
| Grouping.GroupStep | pages/HistoryPage.tsx:130-133 | Pushing one row onto its group (created if missing) keeps the grouping meaning for the longer prefix. |
| Grouping.GroupsNonEmpty | pages/HistoryPage.tsx:129-133 | Every group is non-empty and holds exactly its own session's rows. |
| Grouping.GroupsPartitionRows | pages/HistoryPage.tsx:129-136 | Reading the groups in any duplicate-free order that names every session gives a permutation of the rows. |
| Grouping.OfKeySorted | pages/HistoryPage.tsx:125-133 | A group drawn from rows ordered by time is itself ordered by time. |
| History.DetailGroups | pages/HistoryPage.tsx:121-136 | The groups of a page are keyed by the page's sessions, non-empty, oldest first, and hold exactly each session's table rows. Read in page order, they are a permutation of the detail rows. |
| History.ShowPageMeaning | pages/HistoryPage.tsx:106-136 | `totalCount` is the sorted list's length, and `sessionOrder` is the page slice. The detail query is issued iff the slice is non-empty, and the groups satisfy the page-grouping facts above, empty for an empty slice. |
| History.FetchMessages | pages/HistoryPage.tsx:36-143 | Inert without a table. Fails iff a date does not parse. Otherwise `totalCount` is the number of expected sessions, the order is the page slice of the resolved list, it is a duplicate-free set of expected sessions, and the groups are that page's rows. |
| History.ShownSessionsHaveRows | pages/HistoryPage.tsx:63-72 | Every listed session has rows in the table. |
| Csv.DoubleQuotes | pages/HistoryPage.tsx:234 | Doubling quotes never shortens a string and changes nothing in a string without quotes. |
| Csv.Escape | pages/HistoryPage.tsx:234 | `escapeCSV` is the identity unless the field holds `,`, `"` or a line feed; then the result is wrapped in quotes. |
| Csv.FieldRoundTrip | pages/HistoryPage.tsx:234 | An escaped field followed by a comma, a line feed or nothing reads back as the original field, leaving the rest of the input untouched. |
| Csv.EscapeInjective | pages/HistoryPage.tsx:234 | Distinct fields are escaped differently. |
| Csv.FieldsRoundTrip | pages/HistoryPage.tsx:238-239 | About `Csv.Line` (`row.join(',')`): a line of escaped fields joined with commas reads back as exactly those fields. |
| Csv.DocumentRoundTrip | pages/HistoryPage.tsx:232-242 | About `Csv.Document` (`csvRows.join('\n')`): a file of lines joined with line feeds, each line a non-empty list of escaped fields, reads back as exactly its records. |
| History.SingleLine | pages/HistoryPage.tsx:238 | Each line feed becomes a space and every other character is kept, so the length is kept and no line feed is left. |
| History.RecordShape | pages/HistoryPage.tsx:236-238 | Each exported record has three fields: the session id, the stored creation text, and the message text character by character with each line feed turned into a space. |
| History.BareCarriageReturn | pages/HistoryPage.tsx:234-238 | A message with CR LF line ends is written with a bare carriage return in an unquoted field. |
| History.HeaderLine | pages/HistoryPage.tsx:232-233 | The header line is the header fields joined with commas, the same as writing them as a record. |
| History.ExportRoundTrip | pages/HistoryPage.tsx:232-242 | Parsing the exported file gives back exactly the header and the records. |
| History.ExportCount | pages/HistoryPage.tsx:229-240 | The file has one data record per row of the final sessions. |
| History.ExportFields | pages/HistoryPage.tsx:235-240 | Every data record has three fields, names a final session, and its text has no line feed. |
| History.ExportCoverage | pages/HistoryPage.tsx:229-240 | Every final session appears in at least one data record. |
| History.ExportCsv | pages/HistoryPage.tsx:184-259 | The outcome is exactly one of: no table; a failure iff a date does not parse; nothing to export iff the expected session set is empty; or a file that parses back to the header followed by the record of every row of exactly the expected sessions, each row as often as the table holds it, oldest first. |
| History.ExportOutcome | pages/HistoryPage.tsx:206-242 | The export's final ids exist iff the dates parse, are empty iff no session is expected, and otherwise yield such a file. |
| History.ExportedRecordIsRow | pages/HistoryPage.tsx:232-240 | Every data record of an exported file is the record of a table row of one of the exported sessions. |
| UrlState.ParseInt | pages/HistoryPage.tsx:34 | `parseInt(s, 10)` is NaN exactly when, after leading white space and an optional sign, no digit follows. |
| UrlState.ParseIntRoundTrip | pages/HistoryPage.tsx:34 | `parseInt` reads back any integer written by `String`, whatever non-digit text follows. |
| UrlState.ParseIntSkipsWhitespace | pages/HistoryPage.tsx:34 | Leading white space does not change what `parseInt` reads. |
| UrlState.CurrentPage | pages/HistoryPage.tsx:34 | A missing or empty page reads as 1; any other value as `parseInt` of it. |
| UrlState.PageReadsBack | pages/HistoryPage.tsx:34 | A page stored with `String(p)` reads as `p`. |
| UrlState.FilterChangeAsWritten | pages/HistoryPage.tsx:160-163 | The handler as written leaves the page at `'1'` after every change, stores the value for any other id, and keeps every other filter. |
| UrlState.PageNeverAdvances | pages/HistoryPage.tsx:427 | Whatever page the pagination control asks for, the handler as written lands on page 1. |
| UrlState.NextButtonStaysOnFirstPage | pages/HistoryPage.tsx:427 | With 30 sessions there are two pages. On page 1 the Next button is enabled and asks for page 2, yet the screen stays on page 1. |
| UrlState.FilterChange | pages/HistoryPage.tsx:160-163 | Corrected handler: stores the value under its id. It resets the page to `'1'` unless the change is itself a page change, and keeps every other filter. |
| UrlState.FilterChangeMeaning | pages/HistoryPage.tsx:160-163 | A page change moves to the requested page. Any other change goes to page 1 and agrees with the handler as written. |
| UrlState.NavigationMovesOnePage | components/Pagination.tsx:19-29 | With the corrected handler, Previous and Next move exactly one page. |
| UrlState.PresetIsTwoChanges | pages/HistoryPage.tsx:165-177 | About `UrlState.PresetSelect` (`handlePresetSelect`): picking a preset is typing the two dates one after the other: both dates are stored and the page is 1. |
| UrlState.UrlParams | pages/HistoryPage.tsx:150-157 | The address holds exactly the filters with a non-empty value, except page 1, each with its own value. |
| UrlState.InitialFilters | pages/HistoryPage.tsx:26-32 | The initial state is page `'1'` overlaid with every URL parameter. |
| UrlState.ReloadPreserves | pages/HistoryPage.tsx:26-34 | Rebuilding the state from the address it wrote gives the same value for every filter and the same page number. |
| UrlState.BuildConstraintsLocal | pages/HistoryPage.tsx:45-47 | The constraint build reads the state only at the configured filters' ids. |
| UrlState.ResolutionLocal | pages/HistoryPage.tsx:74-76 | The screen's and the export's resolutions read the state only at the configured filters' ids. |
| UrlState.ReloadShowsSameScreen | pages/HistoryPage.tsx:146-158 | After a reload from the address, the screen and the export are the same as before, when no filter is called `page`. |
| UrlState.SubmitShowsFirstPage | pages/HistoryPage.tsx:179-182 | Submitting shows page 1 of the resolved list. |
| Analytics.RangeConstraints | pages/AnalyticsPage.tsx:33-40 | Succeeds iff both set dates parse; otherwise it reports the start date first. A row meets the range iff it is at or after the start and at or before the end of the end day. |
| Analytics.FetchData | pages/AnalyticsPage.tsx:26-70 | Idle without a table; fails iff a date does not parse. Otherwise the rows are the table rows in range, each as many times as the table holds it, oldest first, and the stats count them, their sessions and the positive sessions. |
| Analytics.ComputeStats | pages/AnalyticsPage.tsx:50-67 | `totalMessages` is the row count and `totalSessions` the number of distinct sessions. `positiveSessions` is the number of sessions the classifier accepts, so it never exceeds `totalSessions`. |
| Analytics.StatsMeaning | pages/AnalyticsPage.tsx:56-61 | Counting positive groups one by one, in key order, counts each positive session once. |
| Analytics.CountPositiveCard | pages/AnalyticsPage.tsx:56-61 | A loop over duplicate-free keys counts the positive groups among them. |
| Analytics.PieValues | pages/AnalyticsPage.tsx:116-123 | The first slice is the positive count and the two slices add up to the session count. |
| Analytics.PieCountsTheRest | pages/AnalyticsPage.tsx:116-123 | The second slice counts exactly the sessions not classified positive, so it is never negative. |
| Analytics.Day | pages/AnalyticsPage.tsx:84 | An instant's UTC day is the day whose span contains it. |
| Analytics.FirstDays | pages/AnalyticsPage.tsx:79-88 | The day table has one entry per session: the day of its first row. |
| Analytics.FirstDaysStep | pages/AnalyticsPage.tsx:80-87 | One step of the loop never overwrites an existing entry, so each entry stays the day of the session's first row. |
| Analytics.FirstIsEarliest | pages/AnalyticsPage.tsx:79-88 | In rows ordered by time, a session's first row is its earliest, so its day is no later than any of its messages' days. |
| Analytics.LoadedDaysAreEarliest | pages/AnalyticsPage.tsx:42-88 | On loaded rows, each session's day is that of its earliest message. |
| Analytics.SessionDays | pages/AnalyticsPage.tsx:79-98 | One entry per session, in key order: its first day and the classifier's verdict on its group. |
| Analytics.AddSession | pages/AnalyticsPage.tsx:101-111 | A session bumps its day's bucket when the day has one, in the right class, and otherwise opens a new bucket at the end. |
| Analytics.AddSessionSums | pages/AnalyticsPage.tsx:101-111 | Counting one session adds one to the total and, when it is positive, one to the positive count. |
| Analytics.Tally | pages/AnalyticsPage.tsx:100-111 | Buckets have distinct days, exactly the sessions' days. Each counts its day's positive and other sessions, and the totals add up to the session and positive counts. |
| Analytics.SessionsByDay | pages/AnalyticsPage.tsx:76-114 | The daily buckets are strictly ascending by day, one per day with a session. Each counts that day's positive and negative sessions, and they add up to the session count and the positive count. |
| Analytics.ByDayMeaning | pages/AnalyticsPage.tsx:100-113 | Sorting the buckets by day keeps their contents and makes the days strictly increase. |
| Analytics.DailyTotalsMatchStats | pages/AnalyticsPage.tsx:96-111 | The chart agrees with the stat cards: the daily buckets sum to `totalSessions` and their positives to `positiveSessions`. |
| Dashboard.Load | pages/Dashboard.tsx:14-45 | The data is the table newest first, as a permutation. There is one group per session, and each group holds that session's rows in fetch order. |
| Dashboard.LoadedCounts | pages/Dashboard.tsx:26-35 | The loaded data has one entry per table row, and the groups one entry per session. |
| Dashboard.Summaries | pages/Dashboard.tsx:48-53 | One summary per session in key order: its row count, and the creation time of one of its rows. |
| Dashboard.SummaryIsLastActivity | pages/Dashboard.tsx:52 | With rows newest first, a summary's time is its session's latest activity. |
| Dashboard.RecentSessions | pages/Dashboard.tsx:47-56 | The recent list has five entries, or one per session when there are fewer. |
| Dashboard.RecentMeaning | pages/Dashboard.tsx:47-56 | The recent list names distinct sessions, newest first, each with its own summary. No session left out is more recent than one shown. |
| Dashboard.StatCards | pages/Dashboard.tsx:59-67 | No cards without a table. Zero on every card while loading. Otherwise, each configured getter's value on the loaded data. |
| Dashboard.ShippedCards | config/tableConfigs.tsx:104-108 | The shipped cards show the row count, the session count (the same the analytics page computes) and the newest row's time, or N/A for an empty table. |
| Dashboard.LoadingCardsAreZero | pages/Dashboard.tsx:63 | Before the first load, every card reads zero. |
| Config.AnyMentionsRx | config/tableConfigs.tsx:71-74 | `some` is true iff some message's text, lower-cased, contains `radiograf`. |
| Config.HasRxRequest | config/tableConfigs.tsx:69-75 | False for a missing list; otherwise true iff some message mentions an X-ray. |
| Config.HasRxRequestOrderFree | config/tableConfigs.tsx:71 | Only which messages are present matters, not their order or multiplicity. |
| Config.HasRxRequestMonotone | config/tableConfigs.tsx:71 | Adding messages on either side never withdraws a request. |
| Config.ShippedSelectFilterMatchesAnalysis | config/tableConfigs.tsx:89-117 | The shipped configuration has exactly one `select` filter, `special_request`. Its `text_match` on the message text with `radiograf` is the strategy the analytics classifier declares. |
| Records.TextReadersAgree | config/tableConfigs.tsx:10-72 | About `Records.TextOf` (the renderer's and the export's reader, config/tableConfigs.tsx:10 and pages/HistoryPage.tsx:237) against the classifier's reader at line 72: the classifier's text reader and the renderer's differ exactly on an object whose `text` is empty. |
| MessageText.LinkAtWritten | config/tableConfigs.tsx:13 | A match of the link expression spans exactly `[label](url)`, with a non-empty label free of `]` and an `http://` or `https://` target free of white space and `)`. |
| MessageText.LinkRecognised | config/tableConfigs.tsx:13 | Conversely, wherever such a link is written, the expression matches exactly that link there. |
| MessageText.TokenizeRoundTrip | config/tableConfigs.tsx:12-35 | About `MessageText.Tokenize` (`processText`): writing the tokens back (`[t](u)` for links) reproduces the line. |
| MessageText.TokensWellFormed | config/tableConfigs.tsx:19-33 | About `MessageText.Tokenize` (`processText`): every plain piece is non-empty, every link is well formed, and no two plain pieces are adjacent. |
| MessageText.TokenizeFindsLeftmost | config/tableConfigs.tsx:19-30 | About `MessageText.Tokenize` (`processText`): each link token is the match at its position, and no match starts inside a plain piece. |
| MessageText.LoneLink | config/tableConfigs.tsx:12-35 | About `MessageText.Tokenize` (`processText`): a written link alone on a line comes back as that one link. |
| MessageText.LinesShowText | config/tableConfigs.tsx:37-43 | About `MessageText.Lines` (`renderWithNewlines`): the lines spell out the text they were cut from, joined with backslash-`n`, and no line holds that two-character break. |
| MessageText.LinesRendered | config/tableConfigs.tsx:12-43 | About `MessageText.Lines` (`renderWithNewlines`): every line holds no backslash-`n` break, and its tokens are well formed and are the leftmost-first link scan of its text. |
| MessageText.TurnsRebuild | config/tableConfigs.tsx:45 | About `MessageText.Turns` (the split on the markers `IA:` and `IA` plus a line feed): the user's part contains no assistant marker. Joining the parts with `IA:` rebuilds the text with each marker written as `IA:`. |
| MessageText.DialogueCutsAtFirstMarker | config/tableConfigs.tsx:45-50 | About `MessageText.AiText` (`aiText`): without `IA` plus a line break, the user's part is everything before the first `IA:` and the assistant's text is the trimmed rest. |
| MessageText.StripSpeaker | config/tableConfigs.tsx:49 | The label removal inside `MessageText.HumanText` (`humanText`): the text changes iff it opens with `Humano:` or `Usuario:` in any case; then exactly the label and the white-space run after it are removed: the result is a suffix, everything dropped after the label is white space, and the result does not start with white space. |
| Text.TrimStartDropsWhitespace | config/tableConfigs.tsx:49 | `trimStart` (the `\s*` of the label pattern) removes exactly the leading white-space run. |
| MessageText.Render | config/tableConfigs.tsx:6-66 | "No message" iff the payload is falsy. A dialogue iff `MessageText.HasBothParts` (`hasBothParts`: two parts and a speaker named). What is shown spells out the text, or `HumanText` and `AiText`. Every shown line is cut at the backslash-`n` break (none inside it) and is the leftmost-first link scan of its text. |
| Text.SplitJoinFrom | config/tableConfigs.tsx:45 | Joining a split's parts with the first alternative rebuilds the string, each separator written as the first alternative. |
| Text.SplitPartsFree | config/tableConfigs.tsx:45 | No part produced by a split contains a separator. |
| Text.CanonSingle | config/tableConfigs.tsx:38 | With a single separator, split then join is the identity. |
| Sorting.SortBy | pages/Dashboard.tsx:54 | The sort yields an ordered permutation of its input. |

## Left out

- Backend I/O. The Supabase client, network failures and backend error messages are not modelled: a query is its in-memory evaluation. The only error path modelled is an unparsable date, which throws inside the `try`.
- Concurrency. The asynchronous fetches, and a stale response overwriting a fresher one, are out of scope: every operation is one synchronous function.
- Date parsing and formatting. `new Date(value)` is the parameter `parse`. `toISOString`, `toLocaleDateString`, `toLocaleString` and the clock-based presets and default range are not modelled; the preset dates are parameters.
- FilterPredicates.EndOfDay: computed in UTC. The source's `setHours(23, 59, 59, 999)` works in the browser's local time zone.
- Query.Select: an `ilike` pattern is matched literally. PostgreSQL would treat `%` and `_` typed by the user as wildcards, and a backslash as the escape character.
- Text.Lower: lower-cases ASCII and Latin-1 letters only, not the full Unicode case mapping of `toLowerCase`.
- Resolver.SortByActivity: ties between equal timestamps. The order among them is stated only as sorted-and-permutation, because it depends on `Object.keys` order (integer-like keys first) and on the engine's sort.
- Dashboard.RecentSessions: the same for ties between sessions with equal latest timestamps.
- Dashboard.Summaries: session keys are taken in first-insertion order. `Object.entries` lists integer-like keys first.
- UrlState.ParseInt: returns an unbounded integer. JavaScript numbers lose precision above 2^53.
- URL percent-encoding of parameter values is not modelled; a value is written and read back verbatim.
- `activePreset` is display state only and is not modelled.
- Analytics.FetchData: an unparsable date is a `Failed` outcome. In the source it throws outside the `try`, so the loading flag stays set. A backend error (messages cleared, stats kept) is not modelled.
- Payloads are an object with an optional string `text`, `null`, or a string. Numeric and boolean payloads are not modelled; in the source `0` and `false` would also count as "no message".
- Rendering is not modelled: JSX, Recharts, the pie-label trigonometry, legend names and colours, the Blob download link, `alert` and `console`. `MessageText.Render` returns the structure the renderer would show.
- The expanded/collapsed toggle and the session-id `slice(-6)` display are not modelled (presentation only).
- Sidebar, Header, StatCard, DatePresetPicker, TableSelector, App and the table context are UI plumbing; types.ts holds only type declarations, mirrored as datatypes.
- Resolver.LastDates: session ids are assumed not to name an `Object.prototype` member (`constructor`, `toString`, `__proto__`, …). The source keys a plain object by session id, and its truthiness test finds such a member already "set", so it never stores the id and `Object.keys` omits the session. The model treats the object as a true map.
- Resolver.ScreenExportAgree: does not hold in the source for a session id naming an `Object.prototype` member: the screen omits that session (see the line above) while the export's `[...new Set(...)]` keeps it.
- Grouping.Group: assumes the same of session ids. For an id naming an `Object.prototype` member, `groups[id].push` calls a missing method on a function and throws.
- Dashboard.Load: assumes the same of session ids. In the source the throw from `push` is caught, leaving `data` set and `sessions` unset.
- Analytics.FetchData: assumes the same of session ids. In the source nothing catches the throw from `push`, so the page stays loading.
- Analytics.SessionsByDay: assumes the same of session ids. In the source the grouping at pages/AnalyticsPage.tsx:90-94 throws the same way while the chart data is computed.
- Csv.DocumentRoundTrip: holds for the reader of this model, which reads a carriage return in an unquoted field as field text. RFC 4180 does not allow a bare CR there, and a conforming reader may end the record at it.
- History.ExportRoundTrip: holds for the same lenient reader. A message with CR LF line ends exports a bare CR in an unquoted field (`History.BareCarriageReturn`), which an RFC 4180 reader may split on.
- The positive-id query ignores the text and date filters. This is kept as written and stated in `Resolver.RequestedUsesWholeTable`; it is not changed.

## Findings

| source | as written | input that shows it | evidently intended | confidence | as-written member | corrected member |
|---|---|---|---|---|---|---|
| pages/HistoryPage.tsx:161 | `handleFilterChange` writes `page: '1'` after `[id]: value`, so the pagination callback `handleFilterChange('page', p)` (line 427) is overwritten back to page 1 | 30 matching sessions: two pages; on page 1, Next calls `handleFilterChange('page', 2)` and the state's page stays `'1'` | a page change stores the requested page; other filter changes reset to page 1 | not executed | UrlState.FilterChangeAsWritten (with UrlState.PageNeverAdvances, UrlState.NextButtonStaysOnFirstPage) | UrlState.FilterChange (with UrlState.FilterChangeMeaning, UrlState.NavigationMovesOnePage) |
