# DashPortfolio in Dafny

DashPortfolio is a DashClock extension that shows a stock portfolio. On each
update request it decides whether to hide itself (weekends), whether a poll is
due, and then fetches one quote line per symbol from a finance feed. It parses
the lines into records, optionally averages them into a portfolio pseudo-index
`^MYINDEX`, orders them, and renders a status line, a header and a body line.
After a poll made outside market hours (08:00 to 17:00 EST on weekdays) it sets
the next poll to today's 08:00, or to tomorrow's from 17:00 on, and skips the
updates before it. On a weekend day between 08:00 and 17:00 that time has
already passed, so polling goes on (see "## Findings").

This project models that core, the class `PortfolioExtension`, in these modules:

- `JavaLang` (java_lang.dfy): the Java library behaviour the code relies on.
  It covers `"" + null`, `String.compareTo`, `toUpperCase` (on ASCII letters only), truncating
  `/` and `%`, the saturating `(int)` cast and `TextUtils.join`.
- `Patterns` (patterns.dfy): the two regular expressions.
  `Matcher.find` over one character class becomes `FindAll`.
- `StableSort` (stable_sort.dfy): `Collections.sort`, a stable sort, as an insertion sort.
- `Symbols` (symbols.dfy): `normalizeSymbols`.
- `Quotes` (quotes.dfy): `String.split` of a feed line, the row policy, the
  `readLine` loop with its running sums, and the portfolio average.
- `Ranking` (ranking.dfy): `SymbolInfoComparator` and the sort, sort, reverse sequence.
- `Render` (render.dfy): `%.2f` formatting, the body line, and `symbolNameToShortName`.
- `Portfolio` (extension.dfy): `fetchSymbols`, the update gates of
  `onUpdateData`, and the poll schedule.
  Also the class `PortfolioExtension` with the fields `nextEpoch` and `reverseMode`.

Some conventions of the model:

- Feed values (`Change`, `Percent`) are integer hundredths.
- Parsing a number is a parameter `parse: string -> Option<int>`.
- The portfolio average is an exact `real` number of hundredths.
- Each formatted value has a reference reader (`ReadFixed2`, `ReadData`).
  The rendering lemmas state what a displayed value denotes.

Points of the code worth knowing when reading the model:

- With no valid listed record the code builds no average. The master is then
  the feed's own row for the title, if there is one (`Portfolio.NoValidRecord`).
- The normaliser's pattern `[A-Z0-9.^-]+` has no `_`, unlike the line splitter's
  `[^A-Za-z0-9.^_-]+`.
- `Portfolio.PortfolioExtension.OnUpdateData` follows the schedule as the code
  writes it (`Portfolio.NextEpochAsWritten`). The corrected schedule of
  "## Findings" is `Portfolio.NextEpochAfterPoll`, with its properties proved
  beside it.

## Model

| member | source | states |
|---|---|---|
| JavaLang.CompareToZero | app/src/main/java/org/fakehalo/dashclock/extensions/dashportfolio/PortfolioExtension.java:173 | `compareTo` is 0 exactly when the two symbols are equal |
| JavaLang.CompareToAntisymmetric | app/src/main/java/org/fakehalo/dashclock/extensions/dashportfolio/PortfolioExtension.java:173 | swapping the two symbols negates `compareTo` |
| JavaLang.CompareToTransitive | app/src/main/java/org/fakehalo/dashclock/extensions/dashportfolio/PortfolioExtension.java:173 | the symbol order is transitive |
| JavaLang.IntCast | app/src/main/java/org/fakehalo/dashclock/extensions/dashportfolio/PortfolioExtension.java:163-169 | the `(int)` cast of the difference keeps its sign and its zero and stays in the int range |
| JavaLang.JoinEmpty | app/src/main/java/org/fakehalo/dashclock/extensions/dashportfolio/PortfolioExtension.java:194-197 | joining non-empty tokens gives "" exactly when there are none |
| Patterns.Span | app/src/main/java/org/fakehalo/dashclock/extensions/dashportfolio/PortfolioExtension.java:182-184 | the longest prefix inside the class |
| Patterns.FindAllRuns | app/src/main/java/org/fakehalo/dashclock/extensions/dashportfolio/PortfolioExtension.java:182-185 | every match of `[A-Z0-9.^-]+` is a non-empty run of class characters |
| Patterns.FindAllSubstrings | app/src/main/java/org/fakehalo/dashclock/extensions/dashportfolio/PortfolioExtension.java:183-185 | every match is taken, in place, from the upper-cased input |
| Patterns.FindAllJoin | app/src/main/java/org/fakehalo/dashclock/extensions/dashportfolio/PortfolioExtension.java:184-196 | finding the matches of a join of class runs, whose delimiter is outside the class, gives back the runs |
| StableSort.Insert | app/src/main/java/org/fakehalo/dashclock/extensions/dashportfolio/PortfolioExtension.java:195 | inserting adds exactly one element |
| StableSort.Sort | app/src/main/java/org/fakehalo/dashclock/extensions/dashportfolio/PortfolioExtension.java:195 | the sort is a permutation of its input |
| StableSort.InsertSorted | app/src/main/java/org/fakehalo/dashclock/extensions/dashportfolio/PortfolioExtension.java:195 | inserting into a sorted list keeps it sorted |
| StableSort.SortSorted | app/src/main/java/org/fakehalo/dashclock/extensions/dashportfolio/PortfolioExtension.java:195 | the sort's result is sorted for any total preorder |
| StableSort.SortOfSorted | app/src/main/java/org/fakehalo/dashclock/extensions/dashportfolio/PortfolioExtension.java:308-312 | sorting an already sorted list changes nothing |
| StableSort.InsertStable | app/src/main/java/org/fakehalo/dashclock/extensions/dashportfolio/PortfolioExtension.java:312 | insertion keeps earlier ties in order |
| StableSort.SortStable | app/src/main/java/org/fakehalo/dashclock/extensions/dashportfolio/PortfolioExtension.java:312 | stability: elements the order cannot tell apart keep the order they had before the sort |
| Symbols.AdmittedSpec | app/src/main/java/org/fakehalo/dashclock/extensions/dashportfolio/PortfolioExtension.java:184-188 | the loop keeps every admissible match (non-empty, not `^MYINDEX`) exactly once, and nothing else |
| Symbols.AdmittedPrefix | app/src/main/java/org/fakehalo/dashclock/extensions/dashportfolio/PortfolioExtension.java:184-192 | what was admitted before an early stop is a prefix of what the whole scan admits |
| Symbols.NormalizedShape | app/src/main/java/org/fakehalo/dashclock/extensions/dashportfolio/PortfolioExtension.java:178-205 | the output list is strictly sorted; its tokens are admissible runs of `[A-Z0-9.^-]` from the upper-cased input; with a positive limit it has at most `limit` tokens |
| Symbols.NormalizedLimit | app/src/main/java/org/fakehalo/dashclock/extensions/dashportfolio/PortfolioExtension.java:186-192 | a positive limit keeps exactly the first `limit` admissible distinct matches in order of appearance; 0 or less keeps every admissible match |
| Symbols.NormalizeIdempotent | app/src/main/java/org/fakehalo/dashclock/extensions/dashportfolio/PortfolioExtension.java:178-205 | normalising an already normalised list, joined with a separating delimiter, gives it back |
| Symbols.NormalizeSymbols | app/src/main/java/org/fakehalo/dashclock/extensions/dashportfolio/PortfolioExtension.java:178-205 | the loop with its early break returns the sorted admitted symbols joined by the delimiter, and "" exactly when none survives |
| Quotes.SplitFields | app/src/main/java/org/fakehalo/dashclock/extensions/dashportfolio/PortfolioExtension.java:254 | Java's `split` of a line gives exactly its maximal field runs, with a leading "" when the line starts with a separator; this is why field 1 of a quoted row is the symbol |
| Quotes.ParseRow | app/src/main/java/org/fakehalo/dashclock/extensions/dashportfolio/PortfolioExtension.java:254-267 | fewer than 4 fields give no record; otherwise the symbol is field 1, and the record is an error with both values 0 exactly when field 2 or 3 fails to parse |
| Quotes.ListedPartition | app/src/main/java/org/fakehalo/dashclock/extensions/dashportfolio/PortfolioExtension.java:270-275 | the list holds every row that is not the title symbol's, and only those |
| Quotes.LastMatchIsLast | app/src/main/java/org/fakehalo/dashclock/extensions/dashportfolio/PortfolioExtension.java:270-271 | the master row is the last row carrying the title symbol; there is none exactly when no row carries it |
| Quotes.ValidCount | app/src/main/java/org/fakehalo/dashclock/extensions/dashportfolio/PortfolioExtension.java:277-289 | `size - allErrors` counts the non-error records, and the sums run over the non-error records only |
| Quotes.SumPercentBounds | app/src/main/java/org/fakehalo/dashclock/extensions/dashportfolio/PortfolioExtension.java:279-280 | the summed valid percents lie between `valid * min` and `valid * max` |
| Quotes.AverageWithinRange | app/src/main/java/org/fakehalo/dashclock/extensions/dashportfolio/PortfolioExtension.java:289-300 | with title `^MYINDEX` and a valid record, the master is a non-error `^MYINDEX` record whose percent is the mean of the valid listed percents, hence between the least and the greatest of them |
| Quotes.AddRow | app/src/main/java/org/fakehalo/dashclock/extensions/dashportfolio/PortfolioExtension.java:270-284 | a title row replaces the master and changes nothing else; any other row is appended and adds its values to the sums, or one to the error count |
| Quotes.ReadFeed | app/src/main/java/org/fakehalo/dashclock/extensions/dashportfolio/PortfolioExtension.java:248-286 | the `readLine` loop builds the list, the last title row, both running sums and the error count of the records of every line |
| Ranking.CriterionOf | app/src/main/java/org/fakehalo/dashclock/extensions/dashportfolio/PortfolioExtension.java:161-172 | each of the four order strings selects its criterion, and no other string does |
| Ranking.Compare | app/src/main/java/org/fakehalo/dashclock/extensions/dashportfolio/PortfolioExtension.java:160-174 | the comparator's sign: `percent`/`price` descending, the `_reverse` variants ascending, otherwise by `compareTo`; zero exactly on equal keys |
| Ranking.PrecedesTotalPreorder | app/src/main/java/org/fakehalo/dashclock/extensions/dashportfolio/PortfolioExtension.java:160-174 | each criterion is a total preorder, so the sorts are well defined |
| Ranking.Reverse | app/src/main/java/org/fakehalo/dashclock/extensions/dashportfolio/PortfolioExtension.java:314-315 | the reversal puts element `n-1-i` at `i` and keeps the elements |
| Ranking.Rank | app/src/main/java/org/fakehalo/dashclock/extensions/dashportfolio/PortfolioExtension.java:307-315 | the final list is a permutation of the parsed list, in forward order or reversed exactly when reverse mode is on |
| Ranking.RankOrdered | app/src/main/java/org/fakehalo/dashclock/extensions/dashportfolio/PortfolioExtension.java:307-312 | the forward order is sorted by the criterion, and records tying on it stay alphabetical |
| Ranking.RankByPercent | app/src/main/java/org/fakehalo/dashclock/extensions/dashportfolio/PortfolioExtension.java:162-163 | `percent` orders largest first, ties alphabetically |
| Ranking.RankUnknownCriterion | app/src/main/java/org/fakehalo/dashclock/extensions/dashportfolio/PortfolioExtension.java:161-173 | an absent, empty or unrecognised order gives the plain alphabetical sort |
| Render.DigitStringRoundTrip | app/src/main/java/org/fakehalo/dashclock/extensions/dashportfolio/PortfolioExtension.java:323-325 | the decimal numeral of a number reads back as that number |
| Render.MagnitudeRoundTrip | app/src/main/java/org/fakehalo/dashclock/extensions/dashportfolio/PortfolioExtension.java:323-325 | a `%.2f` magnitude reads back as its hundredths |
| Render.Fixed2RoundTrip | app/src/main/java/org/fakehalo/dashclock/extensions/dashportfolio/PortfolioExtension.java:323-325 | `%.2f` of a whole number of hundredths loses nothing |
| Render.RoundHalfUp | app/src/main/java/org/fakehalo/dashclock/extensions/dashportfolio/PortfolioExtension.java:323-325 | the rounding lands within half a unit |
| Render.SignedRoundTrip | app/src/main/java/org/fakehalo/dashclock/extensions/dashportfolio/PortfolioExtension.java:323-325 | the signed numeral reads back as its value; "+" leads exactly for positive values and "-" exactly for negative ones |
| Render.SymbolDataRoundTrip | app/src/main/java/org/fakehalo/dashclock/extensions/dashportfolio/PortfolioExtension.java:320-325 | an item's data is "ERR" exactly for an error record; otherwise it denotes the record's change (price mode) or percent with "%" (percent mode), led by "+" exactly when that value is positive |
| Render.MasterDataOfRow | app/src/main/java/org/fakehalo/dashclock/extensions/dashportfolio/PortfolioExtension.java:338 | the status data of a feed row are what a percent-mode body item shows |
| Render.SignedRealRounds | app/src/main/java/org/fakehalo/dashclock/extensions/dashportfolio/PortfolioExtension.java:338 | a real value is shown rounded to the nearest hundredth |
| Render.MasterDataRounds | app/src/main/java/org/fakehalo/dashclock/extensions/dashportfolio/PortfolioExtension.java:338 | the status data of a valid master denote its percent, rounded |
| Render.BodyAppend | app/src/main/java/org/fakehalo/dashclock/extensions/dashportfolio/PortfolioExtension.java:318-328 | the body of a concatenated list is the concatenation of the bodies |
| Render.BuildBody | app/src/main/java/org/fakehalo/dashclock/extensions/dashportfolio/PortfolioExtension.java:317-328 | the `for` loop appends `symbol[data] ` for every record, in list order |
| Render.IndexOf | app/src/main/java/org/fakehalo/dashclock/extensions/dashportfolio/PortfolioExtension.java:212 | `indexOf` gives the first position of the symbol, or -1 exactly when it is absent |
| Render.ShortName | app/src/main/java/org/fakehalo/dashclock/extensions/dashportfolio/PortfolioExtension.java:208-222 | the short name at the symbol's first position among the title values; the symbol itself when it is absent or the position has no short name |
| Portfolio.ClickUri | app/src/main/java/org/fakehalo/dashclock/extensions/dashportfolio/PortfolioExtension.java:103-112 | a click target exactly when reverse-on-click is off and the URL is non-empty |
| Portfolio.FetchSymbols | app/src/main/java/org/fakehalo/dashclock/extensions/dashportfolio/PortfolioExtension.java:225-289 | `fetchSymbols` computes the function `FetchOutcome` over the feed's response |
| Portfolio.FillFromFeed | app/src/main/java/org/fakehalo/dashclock/extensions/dashportfolio/PortfolioExtension.java:248-346 | the data after the feed's lines: body, status and header as `Filled` defines them |
| Portfolio.PickMaster | app/src/main/java/org/fakehalo/dashclock/extensions/dashportfolio/PortfolioExtension.java:289-305 | the master is the portfolio average (both means over the valid listed records, not an error) when the title is `^MYINDEX` and some listed record is valid, otherwise the feed's last title row |
| Portfolio.ShowBody | app/src/main/java/org/fakehalo/dashclock/extensions/dashportfolio/PortfolioExtension.java:307-331 | the body becomes the rendering of the ranked list |
| Portfolio.ShowMaster | app/src/main/java/org/fakehalo/dashclock/extensions/dashportfolio/PortfolioExtension.java:334-346 | the status and header are set, to the master's data and its short name with the data, exactly when there is a master |
| Portfolio.FetchRefusal | app/src/main/java/org/fakehalo/dashclock/extensions/dashportfolio/PortfolioExtension.java:228-233 | the update is refused exactly for an empty query, no title or a failed feed; visibility and the click target are never changed |
| Portfolio.NoValidRecord | app/src/main/java/org/fakehalo/dashclock/extensions/dashportfolio/PortfolioExtension.java:289-305 | with no valid listed record the body keeps its default and no average is built |
| Portfolio.AverageStatus | app/src/main/java/org/fakehalo/dashclock/extensions/dashportfolio/PortfolioExtension.java:289-341 | with title `^MYINDEX`, the status shows the mean of the valid listed percents rounded to the hundredth (within half a unit), which therefore lies between the least and the greatest valid percent, give or take the rounding |
| Portfolio.TitleStatus | app/src/main/java/org/fakehalo/dashclock/extensions/dashportfolio/PortfolioExtension.java:270-271 | with any other title, the status shows the last title row, or keeps its default when there is none |
| Portfolio.WeekendDaytimeNotPaused | app/src/main/java/org/fakehalo/dashclock/extensions/dashportfolio/PortfolioExtension.java:137-146 | as written, a weekend poll between 08:00 and 17:00 schedules a time that has already passed |
| Portfolio.CorrectionOnlyOnWeekends | app/src/main/java/org/fakehalo/dashclock/extensions/dashportfolio/PortfolioExtension.java:137-146 | on weekdays the corrected schedule agrees with the one written |
| Portfolio.NextPollIsNextOpening | app/src/main/java/org/fakehalo/dashclock/extensions/dashportfolio/PortfolioExtension.java:134-146 | with the correction, outside market hours the next poll is the first 08:00 strictly after now, at most a day ahead; during weekday market hours the schedule is unchanged |
| Portfolio.AsWrittenWhenAhead | app/src/main/java/org/fakehalo/dashclock/extensions/dashportfolio/PortfolioExtension.java:141-145 | where the schedule as written lies ahead of now it equals the corrected one |
| Portfolio.NextPollAsWritten | app/src/main/java/org/fakehalo/dashclock/extensions/dashportfolio/PortfolioExtension.java:134-146 | as written, outside market hours the next poll fails to lie ahead exactly on a weekend day between 08:00 and 17:00; otherwise it is the first 08:00 after now, at most a day ahead |
| Portfolio.WeekendDaytimePollStaysDue | app/src/main/java/org/fakehalo/dashclock/extensions/dashportfolio/PortfolioExtension.java:84-146 | as written, an update published on a weekend day between 08:00 and 17:00 leaves the next poll already due |
| Portfolio.NextReverseMode | app/src/main/java/org/fakehalo/dashclock/extensions/dashportfolio/PortfolioExtension.java:90-96 | a manual update toggles reverse mode when reverse-on-click is on and clears it otherwise; a settings change clears it; any other reason keeps it |
| Portfolio.HiddenOnWeekends | app/src/main/java/org/fakehalo/dashclock/extensions/dashportfolio/PortfolioExtension.java:84-87 | hiding on a weekend publishes an invisible record and changes neither field |
| Portfolio.PublishedIffFetched | app/src/main/java/org/fakehalo/dashclock/extensions/dashportfolio/PortfolioExtension.java:89-146 | visible data are published exactly when the poll is due (or forced) and the fetch succeeds; only then does the schedule move, to the value the code computes |
| Portfolio.QuietUntilOpening | app/src/main/java/org/fakehalo/dashclock/extensions/dashportfolio/PortfolioExtension.java:98-146 | after a poll outside market hours, every periodic update before the scheduled poll publishes nothing and keeps both fields, and the scheduled poll is the next 08:00 |
| Portfolio.PortfolioExtension.SchedulePoll | app/src/main/java/org/fakehalo/dashclock/extensions/dashportfolio/PortfolioExtension.java:134-146 | the field update after a published poll: outside market hours, today's 08:00, plus a day from 17:00 on; reverse mode untouched |
| Portfolio.PortfolioExtension.OnUpdateData | app/src/main/java/org/fakehalo/dashclock/extensions/dashportfolio/PortfolioExtension.java:61-152 | one update changes the two fields and publishes exactly as `UpdateOutcome` says |

## Left out

- HTTP, `URLEncoder` and stream handling are not modelled.
  The feed is the parameter `Env.fetch`. It answers a query with the body's lines, no body, or a failure anywhere on the way.
- Reading the preferences, `getResources()`, `Log`, `Uri.parse`, `Intent` and the icon are not modelled.
  The preferences and the two string arrays are inputs. `Uri.parse` is taken never to throw.
- `publishUpdate` is replaced by returning the published data.
  `ExtensionData` is a value, not a mutable builder.
  When the feed fails halfway, the code may already have filled some fields of the builder. That builder is never published, so the model returns the defaults instead.
- The clock and the weekday test are inputs.
  `currentEpoch` is already shifted by `DEFAULT_TIMEZONE_OFFSET`.
  The scheduling lemmas assume `currentEpoch >= 0`.
- Floating point is not modelled; values are exact hundredths.
  `Double.parseDouble` is the parameter `parse`.
  The risks of double arithmetic the model therefore does not capture:
  - values that are not whole hundredths;
  - `(int)` of a scaled double difference truncating to a tie;
  - rounding of the double sums;
  - `-0.0`;
  - `NaN` and `Infinity`, which `Double.parseDouble` accepts; such a field is made of field characters,
    so it survives the split, gives a record that is not an error, and renders as for example `SYM[NaN%]`.
- Render.Real2: follows `%.2f` with HALF_UP rounding on the exact value.
  It does not model the rounding of the double itself, or the default locale's decimal separator.
- Ranking.Rank: `Collections.sort` and `Collections.reverse` work in place on the list.
  The model computes the new sequence as a value, so aliasing of the list is not modelled.
- Symbols.NormalizeSymbols and Quotes.ReadFeed: the `catch` blocks around them cannot be reached with the model's inputs, so they are not modelled.
  The same holds for the averaging division and the status formatting.
- Concurrency between DashClock's update calls is not modelled.
- Symbols.NormalizeSymbols: upper-cases ASCII letters only. Java's `toUpperCase()` applies
  locale-sensitive Unicode case mapping, which can turn non-ASCII letters into ASCII ones.
  For example `ı` becomes `I` and `ß` becomes `SS`. Under a Turkish locale `i` becomes `İ`,
  which lies outside the symbol class. The model's matches differ from Java's on such input.

## Findings

| source | as written | input that shows it | evidently intended | confidence | as-written member | corrected member |
|---|---|---|---|---|---|---|
| app/src/main/java/org/fakehalo/dashclock/extensions/dashportfolio/PortfolioExtension.java:137-146 | outside market hours `nextEpoch` becomes today's 08:00, plus a day only when the hour is 17 or later | a weekend day at 10:00 (`currentEpoch` = 2 days + 36000 s): `nextEpoch` becomes 08:00 of the same day, already past, so weekend polling is never paused | schedule the next 08:00 still ahead: add a day whenever the hour is 8 or later | not executed | Portfolio.WeekendDaytimeNotPaused | Portfolio.NextPollIsNextOpening |
