# petitions-by-locality — a Dafny model of the table and topic views

petitions-by-locality shows UK Parliament petitions by parliamentary
constituency. It has three browser pages and a small Express server:

- The **localities page** (`views/scripts/localities.js`) shows one table row
  per petition signed in the chosen constituency. Each row has:
  - the local count;
  - the "local salience", i.e. the local count against the national total
    scaled by the 650 constituencies, and a category derived from it;
  - the petition's state, whether it has a written response or a debate, and
    when it was created;
  - an AI-assigned topic, which is also a filter.

  The rows can be sorted by clicking column headers and filtered.
- The **explorer page** (`views/scripts/index.js`) shows the same table for a
  JSON file the user loads. It has no topic column. It can export as CSV the
  entries it remembered when the table was populated: every populated entry,
  in count order, whatever the filters hide and however the headers have
  re-sorted the table.
- The **topic view** (`views/scripts/topics.js`) computes:
  - the share of petitions per topic and the share of signatures per topic;
  - the topic groups and the charts for them;
  - for a chosen topic or group, the petitions in it, their signatures per
    constituency and a colour per constituency.
- The **server** (`app.js`) indexes the downloaded petitions by id.

The model is split into modules:

| module | contents |
|---|---|
| `Strings` | JavaScript string order, substring search, ASCII lower case, whitespace, decimal text |
| `Petitions` | the petition records, the constituency index, the server's index by id, normalisation of the petitions data |
| `Salience` | the salience ratio, its category and the category filter bands (shared by both table pages) |
| `Table` | the table body shared by both table pages: the sort-header state, the row layout with detail rows, the filter pass, and the sort that re-appends rows |
| `Localities` | the localities page and its `LocalityPage` class |
| `Explorer` | the explorer page, the CSV export and its `ExplorerPage` class |
| `Topics` | the topic view and its `TopicView` class |

How the browser's objects are represented:

- The table body is a sequence of row values. A main row carries its cells, the
  id of its detail row and whether it is shown. A detail row carries its id and
  whether it is shown.
- `WellFormed` says that no two rows are equal and that detail-row ids are
  unique. Under it, value equality stands for node identity, as
  `getElementById` and `appendChild` need.
- JavaScript objects used as dictionaries become Dafny maps.
- Loops over `for...in` keys become loops that take any remaining key. Every
  result proved does not depend on that order.

## Model

| member | source | states |
|---|---|---|
| Strings.LessTransitive | views/scripts/localities.js:160 | the string order used by `sort()`, taken character by character (Unicode scalar values, which equals UTF-16 code-unit order on text within the Basic Multilingual Plane), is transitive |
| Strings.LessTotal | views/scripts/localities.js:160 | in that character order, two different strings are always ordered one way or the other |
| Strings.LessIrreflexive | views/scripts/localities.js:160 | in that character order, no string sorts before itself |
| Strings.PrefixNotLess | views/scripts/localities.js:372 | a string never sorts before one of its prefixes (so an ISO date is not before an equal or longer date) |
| Strings.LowerAscii | views/scripts/localities.js:339 | lower-casing keeps the length and lowers each character |
| Strings.NatToString | views/scripts/localities.js:513 | the decimal text of a counter is non-empty, all digits, one digit exactly below ten |
| Strings.NatToStringInjective | views/scripts/localities.js:513 | different counters give different decimal text |
| Strings.IntToString | views/scripts/index.js:573 | the decimal text of an integer holds only digits and `-`, never a newline, comma or quote |
| Strings.OccurrencesConcat | views/scripts/index.js:573 | quote counts add up over concatenation |
| Strings.InsertSorted | views/scripts/localities.js:160 | inserting into a strictly sorted list keeps it strictly sorted and adds exactly the new string |
| Strings.SortedDistinct | views/scripts/localities.js:160 | `[...new Set(xs)].sort()` is strictly sorted and holds exactly the strings of `xs` |
| Strings.StrictlySortedDistinct | views/scripts/localities.js:160 | a strictly sorted list has no repeated strings |
| Petitions.IndexById | app.js:20-23 | every petition's id is a key of the index, and each key maps to a petition with that id |
| Petitions.IndexByIdFrom | app.js:20-23 | every indexed value is one of the listed petitions |
| Petitions.IndexByIdLastWins | app.js:20-23 | when an id repeats, the last petition with that id is the one kept |
| Petitions.IndexByIdSize | app.js:20-23 | the index has at most as many keys as petitions, and exactly as many iff the ids are distinct |
| Petitions.Normalise | views/scripts/localities.js:44-50 | missing data gives the empty store, a keyed object is kept as it is, and a list is indexed by id |
| Petitions.Lookup | views/scripts/localities.js:458-460 | a petition is found iff its id is in the store, and it is the stored one |
| Salience.Ratio | views/scripts/localities.js:532-536 | with a positive national total, salience times the total equals the local count times 650; otherwise salience is 0 |
| Salience.RatioNonNegative | views/scripts/localities.js:532-536 | salience is never negative for a non-negative count |
| Salience.RatioScaleInvariant | views/scripts/localities.js:532-536 | scaling the local count and the national total by the same factor does not change salience |
| Salience.CategoryOf | views/scripts/localities.js:477-485 | "more salient" iff above 1.01; "about as salient" iff strictly between 0.99 and 1.01; "less salient" otherwise, including exactly 1.01 |
| Salience.BandKeepsBounds | views/scripts/localities.js:379-388 | the "more" filter keeps salience above 1.01, "less" keeps below 0.99, and "about" keeps 0.99 to 1.01 inclusive |
| Salience.BandsAgreeWithCategory | views/scripts/localities.js:379-388 | the filter bands keep exactly the rows of their category except at 0.99 and 1.01, where the category says "less" but only the "about" band keeps the row |
| Salience.CategoryExamples | views/scripts/localities.js:477-485 | category of sample values, including the boundary values 0.99 and 1.01 |
| Salience.HolbornExample | views/scripts/localities.js:532-536 | worked salience values, including a missing or zero national total giving 0 |
| Table.Click | views/scripts/localities.js:251-258 | clicking the sorted column flips the direction; clicking another column sorts it descending |
| Table.ClickTwiceRestores | views/scripts/localities.js:251-258 | clicking the sorted column twice restores the sort state |
| Table.ClickElsewhereThenBack | views/scripts/localities.js:251-258 | leaving a column and coming back sorts it descending again |
| Table.DetailRowIdInjective | views/scripts/localities.js:513 | detail-row ids built from petition id and counter never collide |
| Table.InsertByOrdered | views/scripts/localities.js:503 | inserting into a sorted list keeps it sorted |
| Table.SortBy | views/scripts/localities.js:282-318 | the sort is ordered by the key, keeps the length and is a permutation |
| Table.SortByCountDesc | views/scripts/localities.js:503 | the entries sorted by count are in non-increasing count order and are a permutation of the input |
| Table.SortByOrdered | views/scripts/localities.js:282-318 | sorting a list already ordered by the key leaves it unchanged |
| Table.SortByDistinct | views/scripts/localities.js:282-318 | sorting distinct rows keeps them distinct |
| Table.Layout | views/scripts/localities.js:503-730 | the k-th sorted entry gives a shown main row at position 2k and a hidden detail row with the matching id right after it |
| Table.LayoutWellFormed | views/scripts/localities.js:503-730 | a freshly populated body has distinct rows and unique detail ids |
| Table.LayoutOrdered | views/scripts/localities.js:503 | the main rows of a populated body are in non-increasing count order |
| Table.Mains | views/scripts/localities.js:274 | the main rows are exactly the rows that are not detail rows |
| Table.NameKeepsEmpty | views/scripts/localities.js:354-359 | an empty name filter keeps every row |
| Table.DateKeepsCases | views/scripts/localities.js:368-377 | no date filter keeps all rows; an active filter hides undated rows and rows created earlier, and keeps rows created on or after it |
| Table.AnswerKeepsCases | views/scripts/localities.js:390-406 | "yes" keeps exactly the rows with the flag, "no" exactly those without it, and "all" keeps everything |
| Table.CommonDisplay | views/scripts/localities.js:351-406 | a row is displayed iff it passes the name, count, date, salience, written-response and debate filters |
| Table.FindDetail | views/scripts/localities.js:421 | `getElementById` finds the first detail row with the id, or reports that there is none |
| Table.FindDetailUnique | views/scripts/localities.js:421 | in a well-formed body the detail row found is the only one with that id |
| Table.ApplyDisplay | views/scripts/localities.js:351-431 | the filter pass produces the `Filtered` body and keeps the body well formed |
| Table.FilteredWellFormed | views/scripts/localities.js:351-431 | filtering keeps a body well formed |
| Table.FilteredShows | views/scripts/localities.js:416-430 | after filtering, a main row is shown iff the filter keeps its cells, and the detail row it links to is hidden |
| Table.DetailOf | views/scripts/localities.js:326 | the detail row found is in the body with the id asked for; when none is found, no detail row has that id |
| Table.SameRowsSameDetail | views/scripts/localities.js:326 | re-arranging the rows of a well-formed body does not change which detail row an id finds |
| Table.ReappendOne | views/scripts/localities.js:322-331 | appending one sorted row, and its detail row if there is one, gives the next stage of the re-appended body |
| Table.Reappend | views/scripts/localities.js:322-331 | re-appending the sorted rows keeps the same rows, without repeats; the main rows are in the sorted order; each detail row follows its main row |
| Table.SortTableBody | views/scripts/localities.js:271-332 | sorting keeps the body well formed and keeps the same rows; the main rows are the key-sorted main rows; each detail row follows its main row |
| Table.ReappendedShape | views/scripts/localities.js:322-331 | the re-appended body has the same rows, with no repeats; its main rows are the sorted rows; its detail rows follow their main rows |
| Table.PairedDistinct | views/scripts/localities.js:322-331 | rows moved so far are never moved twice |
| Table.MainsDistinct | views/scripts/localities.js:274 | the main rows of a body with distinct rows are distinct |
| Table.SameRowsWellFormed | views/scripts/localities.js:322-331 | a re-arrangement of a well-formed body, without repeats, is well formed |
| Localities.GetUKTotal | views/scripts/localities.js:467-469 | a national total exists iff the petition is known and has a non-zero count (a zero count reads as missing) |
| Localities.LocalSalience | views/scripts/localities.js:532-536 | the row's salience is the ratio against a positive national total, 0 otherwise, and never negative |
| Localities.TopicFor | views/scripts/localities.js:510 | the stored topic when there is a non-empty one, otherwise "N/A"; never empty |
| Localities.RelevantTopics | views/scripts/localities.js:97-109 | the topics collected are exactly the non-empty, non-"N/A" topics of the constituency's petitions |
| Localities.ConstituencyTopicOptions | views/scripts/localities.js:99-110 | the options after a constituency change are "all" and then, strictly sorted, exactly that constituency's usable topics |
| Localities.UsableTopics | views/scripts/localities.js:163-170 | the options listed after "all" are the topics other than "" and "N/A", still strictly sorted |
| Localities.TopicOptions | views/scripts/localities.js:159-170 | "all" first, then the distinct usable topics in sorted order, and exactly those |
| Localities.ValuesOf | views/scripts/localities.js:72 | the list holds exactly the stored topics |
| Localities.ElementsOf | views/scripts/localities.js:110 | the list holds exactly the set's topics |
| Localities.FirstIndexOf | views/scripts/localities.js:411 | the leftmost occurrence of the note at or after a position, or none |
| Localities.RunStart | views/scripts/localities.js:411 | the start of the whitespace run just before a position |
| Localities.LeftmostNoteMatch | views/scripts/localities.js:411 | the first occurrence of the note with its whitespace run is a match, and no match starts earlier |
| Localities.StripNote | views/scripts/localities.js:411 | like `String.replace` with the note pattern: without a match the text is unchanged, otherwise the leftmost match is cut out |
| Localities.StripAiNoteRoundTrip | views/scripts/localities.js:411 | stripping the note from a topic cell gives back the stored topic |
| Localities.StripNoteRoundTrip | views/scripts/localities.js:411 | stripping a note from text plus a space plus the note gives back the text |
| Localities.TopicKeepsStored | views/scripts/localities.js:408-414 | the topic filter keeps a row iff the filter is unset or "all" or equals the row's topic |
| Localities.RowTopicFilter | views/scripts/localities.js:408-414 | for every populated row the topic filter compares against the petition's topic (or "N/A") |
| Localities.RowDisplay | views/scripts/localities.js:351-416 | a row is displayed iff it passes all six common filters and the topic filter |
| Localities.BuildRows | views/scripts/localities.js:507-750 | the rows built are the layout of the entries, and the remembered entries are their displayed forms in the same order |
| Localities.PopulateRows | views/scripts/localities.js:492-754 | no data gives an empty table; otherwise the body is the filtered layout of the count-sorted entries and the remembered entries follow that order |
| Localities.SelectRows | views/scripts/localities.js:129-137 | an unknown constituency gives an empty table; otherwise the body is the populated table sorted by count descending, and the entries are in count order |
| Localities.LocalityPage.constructor | views/scripts/localities.js:26-81 | loading normalises the petitions, keeps the index and the topics, starts with an empty table sorted by count descending and no filters, and offers all usable topics |
| Localities.LocalityPage.ApplyFilters | views/scripts/localities.js:338-432 | the body becomes the filtered body under the current filters |
| Localities.LocalityPage.ChangeFilters | views/scripts/localities.js:338-432 | the new filters are stored and the body is filtered by them |
| Localities.LocalityPage.SortTable | views/scripts/localities.js:271-332 | an unmapped column leaves the body unchanged; otherwise the same rows, main rows sorted by the key, detail rows after their main rows |
| Localities.LocalityPage.ClickHeader | views/scripts/localities.js:246-263 | the sort state follows the click rule and the body is sorted in the new direction |
| Localities.LocalityPage.PopulateTable | views/scripts/localities.js:492-755 | the body and remembered entries are rebuilt from the data, and the table stays well formed |
| Localities.LocalityPage.SelectConstituency | views/scripts/localities.js:95-137 | the topic options become those of the constituency, the topic filter resets to "all", the sort resets to count descending, and the table shows the constituency's petitions |
| Localities.LocalityPage.ShowConstituency | views/scripts/localities.js:112-137 | the topic filter resets to "all", the sort resets, and the body is the constituency's populated table sorted by count |
| Topics.Share | views/scripts/topics.js:53 | the percentage times the total equals the count times 100, is 0 without a total, and lies in 0..100 for a count within the total |
| Topics.CountTopics | views/scripts/topics.js:38-48 | every stored topic, and only those, is counted; each count is the number of petitions with that topic (at least 1); the counts add up to the number of petitions |
| Topics.CountOne | views/scripts/topics.js:44-46 | counting one more petition adds one to the total and keeps the counts exact |
| Topics.PercentageStats | views/scripts/topics.js:50-59 | every topic keeps its raw count and gets its share of the total as a percentage |
| Topics.PetitionPercentages | views/scripts/topics.js:38-62 | one entry per stored topic, with the number of petitions with that topic and its share; the raw counts add up to the number of petitions |
| Topics.TotalSignatures | views/scripts/topics.js:75-85 | the total is the sum of the numeric signature counts over all petitions |
| Topics.TopicSignatureSums | views/scripts/topics.js:90-103 | each non-empty topic of a stored petition gets the sum of its petitions' numeric counts; with non-negative counts the topic sums never exceed the total |
| Topics.AddTopicSignatures | views/scripts/topics.js:92-101 | adding one petition keeps the per-topic sums exact and within the total |
| Topics.SignaturePercentages | views/scripts/topics.js:64-118 | no petitions data gives no entries; otherwise each topic's raw count is its signature sum and its percentage is its share of all signatures |
| Topics.UncountedTopic | views/scripts/topics.js:98-100 | a topic whose petitions all lack a numeric count sums to 0 |
| Topics.TopicGroupsCount | views/scripts/topics.js:140-149 | there are eight topic groups |
| Topics.TopicGroupsDistinct | views/scripts/topics.js:140-149 | no topic is listed twice within a group |
| Topics.PresentMembers | views/scripts/topics.js:157-162 | a group's topics are exactly its members that have data, with their own data |
| Topics.GroupEntry | views/scripts/topics.js:156-164 | a group's entry sums its present members' percentages and counts and lists them |
| Topics.GroupTopicData | views/scripts/topics.js:152-167 | one entry per group, each the summary of that group's members |
| Topics.GroupRawSum | views/scripts/topics.js:157-162 | a group's raw count equals the sum of the raw counts of its listed topics |
| Topics.GroupCoversMember | views/scripts/topics.js:157-162 | with non-negative counts a group's raw count is at least that of any member topic |
| Topics.MemberRawSumNonNegative | views/scripts/topics.js:157-162 | with non-negative counts a group's raw count is non-negative |
| Topics.TopicOf | views/scripts/topics.js:254 | a petition has a topic iff it is in the topics data |
| Topics.SelectPetitions | views/scripts/topics.js:251-268 | the selection lists each selected petition exactly once, and exactly the petitions whose topic is the topic or in the group chosen: every petition the selection picks is in the list, and their number is the number of petitions it picks |
| Topics.SelectionSignaturesSum | views/scripts/topics.js:271-274 | the selection's signature total is the sum of the numeric counts of the selected petitions |
| Topics.TopicSelectionAgrees | views/scripts/topics.js:251-268 | a topic selection picks the same petitions and counts as the per-topic signature sums |
| Topics.AddBreakdown | views/scripts/topics.js:314-327 | adding a petition's breakdown adds each constituency's signatures to its running sum |
| Topics.SignaturesByConstituency | views/scripts/topics.js:305-329 | petitions without a breakdown are listed as empty; each constituency named gets the sum of its signatures over all selected petitions |
| Topics.ColourIndex | views/scripts/topics.js:340-351 | a count in range gets a colour in the scale: the minimum the first, the maximum the last |
| Topics.ColourIndexMonotone | views/scripts/topics.js:340-351 | a larger count never gets a lighter colour |
| Topics.ValueRange | views/scripts/topics.js:338-339 | the minimum and maximum are values of the map and bound every value |
| Topics.ConstituencyColours | views/scripts/topics.js:336-353 | one entry per constituency; when the sums are not all equal, every constituency gets a colour index; indices are in the scale and ordered with the counts; the smallest count gets the first colour and the largest the last; each constituency's colour is exactly the bucket of its sum between the smallest and the largest sum, `floor((count - min) / ((max - min) / 9))` capped at the last colour |
| Topics.DistinctCard | views/scripts/topics.js:271 | a list of distinct ids has as many ids as its set |
| Topics.TopicDetails | views/scripts/topics.js:236-353 | the details list exactly the selected petitions, each once, and count them and their signatures; they sum the signatures per constituency and list the petitions without a breakdown; every constituency gets a colour entry in the scale, and when the sums are not all equal every one is coloured, the smallest sum gets the first colour and the largest the last, and larger sums never get a lighter one; each constituency's colour is exactly the bucket of its sum between the smallest and the largest sum |
| Topics.RestrictToGroup | views/scripts/topics.js:641-656 | with a known group the chart data is restricted to the group's topics that have data; otherwise it is all the data |
| Topics.RenderCharts | views/scripts/topics.js:684-689 | the grouped chart summarises every group and the individual chart shows the restricted data |
| Topics.Refiltered | views/scripts/topics.js:641-656 | re-filtering the individual chart keeps the grouped chart consistent |
| Topics.FilteredChartMatchesGroup | views/scripts/topics.js:495-500 | after a group is clicked, the individual chart shows exactly the topics the grouped chart lists for it |
| Topics.TopicView.constructor | views/scripts/topics.js:678-689 | the view starts on petition percentages with no filter, both charts drawn from them; the petition percentages give each topic its number of petitions and its share, and the signature percentages are what `calculatePercentageOfSignaturesByTopic` gives (empty without petitions data, otherwise each topic's signature sum and share) |
| Topics.TopicView.FilterIndividualChart | views/scripts/topics.js:641-665 | the filter is stored and the individual chart shows the current data restricted to the group |
| Topics.TopicView.ResetIndividualChart | views/scripts/topics.js:670-672 | the filter is cleared and the individual chart shows all the current data |
| Topics.TopicView.ChangeChartType | views/scripts/topics.js:692-700 | the chart type changes, the filter is kept, and both charts are redrawn from the new data |
| Topics.TopicView.ReactivateAsWritten | views/scripts/topics.js:684-689 | on a later activation the filter is cleared, the grouped chart is redrawn from the petition percentages and the individual chart from the current chart type's data; the view is consistent only on petition percentages |
| Topics.ReactivationMismatch | views/scripts/topics.js:684-689 | with the signature chart selected, a re-activation leaves a grouped chart that disagrees with the individual chart |
| Topics.TopicView.Reactivate | views/scripts/topics.js:684-689 | a re-activation as intended: the filter is cleared and both charts are redrawn from the current chart type's data, so the view is consistent |
| Explorer.GetUKTotal | views/scripts/index.js:557-560 | a national total exists iff the petition is known with a numeric count, zero included |
| Explorer.UKTotalVariants | views/scripts/index.js:557-560 | the two pages' national totals differ only on a zero count, which this page keeps and the localities page treats as missing |
| Explorer.RowSalience | views/scripts/index.js:354-358 | the row's salience is the ratio against a positive national total, 0 otherwise |
| Explorer.SalienceVariantsAgree | views/scripts/index.js:354-358 | both pages compute the same salience despite the zero-total difference |
| Explorer.BuildRows | views/scripts/index.js:329-550 | the rows built are the layout of the entries, and the remembered entries are their displayed forms in the same order |
| Explorer.PopulatedOrder | views/scripts/index.js:329-405 | the populated body alternates main and detail rows, with counts non-increasing and detail ids unique |
| Explorer.PopulateRows | views/scripts/index.js:322-554 | no data gives an empty table; otherwise the body is the filtered layout of the count-sorted entries and the remembered entries follow that order |
| Explorer.SelectRows | views/scripts/index.js:102-112 | an unknown constituency gives an empty table; otherwise the populated table sorted by count |
| Explorer.DoubleQuotes | views/scripts/index.js:573 | doubling the quotes adds one character per quote and keeps every other character |
| Explorer.QuoteFieldRoundTrip | views/scripts/index.js:573 | a CSV reader recovers the petition name from its quoted field, and the rest of the line is untouched |
| Explorer.TotalText | views/scripts/index.js:573 | the national total prints as "N/A" iff it is missing, otherwise as its decimal text |
| Explorer.StateText | views/scripts/index.js:573 | a missing state prints as "N/A", otherwise as itself |
| Explorer.YesNo | views/scripts/index.js:573 | "Yes" iff the flag is set, "No" iff not |
| Explorer.DateText | views/scripts/index.js:573 | a missing or empty created date prints as "N/A" |
| Explorer.CsvRowPetition | views/scripts/index.js:573 | the first field of every CSV row reads back as the petition name |
| Explorer.CsvNullsAndFlags | views/scripts/index.js:573 | concrete CSV texts for missing totals and states and for the yes/no flags |
| Explorer.JoinFieldsSingleLine | views/scripts/index.js:573 | joining fields without newlines gives one line |
| Explorer.CsvHeaderSingleLine | views/scripts/index.js:569 | the CSV header is one line |
| Explorer.SplitJoin | views/scripts/index.js:574-576 | splitting text joined with newlines gives back the lines |
| Explorer.CsvRows | views/scripts/index.js:570-574 | one CSV row per remembered entry (every populated entry, in count order), in order |
| Explorer.ExportCsv | views/scripts/index.js:566-576 | there is no export iff nothing is displayed |
| Explorer.CsvRowSingleLine | views/scripts/index.js:573 | a row whose texts have no newline is one CSV line |
| Explorer.ExportLines | views/scripts/index.js:566-576 | the exported text splits into the header followed by one line per remembered entry (every populated entry, in count order), in order |
| Explorer.ConstituencyOptions | views/scripts/index.js:115-120 | the selector lists exactly the constituencies of the index, strictly sorted |
| Explorer.ExplorerPage.constructor | views/scripts/index.js:1-6 | the page starts empty, sorted by count descending, with no filters |
| Explorer.ExplorerPage.LoadFile | views/scripts/index.js:20-46 | no file changes nothing; a file replaces the store (normalised) and the index, and the selector lists its constituencies sorted |
| Explorer.ExplorerPage.ApplyFilters | views/scripts/index.js:212-291 | the body becomes the filtered body under the current filters |
| Explorer.ExplorerPage.ChangeFilters | views/scripts/index.js:588-604 | the new filters are stored and the body is filtered by them |
| Explorer.ExplorerPage.SortTable | views/scripts/index.js:154-210 | an unmapped column leaves the body unchanged; otherwise the same rows, main rows sorted by the key, detail rows after their main rows |
| Explorer.ExplorerPage.ClickHeader | views/scripts/index.js:137-151 | the sort state follows the click rule and the body is sorted in the new direction |
| Explorer.ExplorerPage.SelectConstituency | views/scripts/index.js:91-113 | the sort resets to count descending and the table shows the constituency's petitions sorted by count |
| Explorer.ExplorerPage.Export | views/scripts/index.js:566-576 | no export when no entry is remembered; otherwise the header, a newline and the rows of every populated entry, in count order, joined by newlines; filters and header sorts do not change it |

## Left out

- The DOM, Chart.js, Leaflet, `fetch` and `FileReader` are left out, and so is any other input or output.
  - The table body is modelled as a sequence of rows.
  - A chart's content is the data it is drawn from.
  - The map's content is the colour index per constituency.
  - A failed fetch of the topics file, and a JSON parse error, are not modelled.
- `Number.prototype.toFixed(2)`, `parseFloat` of a rounded value and `toLocaleString` are left out.
  - Percentages and salience are exact reals.
  - The CSV export takes the two-decimal formatting and the date formatting as function parameters (`Formats`).
  - `formatDateUK` and `Date` are not modelled.
- Topics.PercentageStats: percentages are the exact share, not the share rounded to two decimals.
- Topics.GroupEntry: a group's percentage is the exact sum of its members' percentages, not that sum rounded to two decimals.
- Table.SortBy: the sort comparator is not modelled. It uses `parseFloat` with commas removed, `new Date`, or `localeCompare` on the cell text. Here each row has a real-valued key and the rows are stably sorted by it. Text columns sorted with `localeCompare` are therefore not modelled beyond "ordered by some key".
- Localities.LocalityPage.SortTable: the data-sort type of each header comes from `index.html`, which is not part of this model. The key and direction are parameters.
- Explorer.ExplorerPage.SortTable: the same as Localities.LocalityPage.SortTable.
- Signature counts that are not numbers are represented as a missing count (`None`). This covers the source's `typeof ... !== 'number'` checks. A non-numeric per-constituency count is not modelled: the source adds it anyway and prints a warning.
- Object keys that clash with `Object.prototype` members are not modelled. The order of `for...in` is not modelled either; every result proved holds in any order.
- `populatePetitionsTable` and the rest of the petitions table in the topic view are not modelled, because that is presentation only.
- `updateSortIndicator`, the details toggle buttons, the highlight list of the individual chart, and the search box of the topic filter are presentation only and are not modelled.
- `window.rawPetitionsData`, which the topic view reads, is taken as a parameter (`Option<PetitionStore>`). None of the page scripts assigns it. `views/scripts/localities.js:4` declares `rawPetitionsData` with a script-level `let`, which does not create a window property. So in the running page the topic view may always take the `None` branch: empty signature percentages, and a topic selection with no petitions. The `Some` branch is modelled for a page that does set it.
- Strings.Less: JavaScript compares strings by UTF-16 code units, while the model compares Unicode scalar values. The two orders agree on text within the Basic Multilingual Plane and can differ when a character outside it (such as an emoji) meets one at U+E000 or above. The sorted topic options and constituency options are proved for the scalar-value order.
- Localities.SelectRows: after a constituency change the table is sorted by the type that `index.html` gives the count header (`views/scripts/localities.js:133-137`). The model sorts by the count, descending (`CountKey`), which is what that header holds.
- Explorer.SelectRows: the same as Localities.SelectRows (`views/scripts/index.js:108-112`).
- Localities.LocalityPage.SelectConstituency and Localities.LocalityPage.ShowConstituency: they use Localities.SelectRows, with the same fixed key.
- Explorer.ExplorerPage.SelectConstituency: it uses Explorer.SelectRows, with the same fixed key.
- Each activation of the topic view adds another `change` listener to the chart-type radio buttons and another `click` listener to the show-all button. The extra listeners only repeat the same redraw, so they are not modelled.
- `scripts/process_petitions.js` and `scripts/add_topics.js`, which produce the data files, are not part of this model.
- A second `change` listener is added to the constituency selector each time a file is loaded on the explorer page. This is not modelled: each selection runs once.
- Topics.ColourIndex: when every constituency has the same count, the source divides by a zero step and gets no valid colour. The model then gives no colour index (`Bucket` returns `None`), and `ColourIndex` requires distinct minimum and maximum.
- Lower-casing for the name filter covers ASCII letters only.
- The localities page's constituency selector sorts the index keys exactly as the explorer page's does, so it is modelled once, as Explorer.ConstituencyOptions.

## Findings

| source | as written | input that shows it | evidently intended | confidence | as-written member | corrected member |
|---|---|---|---|---|---|---|
| views/scripts/topics.js:684-689 | each activation of the topic view redraws the grouped chart from `petitionPercentages`, but the individual chart from `allProcessedTopicData[currentChartType]` | choose "signatures", leave the topic view and come back: the grouped chart shows petition counts (a group with one "brexit" petition counts 1), and the individual chart shows signature counts (5 for that petition) | both charts redrawn from the current chart type's data | medium, not executed | Topics.TopicView.ReactivateAsWritten, Topics.ReactivationMismatch | Topics.TopicView.Reactivate |
