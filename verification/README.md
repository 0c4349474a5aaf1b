# Trading journal — a Dafny model of its data logic

This project models the computations behind the pages of a React trading journal
and proves what they promise. Trades are immutable records. Every page computation
is a pure function over a sequence of trades. The model covers:

- the June 2024 calendar grid: blank cells, day cells and week rows;
- filing trades and day statistics under their `YYYY-MM-DD` key;
- the four report charts: P&L per instrument, P&L per weekday, the win/loss pie and the cumulative P&L line;
- the psychology page: its filters, the P&L per mental state, the state distribution and the written insight;
- the insights page: best session, average risk-to-reward and worst weekday;
- the add/edit trade form: tags, field edits, images and the record the form opens with;
- the CSV export;
- the screenshot lightbox: its index arithmetic;
- the news search filter.

Modules, in dependency order:

| module | file | what it holds |
|---|---|---|
| `Base` | base.dfy | `Option`; `Filter`, subsequences, sums, `Flatten`, `IndexOf` |
| `Strings` | strings.dfy | `trim`, `split`/`join`, `toLowerCase`, `includes`, decimal digits |
| `Gregorian` | gregorian.dfy | civil dates, day numbers, weekdays, the `YYYY-MM-DD` reader and writer |
| `Grouping` | grouping.dfy | JavaScript objects as keyed entries in insertion order: group-by, sum-by, count-by, first maximum and minimum |
| `Trades` | trades.dfy | the `Trade` record, its fields as values, the sample trades |
| `Ranking` | ranking.dfy | best and worst group of a per-key total, and totals over a fixed list of names |
| `Calendar` | calendar.dfy | the calendar grid and its cells |
| `Reports` | reports.dfy | the four report charts |
| `PsychologyPanel` | psychology.dfy | the psychology page |
| `InsightsPage` | insights.dfy | the insights page |
| `TradeForm` | trade_form.dfy | the add/edit trade form |
| `CsvExport` | csv_export.dfy | the CSV export and a CSV reader in the style of RFC 4180 |
| `Lightbox` | lightbox.dfy | the lightbox's index arithmetic |
| `News` | news.dfy | the news filter |

JavaScript numbers are modelled as `real`. The plain objects the source uses as
dictionaries (`acc[key] = (acc[key] || 0) + x`) become sequences of (key, value)
entries in first-insertion order. Functions whose exact output the model does not
need are parameters of the operations that use them: `parseFloat`,
`toFixed(2)`, printing a number, and the division of the two parts of a ratio.

## Model

| member | source | states |
|---|---|---|
| Base.Filter | components/Psychology.tsx:170-176 | `filter` keeps exactly the elements that pass the test, in their original order, and the result is as long as the number of passing elements |
| Base.FilterIdempotent | components/Psychology.tsx:170-176 | filtering a filtered list again with the same test changes nothing |
| Base.FilterMonotone | components/News.tsx:14-18 | a test implied by another keeps a superset: the stricter result is a subsequence of the looser one |
| Base.SumOfFilterSplit | components/Insights.tsx:36-43 | a total splits into the total of the kept elements plus the total of the dropped ones |
| Base.IndexOf | components/TradeDetailModal.tsx:54 | `indexOf` is -1 exactly when the element is absent, and otherwise the first position holding it |
| Base.FlattenAppend | components/TradeDetailModal.tsx:50 | `flatMap` over two consecutive parts is the concatenation of the two results |
| Strings.Trim | components/AddTradeModal.tsx:84 | `trim()` leaves no white space at either end |
| Strings.TrimSlice | components/AddTradeModal.tsx:84 | the trimmed text is a slice of the input, and only white space was cut from each side |
| Strings.TrimAfterWhite | components/AddTradeModal.tsx:84 | white space in front of a text does not change its trimmed form |
| Strings.Split | components/AddTradeModal.tsx:84 | `split(c)` always yields at least one piece, and no piece contains `c` |
| Strings.JoinSplit | components/AddTradeModal.tsx:84 | joining the pieces of a split with the separator restores the text |
| Strings.SplitJoin | components/AddTradeModal.tsx:84 | splitting separator-free pieces joined by the separator gives back the pieces |
| Strings.SplitLength | components/Insights.tsx:39-40 | a split yields one piece more than the number of separators in the text |
| Strings.Lower | components/News.tsx:15-17 | `toLowerCase()` keeps the length, leaves no capital letter, turns each capital into the small letter at the same place in the alphabet, and keeps every other character |
| Strings.LowerLower | components/News.tsx:15-17 | lower-casing twice is lower-casing once |
| Strings.ContainsIffOccurs | components/News.tsx:15-17 | `includes` holds exactly when the term occurs at some position |
| Strings.ContainsPrefixOfNeedle | components/News.tsx:15-17 | a text containing `t + u` contains `t` |
| Strings.NatToStringValue | components/Reports.tsx:119 | the decimal text of the point number reads back as that number |
| Strings.NatToStringInjective | components/Reports.tsx:119 | different point numbers get different names |
| Gregorian.Weekday | components/CalendarView.tsx:28 | `getUTCDay()` is between 0 (Sunday) and 6 |
| Gregorian.MonthTableAgreesWithLengths | components/CalendarView.tsx:27 | every month starts right where the previous one ends, and the twelve months fill the year |
| Gregorian.YearStep | components/CalendarView.tsx:26 | consecutive new years lie one year length apart under the leap-year rule |
| Gregorian.NextDayIsNext | components/CalendarView.tsx:34-35 | the day after a valid date is valid, has the next day number and the next weekday |
| Gregorian.WeekdayWithinMonth | components/CalendarView.tsx:28-35 | within a month the weekday advances by one per day, cyclically |
| Gregorian.NextMonthStartsAfterLastDay | components/CalendarView.tsx:26-27 | the next month's first weekday follows on from the current month's length |
| Gregorian.FormatIsoDate | components/CalendarView.tsx:79 | the date part of `toISOString()` is ten characters long |
| Gregorian.ParseIsoDate | components/CalendarView.tsx:13-15 | only valid calendar dates with a four-digit year are read |
| Gregorian.ParseFormat | components/CalendarView.tsx:13-15 | writing a date as `YYYY-MM-DD` and reading it back gives the same date |
| Gregorian.FormatParse | components/CalendarView.tsx:15 | a text that reads as a date is exactly that date's `YYYY-MM-DD` text |
| Gregorian.IsoDayKeyOfValid | components/CalendarView.tsx:13-15 | `new Date(s).toISOString().split('T')[0]` is defined exactly for well-formed dates, and then it is `s` itself |
| Gregorian.IsoDayKeyOfDate | components/CalendarView.tsx:79-81 | a grid day's key is its own formatted date |
| Gregorian.WeekdayOfDateString | components/Reports.tsx:59 | the weekday read from a trade date, when there is one, is between 0 and 6 |
| Grouping.Lookup | components/Reports.tsx:31 | `acc[k]` is defined exactly when `k` is one of the keys |
| Grouping.DistinctFirstOccurrenceOrder | components/Psychology.tsx:179 | `new Set` keeps every value once, in the order of first occurrence |
| Grouping.GroupBy | components/CalendarView.tsx:14-21 | the buckets are keyed by the distinct keys in first-occurrence order, and each bucket holds exactly the elements with its key, in input order |
| Grouping.GroupByPartitions | components/CalendarView.tsx:14-21 | the bucket sizes add up to the input length |
| Grouping.SumByEntries | components/Reports.tsx:30-35 | the per-key totals have the distinct keys in first-occurrence order, each with the total of its elements |
| Grouping.SumByPreservesTotal | components/Reports.tsx:30-35 | the per-key totals add up to the grand total |
| Grouping.CountBy | components/Psychology.tsx:103-107 | the per-key counts have the distinct keys, each with the number of its elements |
| Grouping.CountByTotal | components/Psychology.tsx:103-107 | every count is at least one, and the counts add up to the input length |
| Grouping.ArgMaxFirst | components/Insights.tsx:33 | the chosen entry scores at least as high as every entry and strictly higher than every earlier one |
| Grouping.ArgMinFirst | components/Insights.tsx:56 | the chosen entry scores at most as high as every entry and strictly lower than every earlier one |
| Grouping.MaxFoldIsArgMaxFirst | components/Psychology.tsx:191 | the reduce that replaces the best entry only on a strict improvement returns the first maximum |
| Grouping.MinFoldIsArgMinFirst | components/Psychology.tsx:192 | the mirror-image reduce returns the first minimum |
| Ranking.TotalLookup | components/Reports.tsx:60-63 | `acc[k] \|\| 0` is the total of the elements with key `k`, which is 0 for a key never seen |
| Ranking.BestGroup | components/Insights.tsx:27-33 | the best group is a key that occurs, paired with its own total |
| Ranking.BestGroupIsMaximal | components/Insights.tsx:33 | no group totals more than the best one, and a group that ties with it was first seen no earlier |
| Ranking.WorstGroup | components/Psychology.tsx:192 | the worst group is a key that occurs, paired with its own total |
| Ranking.WorstGroupIsMinimal | components/Psychology.tsx:192 | no group totals less than the worst one, and a group that ties with it was first seen no earlier |
| Ranking.BestGroupIsFold | components/Psychology.tsx:191 | the best group is what the left fold from the `-Infinity` sentinel returns |
| Ranking.WorstGroupIsFold | components/Psychology.tsx:192 | the worst group is what the left fold from the `Infinity` sentinel returns |
| Ranking.TotalOverCovers | components/Reports.tsx:62-63 | distinct names that cover every key split the grand total without loss |
| Calendar.FirstDayOffset | components/CalendarView.tsx:26-28 | the number of leading blanks is the weekday of the 1st, between 0 and 6 |
| Calendar.LastDayOfMonth | components/CalendarView.tsx:27 | a month has 28 to 31 days, and 29 only for February of a leap year |
| Calendar.LastDayPrecedesNextMonth | components/CalendarView.tsx:27 | day 0 of the next month is the last valid day of this one |
| Calendar.MonthCells | components/CalendarView.tsx:30-36 | the cells are the offset's blanks followed by days 1 to N, and each day sits in the column of its weekday |
| Calendar.Weeks | components/CalendarView.tsx:38-41 | the weeks concatenate back to the cells, and all are full seven-cell rows except possibly the last |
| Calendar.RenderRow | components/CalendarView.tsx:72-78 | a row always has seven slots, missing days are blank, and it shows a weekly total exactly when a summary exists for it |
| Calendar.RowsShowCells | components/CalendarView.tsx:72-78 | reading the rows slot by slot gives the cells in order, padded with blanks at the end |
| Calendar.RowsWeeklyCells | components/CalendarView.tsx:132-139 | row `w` shows a weekly total exactly when there is a summary number `w` |
| Calendar.ShownMonthGrid | components/CalendarView.tsx:23-41 | June 2024 starts on a Saturday: 36 cells in six weeks, with June 1 in cell 6 and June 30 in cell 35 |
| Calendar.TradeDayKeyIsDate | components/CalendarView.tsx:15 | a well-formed trade date is filed under itself |
| Calendar.TradesByDate | components/CalendarView.tsx:14-21 | the buckets exist exactly when every date can be keyed, and each date's bucket holds exactly the trades of that date, in journal order |
| Calendar.TradesByDatePartitions | components/CalendarView.tsx:14-21 | every trade lands in its own date's bucket, and the buckets hold every trade once |
| Calendar.DailyDataMap | components/CalendarView.tsx:13 | the map exists exactly when every date can be keyed, with one entry per daily record |
| Calendar.MapGet | components/CalendarView.tsx:80 | `get` answers nothing for an absent key, otherwise the last entry with that key |
| Calendar.DayTone | components/CalendarView.tsx:86-95 | a cell is green, red or grey exactly when its day's P&L is positive, negative or zero, and plain without data |
| Calendar.TradeNoun | components/CalendarView.tsx:106 | "trade" exactly for a count of one, "trades" otherwise |
| Calendar.RenderCell | components/CalendarView.tsx:74-110 | a day cell shows its day number, its key's statistics and tone, and the trades filed under its key |
| Calendar.DayCellListsItsTrades | components/CalendarView.tsx:79-81 | a day cell lists exactly the trades dated that day, in journal order |
| Reports.PnlByInstrument | components/Reports.tsx:28-36 | one slice per instrument, in first-occurrence order, each holding that instrument's P&L |
| Reports.PnlByInstrumentTotal | components/Reports.tsx:30-35 | the instrument slices add up to the total P&L |
| Reports.PnlByWeekday | components/Reports.tsx:55-64 | seven bars, Sun to Sat, each the P&L of the trades on that weekday |
| Reports.PnlByWeekdayTotal | components/Reports.tsx:57-63 | with readable dates the seven bars add up to the total P&L |
| Reports.OutcomesPartition | components/Reports.tsx:85-87 | every trade is exactly one of a win, a loss or a breakeven |
| Reports.WinLossChart | components/Reports.tsx:84-93 | a slice is shown exactly when its count is positive, in the order Wins, Losses, Breakeven |
| Reports.WinLossChartTotal | components/Reports.tsx:85-92 | the shown slices still count every trade |
| Reports.SortByTimeSorted | components/Reports.tsx:116 | with every date readable, the sorted copy is in ascending date order |
| Reports.SortByTimeKeepsSorted | components/Reports.tsx:116 | trades already in date order come back unchanged |
| Reports.SortByTimeStable | components/Reports.tsx:116 | the sort is stable: for every date, readable or not, the trades with that date keep their relative order |
| Reports.SortByTimeSum | components/Reports.tsx:115-120 | sorting moves trades around but keeps the total |
| Reports.SortByDate | components/Reports.tsx:115-116 | the sorted copy is a permutation, in date order when dates are readable, unchanged when already in order, and stable: the trades sharing any date appear in their original order |
| Reports.CumulativePnl | components/Reports.tsx:112-121 | point `i` is named "Trade i+1" and holds the P&L of the first `i+1` trades in date order, and the last point holds the total |
| Reports.SampleTradesSorted | data/dummyData.ts:50-54 | the sample trades are already in date order |
| Reports.SampleRunningPnl | components/Reports.tsx:114-120 | on the sample trades the running P&L is 1050, 412 and 1592 |
| Reports.SampleWinLoss | components/Reports.tsx:84-93 | on the sample trades the pie shows two wins and one loss, and no breakeven slice |
| PsychologyPanel.FilteredTrades | components/Psychology.tsx:170-176 | the trades that pass both filters, in their original order, each kept as often as it occurs |
| PsychologyPanel.NoFiltersKeepAll | components/Psychology.tsx:172-174 | with both filters on "All" every trade passes |
| PsychologyPanel.FilteredTradesIdempotent | components/Psychology.tsx:170-176 | filtering again with the same filters changes nothing |
| PsychologyPanel.InstrumentOptions | components/Psychology.tsx:178-181 | "All" first, then every traded instrument exactly once, and nothing else |
| PsychologyPanel.InstrumentOptionsOrder | components/Psychology.tsx:179 | the instruments are listed in the order they first appear |
| PsychologyPanel.StateBars | components/Psychology.tsx:75-79 | one bar per psychology option, in option order, each the P&L of the trades in that state |
| PsychologyPanel.PerformanceByState | components/Psychology.tsx:74-80 | the chart keeps exactly the option bars with a non-zero P&L, in option order |
| PsychologyPanel.DropZeroBars | components/Psychology.tsx:79 | dropping the zero bars does not change their sum |
| PsychologyPanel.PerformanceByStateTotal | components/Psychology.tsx:74-80 | when every trade is in an offered state, the bars add up to the total P&L |
| PsychologyPanel.StateDistribution | components/Psychology.tsx:102-108 | one slice per state seen, in first-occurrence order, each holding the number of trades in that state (at least one), and the counts add up to the trade count |
| PsychologyPanel.Mentions | components/Psychology.tsx:194-200 | the best state is praised exactly when its total is positive and comes first; the worst state is warned about exactly when its total is negative; there is no other sentence |
| PsychologyPanel.Reply | components/Psychology.tsx:189-201 | "not enough data" without trades, the "consistent" message without sentences, a single sentence as it is, and two sentences joined by one space, first sentence first |
| PsychologyPanel.ReplyPraisesThenWarns | components/Psychology.tsx:194-201 | with a positive best total and a negative worst total the reply is the praise, a space, then the warning |
| PsychologyPanel.InsightPraisesThenWarns | components/Psychology.tsx:183-201 | when some state made money and some state lost money, the insight names the best state first and then warns about the worst one |
| PsychologyPanel.ReplyKinds | components/Psychology.tsx:189-201 | the three kinds of reply never coincide |
| PsychologyPanel.NotEnoughDataIffEmpty | components/Psychology.tsx:184-189 | the "not enough data" reply comes exactly when no trade passes the filters |
| PsychologyPanel.TotalsBetween | components/Psychology.tsx:191-192 | every state's total lies between the worst and the best total |
| PsychologyPanel.ConsistentIffAllZero | components/Psychology.tsx:191-201 | the "consistent" reply comes exactly when every state's total is zero |
| PsychologyPanel.SomeStateGains | components/Psychology.tsx:191-197 | the best total is positive, so the best state is praised, exactly when some state made money |
| PsychologyPanel.SomeStateLoses | components/Psychology.tsx:192-200 | the worst total is negative, so the worst state is flagged, exactly when some state lost money |
| InsightsPage.TwoPartsIffOneColon | components/Insights.tsx:39-40 | a `maxRR` has two parts exactly when it holds one colon |
| InsightsPage.AverageRR | components/Insights.tsx:36-44 | the ratios of the well-formed rated wins, divided by the number of all rated wins, or 0 without rated wins |
| InsightsPage.NoWellFormedRatio | components/Insights.tsx:36-44 | when no rated win has a two-part ratio the average is 0 |
| InsightsPage.DayStats | components/Insights.tsx:47-53 | one record per weekday seen, in first-occurrence order, with that weekday's P&L and trade count |
| InsightsPage.DayStatsCountEveryTrade | components/Insights.tsx:47-53 | the per-weekday trade counts add up to the number of trades |
| InsightsPage.WorstDay | components/Insights.tsx:55-56 | the worst day is the weekday with the lowest P&L, first seen on a tie, with its trade count |
| InsightsPage.Analyze | components/Insights.tsx:17-58 | the "N/A" sentinels without trades, otherwise a traded session with its P&L, a traded weekday with its P&L and count, and the average ratio |
| InsightsPage.BestSessionIsFirstMaximum | components/Insights.tsx:27-33 | no session earns more than the best session, and a tying session was first traded no earlier |
| InsightsPage.WorstDayIsFirstMinimum | components/Insights.tsx:47-56 | no weekday does worse than the worst day, and a tying weekday was first traded no earlier |
| TradeForm.ParseTags | components/AddTradeModal.tsx:84 | every parsed tag is non-empty, trimmed and free of commas |
| TradeForm.ParseShowTags | components/AddTradeModal.tsx:84-174 | showing valid tags joined by ", " and parsing the text again returns the same tags |
| TradeForm.ParseTagsIdempotent | components/AddTradeModal.tsx:84-174 | parse, show, parse again is parse |
| TradeForm.SetTags | components/AddTradeModal.tsx:83-85 | typing in the tag box changes only the tags, which become the parsed text |
| TradeForm.NumericByName | components/AddTradeModal.tsx:71-76 | an input is numeric exactly when its name is in the handler's list of numeric fields |
| TradeForm.EditSetsField | components/AddTradeModal.tsx:68-81 | the edited field reads back the parsed number (0 when unreadable) for a numeric input, the raw text otherwise |
| TradeForm.EditKeepsOthers | components/AddTradeModal.tsx:68-81 | an edit leaves every other field as it was |
| TradeForm.EditLastWins | components/AddTradeModal.tsx:77-79 | a second edit of the same input overrides the first |
| TradeForm.DropPosition | components/AddTradeModal.tsx:101 | filtering out position `i` removes exactly that element when `i` is in range, and nothing otherwise |
| TradeForm.RemoveImage | components/AddTradeModal.tsx:100-102 | removing an image changes only the image list, and a trade without a list stays without one |
| TradeForm.AppendImage | components/AddTradeModal.tsx:93 | a loaded image goes at the end, the earlier images stay as they were, and nothing else changes |
| TradeForm.RemoveAppended | components/AddTradeModal.tsx:93-102 | removing the image just appended restores the list |
| TradeForm.InitialTrade | components/AddTradeModal.tsx:16-48 | the blank form has id 0, today's date, zero entry, exit, position, P&L, net P&L, stop-loss risk and risk, ratio "1:1", confidence and stress 3, no tags and an empty image list |
| TradeForm.OnOpen | components/AddTradeModal.tsx:60-64 | the form opens on a copy of the trade to edit with its image list defaulted to empty, or on the blank record |
| TradeForm.OnOpenKeepsComplete | components/AddTradeModal.tsx:62 | opening on a trade that already has an image list leaves it unchanged |
| CsvExport.RecordOf | components/Settings.tsx:23-25 | a trade's record has its field names as keys and its field values, in the object's key order |
| CsvExport.CellAsWritten | components/Settings.tsx:25-28 | a list and a text with a comma are wrapped in quotes; every other value is written as it is, with nothing escaped |
| CsvExport.ExportAsWritten | components/Settings.tsx:19-31 | there is a CSV text exactly when there are trades |
| CsvExport.LineBreakWrittenBare | components/Settings.tsx:27-31 | a note with a line break is written without quotes |
| CsvExport.LineBreakSplitsRecord | components/Settings.tsx:27-31 | the text written for that note reads back as three rows instead of two |
| CsvExport.QuoteWrittenBare | components/Settings.tsx:27 | a text with a comma and a quote is quoted without escaping its quote |
| CsvExport.QuoteBreaksField | components/Settings.tsx:27 | that cell reads back as two fields instead of one |
| CsvExport.EncodeTextReadsAs | components/Settings.tsx:26-28 | a text encoded with quoting and quote doubling reads back as itself |
| CsvExport.Export | components/Settings.tsx:19-31 | the corrected export: there is a CSV text exactly when there are trades |
| CsvExport.ExportReadsBack | components/Settings.tsx:23-31 | the corrected export reads back as the first trade's names, then each trade's values as text |
| CsvExport.ListItemsReadBack | components/Settings.tsx:26 | a list cell's items come back by splitting at `;` when no item holds one |
| CsvExport.AsWrittenAgreesOnPlainData | components/Settings.tsx:24-31 | without quotes or line breaks in the data, the source's export and the corrected one agree |
| Lightbox.Next | components/TradeDetailModal.tsx:17 | the next index stays in range, one further on and wrapping from the last to the first |
| Lightbox.Prev | components/TradeDetailModal.tsx:18 | the previous index stays in range, one back and wrapping from the first to the last |
| Lightbox.PrevOfNext | components/TradeDetailModal.tsx:24-25 | going forward and then back returns to the same image |
| Lightbox.NextOfPrev | components/TradeDetailModal.tsx:24-25 | going back and then forward returns to the same image |
| Lightbox.ForwardIsShift | components/TradeDetailModal.tsx:24 | up to `n` forward steps move `k` places on, wrapping once past the end |
| Lightbox.ForwardFullCycle | components/TradeDetailModal.tsx:24 | pressing forward once per image returns to the start |
| Lightbox.ScreenshotsOfTrade | components/TradeDetailModal.tsx:50-58 | the flattened list holds a trade's screenshots right after those of the trades before it |
| Lightbox.PositionOfScreenshot | components/TradeDetailModal.tsx:50 | every position of the flattened list belongs to one trade's screenshot |
| Lightbox.OverallIndex | components/TradeDetailModal.tsx:53-58 | the index is the screenshot count of the trades before the clicked trade's first occurrence plus the clicked position, and it opens on the clicked image |
| News.SomeSymbolHasIff | components/News.tsx:17 | `some` holds exactly when one of the symbols contains the term |
| News.FilterArticles | components/News.tsx:14-18 | the listed articles are, in order, exactly those that mention the term, each kept as often as it occurs |
| News.EmptyTermKeepsAll | components/News.tsx:14-18 | an empty search box lists every article |
| News.CaseInsensitive | components/News.tsx:15-17 | terms that differ only in letter case list the same articles |
| News.LowerTermSame | components/News.tsx:15-17 | lower-casing the term first changes nothing |
| News.FilterArticlesIdempotent | components/News.tsx:14-18 | filtering the listed articles again with the same term changes nothing |
| News.MentionsPrefix | components/News.tsx:15-17 | an article that mentions a term mentions every prefix of it |
| News.ExtendingTermNarrows | components/News.tsx:15-17 | typing more characters can only remove articles, never reorder them |

## Left out

- Floating point: amounts are exact reals. Rounding, `NaN` and `Infinity` are not modelled; the `±Infinity` sentinels of the reductions become an empty starting value.
- `parseFloat`, `toFixed(2)`, number printing and the ratio `parseFloat(reward) / parseFloat(risk)` are parameters. Their results are not computed.
- Dates: only the `YYYY-MM-DD` form with an existing day is read. The other formats a JavaScript `Date` accepts count as unreadable, and so does an out-of-range day such as `2024-02-30`, which V8 rolls over to 1 March. Where the page would show such a trade on the rolled-over day, Calendar.TradesByDate returns None and the weekday and sort models treat the date as unreadable.
- Time zones: a date read at local midnight is assumed to fall on the same weekday as at UTC midnight.
- The order of a sort when some date is unreadable is left to the engine. The model sorts stably and treats unreadable dates as equal; order is proved only for readable dates.
- JavaScript objects list integer-like keys first, in ascending order. The model keeps plain insertion order.
- Reports.PnlByInstrument: inherited key names are not modelled. `instrument` is free text, and for a name on `Object.prototype` (`constructor`, `toString`, `valueOf`, `hasOwnProperty`, …) `acc[trade.instrument] || 0` starts from the inherited function, so the page's slice value becomes a concatenated string, and a `__proto__` instrument creates no slice at all. The model gives the real sum. The same holds for the other per-key reductions (weekday, session, psychology state), whose keys in practice come from fixed option lists.
- `toLowerCase` is modelled for ASCII letters only; other Unicode case mappings are not.
- Trades.Fixture: the fields a sample literal leaves out hold placeholder values, where the source leaves them `undefined`.
- `direction` is a plain string; the type's two-value union is not enforced.
- TradeForm.InitialTrade: `today` is a parameter. The source computes it once, when the module loads.
- TradeForm.OnOpen: `tags` is always a list in the model, so the `Array.isArray` fallback to `[]` never applies.
- TradeForm.EditSetsField: covers only the inputs wired to the generic change handler. Tags and images have their own operations.
- The trade store does not exist in the shown code. Saving only hands the record to a callback, so no save, update or delete is modelled.
- `FileReader` image loading, the CSV download (data URI, `encodeURI`, link click) and the CSV import stub are I/O and are not modelled.
- `localStorage`, authentication, the Gemini insight service and the psychology journal entries are not modelled.
- CsvExport.RecordOf: the key order of a trade object is a parameter, because it depends on how the object was created.
- Lightbox.Next: requires at least one image. With none the source would compute `NaN`, but the lightbox only opens on a clicked screenshot.
- Lightbox.OverallIndex: compares trades by value, where `indexOf` compares object references.
- PsychologyPanel.Insight carries no contract of its own; its lemmas (NotEnoughDataIffEmpty, ConsistentIffAllZero, SomeStateGains, SomeStateLoses) state what it promises.
- The fixed summaries of the calendar fixture (weekly and monthly) are data and are shown as given; nothing recomputes them.

## Findings

| source | as written | input that shows it | evidently intended | confidence | as-written member | corrected member |
|---|---|---|---|---|---|---|
| components/Settings.tsx:27-28 | a text is quoted only when it holds a comma | a note `a` line-break `b` is written bare and splits the trade's row in two | quote a field holding a line break, as section 2 of RFC 4180 requires | medium, not executed | CsvExport.LineBreakSplitsRecord | CsvExport.ExportReadsBack |
| components/Settings.tsx:27 | a quoted text keeps its quotes unescaped | the text `x",y` is written `"x",y"` and reads back as the two fields `x` and `y"` | double every quote inside a quoted field, as section 2 of RFC 4180 requires | medium, not executed | CsvExport.QuoteBreaksField | CsvExport.ExportReadsBack |
