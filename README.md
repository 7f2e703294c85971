# Price-index data cleaning and dashboard rules, in Dafny

This project models the data side of a small price-index dashboard for India (items and
states, monthly `combined_index` values) and proves properties of that model:

- the five cleaning scripts under `datacleaning/`:
  - `check.py`: a read-only quality audit (missing counts, duplicate rows, Tukey outliers,
    item-code format);
  - `cleanup.py`: header canonicalisation, year and month coercion;
  - `cleanup2.py`: trimmed headers, month-name mapping, `dropna`, `drop_duplicates`;
  - `errorAnalysis.py`: keep-first deduplication, then forward fill and mean fill of
    `combined_index`;
  - `replaceP.py`: removal of one trailing `.P` from item codes;
- the pure rules of the Dash application `model.py`:
  - the four `store_*_selections` callbacks that merge a selection into a `dcc.Store`;
  - which branch of `update_visualization` runs, the defaults read with `.get`, the inclusive
    year filter, the seasonal sufficiency guards, the percent-change guard, the national
    comparison and the per-name comparison insights;
  - the shape of the forecast: the empty-history refusal, the horizon, the period indices,
    month-start stepping, the moving-average window and the flat continuation;
  - `toggle_landing_page`.

A table is `Tables.Table(columns, rows)`, a row a sequence of `Cell`s (`Missing`, `Int`,
`Real`, `Str`). A script is a function or method from the table `read_csv` produced to a
`Result<Table>`: `Success` holds the table `to_csv` writes, and `Failure(KeyError | SchemaError
| TypeError | AttributeError)` is the exception raised before anything is written. The in-place pandas
operations (`df.columns = …`, `df[c] = …`, `dropna(inplace=True)`, `drop_duplicates(inplace=True)`,
`fillna(…, inplace=True)`) are methods of the `Frames.DataFrame` class, each proved against a
function on sequences (`Seqs.Filter`, `Seqs.Dedup`, `Frames.ForwardFill`, `Frames.FillWith`).
A `dcc.Store` is the class `Selections.SelectionStore`. The numeric routines the dashboard
borrows (the linear regression, `rolling().mean()`, `ewm().mean()`) are parameters of type
`Forecast.Fitters`; quantiles and means are exact real arithmetic.

Modules: `Options`, `Seqs`, `Sorting`, `Text`, `Tables`, `Stats`, `Headers`, `Frames` (shared
building blocks); `Audit`, `Cleanup`, `Cleanup2`, `ErrorAnalysis`, `ReplaceP` (one per script);
`Selections`, `Views`, `Forecast` (the dashboard).

Behaviour of the scripts worth noting:

- the seasonal chart needs strictly more than twelve rows (`len(filtered_df) > 12`), so
  exactly twelve rows give the placeholder;
- `replaceP.py` removes one `.P` only, so it is not idempotent (`a.P.P` becomes `a.P`, then `a`);
- `astype(int)` in `cleanup.py` truncates a fractional year instead of rejecting it.

## Model

| member | source | states |
|---|---|---|
| Audit.MissingCount | datacleaning/check.py:8 | the count of missing cells in a column never exceeds its length |
| Audit.MissingCountIsCardinality | datacleaning/check.py:8 | the count equals the number of positions holding a missing cell |
| Audit.MissingCounts | datacleaning/check.py:8 | one count per column, each the missing count of that column |
| Audit.MissingCountsAreCardinalities | datacleaning/check.py:8 | each column's count is the number of rows whose cell in that column is missing |
| Audit.DuplicatedRows | datacleaning/check.py:12 | the rows `duplicated()` marks: as many as rows equal to an earlier row, each one a row of the table |
| Audit.DuplicatedRowsCount | datacleaning/check.py:12-13 | the duplicate count is the row count minus the distinct rows, and minus the keep-first deduplication |
| Audit.TukeyFences | datacleaning/check.py:20-22 | fences exist exactly when the column has a present value; the lower fence is at most Q1, which is at most Q3, which is at most the upper fence |
| Audit.IsOutlier | datacleaning/check.py:23 | only a present number can be an outlier, and only when there are fences; a value between the fences, either one included, is not |
| Audit.Outliers | datacleaning/check.py:23 | a row is kept exactly when its value lies strictly outside the fences |
| Audit.OutlierCount | datacleaning/check.py:23-24 | the printed outlier count is the number of row positions whose value lies strictly outside the fences |
| Audit.FencesAreInclusive | datacleaning/check.py:23 | values on either fence, and missing values, are never outliers |
| Audit.OutlierExample | datacleaning/check.py:20-23 | for 10, 12, 11, 13, 200 the fences are 8 and 16 and only 200 is an outlier |
| Audit.ValidItemCodeIsPattern | datacleaning/check.py:27 | the code test holds exactly when the string is five non-empty digit runs, each followed by a dot, then a non-empty run of word characters |
| Audit.ValidCodeExample | datacleaning/check.py:27 | `1.2.3.4.5.P` is valid |
| Audit.PiecesAreValid | datacleaning/check.py:27 | any five digit runs and a word run joined by dots form a valid code |
| Audit.InvalidCodeExample | datacleaning/check.py:27 | `1.2.3.4.5.6.P` is invalid, since a dot is not a word character |
| Audit.InvalidCodes | datacleaning/check.py:27 | a row is kept exactly when its code cell does not match (a missing code never matches) |
| Audit.InvalidCodeCount | datacleaning/check.py:27-28 | the printed invalid-code count is the number of row positions whose code does not match |
| Audit.Audit | datacleaning/check.py:8-28 | an absent `combined_index` is a KeyError, an absent `item_code` a failure; a report exists only when both columns exist, and is the summary of those two columns |
| Audit.Summary | datacleaning/check.py:8-28 | one missing count per column; the duplicate, outlier and invalid-code counts never exceed the row count |
| Audit.SummaryCounts | datacleaning/check.py:8-28 | each missing count is the number of rows missing that column; duplicates are rows minus distinct rows; outliers and invalid codes are the numbers of flagged row positions |
| Audit.AuditFailures | datacleaning/check.py:16-27 | the report fails exactly when `combined_index` is absent or holds text, or `item_code` is absent or holds no text; an absent `combined_index` is a KeyError |
| Stats.Quantile | datacleaning/check.py:20-21 | a quantile exists exactly when the column has a present value |
| Stats.SortedQuantile | datacleaning/check.py:20-21 | the interpolated quantile of a sorted sequence lies between its first and last value |
| Stats.QuantileMonotone | datacleaning/check.py:20-22 | the quantile grows with `q`, so Q1 is at most Q3 and the interquartile range is never negative |
| Stats.QuantileIgnoresOrder | datacleaning/check.py:20-21 | the quantile depends only on the multiset of present values |
| Stats.Mean | datacleaning/errorAnalysis.py:12 | the mean is absent exactly when no value is present |
| Stats.MeanWithin | datacleaning/errorAnalysis.py:12 | the mean lies between any bounds that hold for every present value |
| Headers.CanonicalHeader | datacleaning/cleanup.py:8 | same length, lowercase, no space or hyphen; each space or hyphen becomes `_`, every other character is lowered |
| Headers.CanonicalHeaderIdempotent | datacleaning/cleanup.py:8 | canonicalising twice is canonicalising once |
| Headers.UntrimmedLeadingSpace | datacleaning/cleanup.py:8 | without trimming, ` Year` becomes `_year` |
| Headers.CanonicalHeaders | datacleaning/cleanup.py:8 | every header is canonicalised in place |
| Headers.TrimmedCanonicalHeader | datacleaning/cleanup2.py:7 | the result is canonical and as long as the stripped header |
| Headers.TrimmedHasNoEdgeSpace | datacleaning/cleanup2.py:7 | a trimmed header neither starts nor ends with whitespace |
| Headers.TrimmedIgnoresPadding | datacleaning/cleanup2.py:7 | surrounding spaces disappear instead of becoming `_` |
| Headers.TrimmedCanonicalIdempotent | datacleaning/cleanup2.py:7 | trimming and canonicalising twice is doing it once |
| Headers.TrimmedLeadingSpace | datacleaning/cleanup2.py:7 | ` Year ` becomes `year` |
| Headers.TrimmedCanonicalHeaders | datacleaning/cleanup2.py:7 | every header is trimmed and canonicalised in place |
| Cleanup.Renamed | datacleaning/cleanup.py:8 | the rows stay as they are, the headers become their canonical forms |
| Tables.Truncate | datacleaning/cleanup.py:13 | `int()` of a float drops the fraction toward zero: a non-negative value is rounded down, a negative one up |
| Tables.TruncateTowardZero | datacleaning/cleanup.py:13 | `astype(int)` turns 2019.5 into 2019 and 2.5 into 2, but -0.5 into 0 and -2.5 into -2 |
| Tables.IntColumn | datacleaning/cleanup.py:13 | `astype(int)` succeeds exactly when every cell converts, and then gives each cell's integer |
| Cleanup.ConvertedYears | datacleaning/cleanup.py:12-15 | a converted year column keeps its length and holds each row's year as an integer |
| Cleanup.MonthStringsAreDecimals | datacleaning/cleanup.py:19 | the accepted strings are the decimal numerals of 1 to 12 |
| Cleanup.AcceptedMonthIsListed | datacleaning/cleanup.py:19 | a month is accepted exactly when it is one of `"1"` to `"12"` |
| Cleanup.MonthStringValue | datacleaning/cleanup.py:19-21 | an accepted month parses to an integer in 1..12 that prints back as the same string |
| Cleanup.RejectedMonthSpellings | datacleaning/cleanup.py:19-20 | `01`, `1.0`, `13` and `nan` are rejected |
| Cleanup.AcceptedMonthHasNoPoint | datacleaning/cleanup.py:19 | no accepted month contains a point |
| Cleanup.FloatMonthRejected | datacleaning/cleanup.py:18-20 | a float month is always rejected, since its positional text contains a point, which none of "1" to "12" does |
| Cleanup.MissingMonthRejected | datacleaning/cleanup.py:18-20 | a missing month is rejected |
| Cleanup.PaddedMonthAccepted | datacleaning/cleanup.py:18-19 | ` 7 ` is accepted after stripping |
| Cleanup.MonthTexts | datacleaning/cleanup.py:18 | each month becomes its stripped text |
| Cleanup.AllAcceptedTexts | datacleaning/cleanup.py:19 | every stripped month text is accepted exactly when the month column is valid |
| Cleanup.ConvertedMonths | datacleaning/cleanup.py:21 | after validation, the conversion gives every row an integer month in 1..12 |
| Cleanup.Run | datacleaning/cleanup.py:8-25 | a missing or non-integer year, then a missing or invalid month, fails before anything is written; otherwise the output keeps rows and order, with canonical headers and integer years and months |
| Cleanup.ConvertMonths | datacleaning/cleanup.py:18-21 | the month steps on the frame: invalid months fail, valid ones give the cleaned table |
| Cleanup.MonthsToIntCleaned | datacleaning/cleanup.py:19-21 | once every month text is accepted, all texts convert under `astype(int)` and assigning the result over them gives the cleaned table |
| Cleanup.MonthsToInt | datacleaning/cleanup.py:21 | the last assignment gives the cleaned table |
| Cleanup2.MonthNumber | datacleaning/cleanup2.py:10-13 | a number is found only for a listed name, and names the month it is listed under |
| Cleanup2.MonthNumberOfListed | datacleaning/cleanup2.py:10-13 | no number exactly when the string is not one of the twelve names; a listed name gives its position |
| Cleanup2.ReplaceMonthName | datacleaning/cleanup2.py:16 | only a listed name changes, and it becomes its number |
| Cleanup2.ReplaceMonthNames | datacleaning/cleanup2.py:16 | the whole column is mapped cell by cell |
| Cleanup2.NameMatchIsExact | datacleaning/cleanup2.py:16 | `March` becomes 3, `january` and ` May` pass through |
| Cleanup2.NumbersPassThrough | datacleaning/cleanup2.py:16-19 | numbers pass through unchanged, and 13 converts without a range check |
| Cleanup2.CleanedFailures | datacleaning/cleanup2.py:16-19 | the run fails exactly when there is no `month` header or a mapped month does not convert to an integer |
| Cleanup2.MissingMonthFails | datacleaning/cleanup2.py:19-22 | a missing month fails the conversion before `dropna` could drop it |
| Cleanup2.CleanedRows | datacleaning/cleanup2.py:7-25 | the output has the trimmed headers; its rows are distinct, a subsequence of the complete converted rows, and exactly those rows |
| Cleanup2.CleanedMonthsAreIntegers | datacleaning/cleanup2.py:19-25 | every output month is an integer |
| Cleanup2.Cleaned | datacleaning/cleanup2.py:7-25 | no `month` header is a KeyError, and every failure concerns `month`; a success has the trimmed headers and at most the input's rows, distinct and complete |
| Cleanup2.Run | datacleaning/cleanup2.py:4-28 | the frame steps compute the cleaned table |
| Frames.DataFrame.constructor | datacleaning/cleanup2.py:4 | a frame holds the columns and rows it was read with |
| Frames.DataFrame.ToTable | datacleaning/cleanup2.py:28 | the written table is the frame's columns and rows |
| Frames.DataFrame.ColumnCells | datacleaning/cleanup2.py:16 | the cells of one column, row by row |
| Frames.DataFrame.SetColumns | datacleaning/cleanup2.py:7 | the headers are replaced and the rows kept |
| Frames.DataFrame.AssignColumn | datacleaning/cleanup2.py:16 | one column is replaced and everything else kept |
| Frames.DataFrame.DropNa | datacleaning/cleanup2.py:22 | the rows become the complete rows, in order |
| Frames.CompleteRows | datacleaning/cleanup2.py:22 | the loop keeps exactly the rows without a missing cell, in order |
| Frames.DataFrame.DropDuplicates | datacleaning/cleanup2.py:25 | the rows become their keep-first deduplication |
| Frames.FirstOccurrences | datacleaning/errorAnalysis.py:8 | the loop computes the keep-first deduplication |
| Seqs.Filter | datacleaning/cleanup2.py:22 | a filtered sequence is a subsequence holding exactly the elements that pass |
| Seqs.FilterMultiplicity | datacleaning/cleanup2.py:22 | filtering keeps every copy of a passing element and no copy of any other |
| Seqs.FilterCount | datacleaning/check.py:23-24 | a filtered sequence is as long as the number of positions whose element passes |
| Seqs.FilterTwice | model.py:662-701 | filtering by one test and then another keeps exactly what filtering once by both would |
| Seqs.Positions | datacleaning/check.py:23 | the positions of a boolean mask: exactly the indices whose element passes |
| Seqs.Dedup | datacleaning/cleanup2.py:25 | the deduplication has the same elements, no two equal, and is a subsequence |
| Seqs.DedupKeepsFirstOccurrences | datacleaning/cleanup2.py:25 | the kept elements appear in the order of their first occurrences |
| Seqs.DedupOfDistinct | datacleaning/cleanup2.py:25 | rows already distinct are kept as they are |
| Seqs.DedupIdempotent | datacleaning/cleanup2.py:25 | deduplicating twice is deduplicating once |
| Seqs.DedupLengthPlusDuplicates | datacleaning/check.py:12-13 | kept rows plus duplicates make up every row |
| Seqs.DuplicateCountIsSurplus | datacleaning/check.py:12-13 | the duplicate count is the row count minus the number of distinct rows |
| Frames.LastPresent | datacleaning/errorAnalysis.py:11 | the carried value is missing exactly when every earlier cell is missing |
| Frames.LastPresentIsNearest | datacleaning/errorAnalysis.py:11 | the carried value is the nearest present cell, with only missing cells after it |
| Frames.ForwardFill | datacleaning/errorAnalysis.py:11 | the filled column keeps its length and ends with the last present value |
| Frames.ForwardFillAt | datacleaning/errorAnalysis.py:11 | a present cell is kept, a missing one takes the nearest earlier present value, across item boundaries |
| Frames.ForwardFillMissingIsLeadingRun | datacleaning/errorAnalysis.py:11 | a cell stays missing exactly when all cells up to it are missing |
| Frames.FillWith | datacleaning/errorAnalysis.py:12 | every missing cell takes the fill value, every other cell is kept |
| Frames.ForwardFilledRows | datacleaning/errorAnalysis.py:11 | the loop carrying the last seen value writes the forward-filled column back |
| Frames.FilledRows | datacleaning/errorAnalysis.py:12 | the loop writes the mean-filled column back |
| Frames.DataFrame.FillForward | datacleaning/errorAnalysis.py:11 | the column becomes its forward fill, everything else kept |
| Frames.DataFrame.FillMissing | datacleaning/errorAnalysis.py:12 | the column's missing cells take the value, everything else kept |
| ErrorAnalysis.FillValue | datacleaning/errorAnalysis.py:12 | the fill value is missing exactly when no value is present, and is otherwise the mean of the forward-filled column |
| ErrorAnalysis.AnalysedFailures | datacleaning/errorAnalysis.py:8-12 | an absent `combined_index` is a KeyError, a text value a TypeError; otherwise the run succeeds |
| ErrorAnalysis.AnalysedCell | datacleaning/errorAnalysis.py:8-12 | each kept row differs only in `combined_index`, which is its own value, else the nearest earlier present one, else the mean |
| ErrorAnalysis.NothingElseChanges | datacleaning/errorAnalysis.py:11-12 | headers stay, and every other column and every present `combined_index` is unchanged |
| ErrorAnalysis.AllMissingStays | datacleaning/errorAnalysis.py:11-12 | a column that is entirely missing stays missing |
| ErrorAnalysis.OnePresentFillsAll | datacleaning/errorAnalysis.py:11-12 | one present value leaves no cell missing |
| ErrorAnalysis.BothFillsAt | datacleaning/errorAnalysis.py:11-12 | after both fills a cell is missing exactly when the whole column was missing |
| ErrorAnalysis.FilledUnlessAllMissing | datacleaning/errorAnalysis.py:8-12 | the same for the run's output rows |
| ErrorAnalysis.FillGapAfter | datacleaning/errorAnalysis.py:11 | a gap after a value takes that value |
| ErrorAnalysis.FilledDuplicatesKept | datacleaning/errorAnalysis.py:8-12 | two rows that become equal only after filling are both kept |
| ErrorAnalysis.AnalysedWithoutDuplicates | datacleaning/errorAnalysis.py:8-12 | without duplicates the output is the input with the filled column |
| ErrorAnalysis.Analysed | datacleaning/errorAnalysis.py:8-12 | an absent `combined_index` is a KeyError, and every failure concerns that column; a success keeps the headers and has one row per distinct input row |
| ErrorAnalysis.Run | datacleaning/errorAnalysis.py:5-16 | the frame steps compute the analysed table |
| ReplaceP.StripPSuffix | datacleaning/replaceP.py:7 | the result is a prefix; it is two characters shorter exactly when the code ends in `.P`, and unchanged exactly when it does not |
| ReplaceP.SuffixRestored | datacleaning/replaceP.py:7 | exactly the final `.P` is removed |
| ReplaceP.StripsOnlyOnce | datacleaning/replaceP.py:7 | the result still ends in `.P` exactly when the code ended in `.P.P` |
| ReplaceP.IdempotentUnlessDoubled | datacleaning/replaceP.py:7 | stripping twice equals stripping once exactly when the code does not end in `.P.P` |
| ReplaceP.NotIdempotent | datacleaning/replaceP.py:7 | `a.P.P` becomes `a.P`, and a second pass gives `a` |
| ReplaceP.ReplaceCell | datacleaning/replaceP.py:7 | strings are stripped, a missing code stays missing, other cells stay non-strings |
| ReplaceP.ReplaceCells | datacleaning/replaceP.py:7 | the column is mapped cell by cell |
| ReplaceP.Replaced | datacleaning/replaceP.py:4-10 | an absent `item_code` is a KeyError, and every failure concerns that column; a success keeps the headers and the row count |
| ReplaceP.ReplacedChangesOnlyCodes | datacleaning/replaceP.py:4-10 | row count, order, headers and every other column are unchanged |
| ReplaceP.ReplacedFailures | datacleaning/replaceP.py:7 | the run fails exactly when `item_code` is absent or holds no string |
| Text.Strip | datacleaning/cleanup.py:18 | stripping leaves no whitespace at either end and keeps an already stripped string |
| Text.StripPadded | datacleaning/cleanup.py:18 | surrounding spaces do not change the stripped text |
| Text.StripKeepsNonSpace | datacleaning/cleanup.py:18 | no non-space character is lost |
| Text.ParseInt | datacleaning/cleanup.py:21 | a parse needs a non-blank string, and a negative value needs a leading minus sign |
| Text.LowerString | datacleaning/cleanup.py:8 | same length, each character lowered |
| Text.ParseIntRoundTrip | datacleaning/cleanup.py:21 | printing and parsing an integer gives it back |
| Text.JoinSplit | datacleaning/check.py:27 | joining the pieces of a split gives the string back |
| Text.SplitJoin | datacleaning/check.py:27 | splitting dot-free pieces joined by dots gives them back |
| Selections.Merged | model.py:341-342 | `(data or {}).update(…)`: the keys of both, the new values for updated keys, the old values for the rest |
| Selections.MergedFromNothing | model.py:341 | an absent and an empty selection merge alike |
| Selections.MergedTwice | model.py:341-342 | a later write of the same keys wins |
| Selections.ItemUpdates | model.py:341-342 | the item callback writes `item`, `years`, `viz_type` and nothing else |
| Selections.StateUpdates | model.py:363-365 | the state callback writes `state`, `region_type`, `years`, `viz_type` |
| Selections.CompareUpdates | model.py:388-392 | the compare callback writes its six keys |
| Selections.ForecastUpdates | model.py:411-415 | the forecast callback writes `item`, `hist_years`, `period`, `method` |
| Selections.SelectionStore.constructor | model.py:332 | a new store holds nothing |
| Selections.SelectionStore.Store | model.py:332-343 | untriggered, the stored value is returned unchanged; triggered, it becomes the merge and is returned |
| Selections.SelectionStore.StoreItemSelections | model.py:332-343 | the same for the item keys |
| Selections.SelectionStore.StoreStateSelections | model.py:354-366 | the same for the state keys |
| Selections.SelectionStore.StoreCompareSelections | model.py:379-393 | the same for the compare keys |
| Selections.SelectionStore.StoreForecastSelections | model.py:404-416 | the same for the forecast keys |
| Views.Get | model.py:437-439 | `dict.get`: the stored value if present, else the default |
| Views.ActiveBranch | model.py:428-436 | untriggered gives the placeholder; each view's branch runs only for its tab with a non-empty selection |
| Views.ActiveBranchShowsStoredView | model.py:429-436 | a triggered callback on any of the four tabs shows that tab exactly when its selection is non-empty, and the placeholder otherwise |
| Views.ItemSettingsOf | model.py:437-439 | absent years give 2018-2023, an absent type gives `line`, an absent item gives `None` |
| Views.ItemSelectionsReadBack | model.py:332-343 | the item view reads back exactly what the item callback stored |
| Views.StateSettingsOf | model.py:561-564 | absent region gives `combined`, absent years span the data, absent type gives `line` |
| Views.StateSelectionsReadBack | model.py:354-366 | the state view reads back what the state callback stored |
| Views.CompareSettingsOf | model.py:654-659 | the six defaults of the comparison view |
| Views.CompareSelectionsReadBack | model.py:379-393 | the comparison view reads back what its callback stored |
| Views.YearBounds | model.py:442-444 | bounds exist exactly for a year range, and are its two ends |
| Views.Selected | model.py:442-444 | exactly the rows of the chosen name with years in the inclusive range, in original order |
| Views.SelectedCount | model.py:442-444 | every copy of a matching row is kept and no other row, so `len(filtered_df)` is the number of matching positions |
| Views.SelectedBounds | model.py:443-444 | rows in either end year are kept; an inverted range keeps nothing |
| Views.SelectedAmong | model.py:662-666 | exactly the rows of any chosen name within the years, in order |
| Views.SelectedAmongCount | model.py:662-666 | `isin` keeps every copy of a matching row and no other, as many rows as matching positions |
| Views.Values | model.py:524-525 | the plotted values, row by row |
| Views.PercentChange | model.py:527 | 0 when the start is at most 0; otherwise the change times 100 over the start; positive exactly when the value rose from a positive start |
| Views.ChangeOf | model.py:524-527 | an empty selection gives start, end, change and percent of 0; otherwise the first and last values and their difference |
| Views.NationalDifference | model.py:625-637 | present exactly for a non-national state with rows; the difference from the last national value and its percent |
| Views.YearsOf | model.py:497 | each row's year, in order |
| Views.DistinctYears | model.py:497 | `sorted(unique())`: every year once, strictly ascending |
| Views.YearCount | model.py:498-499 | a year has rows exactly when some row carries it |
| Views.YearCountPositions | model.py:498-499 | `len(year_data)` is the number of row positions carrying the year |
| Views.YearRowsPresent | model.py:498 | the rows of a year are non-empty exactly when the year occurs |
| Views.SeasonalYears | model.py:497-499 | exactly the years with more than six rows, ascending |
| Views.YearTraces | model.py:497-507 | the loop traces exactly those years |
| Views.KeepCovered | model.py:497-499 | the loop keeps exactly the years passing the coverage test, in order |
| Views.SeasonalFigure | model.py:481-521 | placeholder exactly when there are at most twelve rows; otherwise traces the seasonal years |
| Views.SeasonalThresholds | model.py:481-499 | twelve rows are not enough, thirteen are; a year with six rows gets no trace |
| Views.ItemFigure | model.py:447-521 | a figure is drawn only for `line`, `bar`, `heatmap` or `seasonal` |
| Views.ItemView | model.py:436-556 | years that are not a range fail first; a shown view has one of the four chart types, and its change runs from the first to the last selected row |
| Views.ItemViewDefaults | model.py:436-556 | with only the item stored, the 2018-2023 line chart and the change of its rows |
| Views.EmptySelectionReportsZero | model.py:524-527 | an empty selection reports no change |
| Views.ItemViewShown | model.py:436-556 | shown exactly for a year pair and one of the four chart types; the figure is that type's over the selected rows (the seasonal one over those rows) and the change is the change of their values |
| Views.StateView | model.py:559-649 | years that are not a range fail first; a shown view is a line, bar or map chart, and its change runs from the first to the last selected row |
| Views.StateViewNational | model.py:625-637 | the national line appears exactly for a state other than `ALL India` with rows |
| Views.StateViewShown | model.py:559-649 | shown exactly for a year pair and a line, bar or map chart; the change is that of the state's selected rows, and the national difference compares them with the `ALL India` rows of the same years |
| Views.RowsNamed | model.py:701 | exactly the rows of one name, in table order |
| Views.RowsNamedCount | model.py:701 | every copy of a row of the name is kept and no other row |
| Views.NamedChanges | model.py:700-712 | at most one insight per selected name, each naming a selected name |
| Views.NameChange | model.py:703-707 | the percent change from the first to the last value of the name's rows |
| Views.NamedChangesExact | model.py:700-712 | every insight names a name with rows and carries the change of those rows; every selected name with rows gets an insight |
| Views.CompareInsights | model.py:700-712 | the insight loop computes those insights |
| Views.NamesOf | model.py:654-655 | a list of names exactly for a multi-select value |
| Views.CompareView | model.py:652-779 | a selection that is not a list fails; a shown view is a line, bar or radar chart with at most one insight per selected name |
| Views.CompareInsightsNameSelection | model.py:652-779 | every insight names a selected item or state of the active tab |
| Views.RowsNamedAmong | model.py:662-701 | the rows of one name within the `isin` selection are that name's own selection over the same years |
| Views.CompareViewShown | model.py:652-779 | shown exactly for a list, a year pair and a line, bar or radar chart; every insight is the percent change of a selected name's own rows in those years, and every selected name with such rows has one |
| Views.LandingHidden | model.py:1178 | hidden exactly after an odd number of clicks |
| Views.LandingPage | model.py:1177-1180 | hidden gives `none` and "Show Overview Map", shown gives `block` and "Start Analysis" |
| Views.LandingAlternates | model.py:1177-1180 | every click flips the page, which starts shown |
| Forecast.NextMonth | model.py:818 | the next month start, one month later |
| Forecast.OrdinalInjective | model.py:818 | month starts are told apart by their month count |
| Forecast.MonthStartsAfter | model.py:818 | `period` valid month starts, the k-th being k + 1 months after the last date |
| Forecast.MonthStartsAreConsecutive | model.py:818 | they start right after the last date and follow each other month by month |
| Forecast.Range | model.py:801 | `range(lo, lo + n)` holds lo, lo + 1, … |
| Forecast.IndicesContinue | model.py:801-813 | history indices and forecast indices together count 0 to n + period - 1 |
| Forecast.Window | model.py:908 | `period // 2`: twice the window is the period or one less |
| Forecast.SliderWindows | model.py:305-309 | for slider periods 3..24 the window is between 1 and 12, and 1 for the minimum |
| Forecast.Flat | model.py:912 | `np.tile(v, p)`: `p` copies of `v` |
| Forecast.ForecastSettingsOf | model.py:784-787 | absent history gives 2020-2024, absent period 12, absent method `linear` |
| Forecast.ForecastSelectionsReadBack | model.py:404-416 | the forecast view reads back what its callback stored |
| Forecast.PeriodOf | model.py:786 | a usable period is a non-negative number, taken as is |
| Forecast.History | model.py:789-793 | the selected rows sorted by date: same rows, same count |
| Forecast.ForecastValues | model.py:803-988 | each method gives exactly `period` values |
| Forecast.Extend | model.py:800-988 | `period` dates and values, indices 0..n-1 and n..n+period-1, and the change from the last actual value to the last forecast |
| Forecast.ForecastView | model.py:782-1058 | history years that are not a range fail first; a forecast drawn has a known method and exactly `period > 0` dates, values and future indices |
| Forecast.ForecastYearsRefused | model.py:784-792 | history years that are not a range are refused first |
| Forecast.EmptyHistoryRefused | model.py:795-797 | an empty history gives the no-data result whatever the fitters |
| Forecast.UnknownMethodRefused | model.py:803-988 | another method draws no figure |
| Forecast.PeriodRefused | model.py:786-818 | a period of 0, or one that is not a count, gives no forecast |
| Forecast.ForecastFollowsHistory | model.py:793-818 | the first forecast date is the month after the last historical date and later than every historical date |
| Forecast.ForecastIndices | model.py:801-813 | history and forecast indices together count 0 to n + period - 1 |
| Forecast.FlatForecasts | model.py:906-988 | moving-average and smoothing forecasts are `period` copies of the last smoothed value, which is also the final value |
| Forecast.LinearForecast | model.py:806-813 | the linear forecast predicts at the indices n, n + 1, … |
| Forecast.ForecastDefaults | model.py:784-818 | with only the item stored and data in 2020-2024, a 12-month linear forecast |
| Forecast.ForecastViewShown | model.py:782-818 | with history rows, a known method and a positive period, the view shows that method's forecast of the date-ordered history over `period` months |
| Sorting.SortBy | model.py:793 | a sorted permutation of its input |
| Sorting.SortedRealsUnique | datacleaning/check.py:20-21 | two sorted sequences with the same elements are equal |

## Left out

- I/O: `read_csv`, `to_csv` and every `print` are not modelled. A script's input table is a
  parameter, and its `Success` value is the table written.
- The Dash layout, callback registration, `update_view_controls`, `update_landing_content`,
  `update_selected_state`, every figure constructor, the choropleth, and insight labels and
  HTML. These are presentation.
- The state view's `map` figure, and the quarterly bar chart's in-place `quarter` column
  (`to_period('Q')`). Both are figure construction.
- The numeric routines LinearRegression (fit, predict, score), `rolling().mean()`,
  `ewm(alpha=0.2).mean()` and `np.std`. They are parameters (`Forecast.Fitters`); the model proves the
  shape of their use, not their values.
- Forecast.Window: the window is computed and handed to the rolling parameter, but
  pandas' NaN for a window larger than the history is not modelled.
- Floating point: means, quantiles and percentages are exact reals. NaN appears only as
  `Missing` and is not propagated through arithmetic.
- Dates are (year, month) pairs, the month start that `to_datetime` builds.
- Python's regex: the model assumes ASCII `\d` and `\w`, and ignores `$` matching before a
  trailing newline.
- dtype: each cell carries its own type. A column that mixes `Int` and `Real` is not unified to
  float as `read_csv` would do. A column with any text behaves as object dtype, so mean and
  quantile raise a TypeError, and a column without text has no `.str` accessor, which raises
  an AttributeError.
- `describe()` (`check.py` line 16) only prints statistics and is not modelled.
- Text.FloatText: every float is written in positional notation. Python's `str` switches to
  exponent notation from 1e16 up and below 1e-4 (`1e+16`, `5e-05`). Such text is no month name
  either, so the month check rejects a float month in Python as well.
- Tables.AsInt, Tables.IntColumn: integers are unbounded. `astype(int)` gives 64-bit integers,
  so a numeric string above 2^63 - 1 raises an OverflowError, which the `except ValueError` of
  `cleanup.py` line 14 does not catch, and a float beyond the 64-bit range does not convert to
  its true value.
- Cleanup.Renamed: two headers that become equal after canonicalisation make `ColumnIndex`
  pick the first, whereas pandas would select both.
- Pandas copy-on-write: under pandas 3 the chained `fillna(inplace=True)` of
  `errorAnalysis.py` would not update the frame. The model follows pandas 2, which updates
  the column.
- `sort_values` stability: Forecast.History only promises a date-sorted permutation of the
  selected rows, not pandas' exact order among rows of the same date.
- The average, largest and smallest monthly changes and the `idxmax`/`idxmin` months of the
  insights are left out; they are presentation over floats.
- The state view's region column is assumed to be already chosen: its rows are given as points
  carrying that column's value.
- Text.IsSpace, Text.Lower, Text.LowerString, Text.Strip, Headers.CanonicalHeader,
  Headers.TrimmedCanonicalHeader, Cleanup.MonthText: whitespace is the ASCII and Latin-1
  whitespace of `str.isspace` below code point 256, and lowering maps only `A`-`Z`; Python's
  `str.lower` and `str.strip` also treat the rest of Unicode.
- Text.ParseInt: Python's `int()` also accepts `_` between digits and non-ASCII decimal
  digits; the model rejects both.
- Views.ItemFigure: the heatmap is always drawn, whereas `px.imshow` with twelve month labels
  (model.py lines 471-477) raises when the selected rows do not cover all twelve months.
