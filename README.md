# AI application analysis platform: a verified model of its data logic

The platform is a set of Streamlit dashboards and analysis scripts built on
pandas. This project models in Dafny the logic behind them, and proves what
that logic promises. Charts, styling and statistics libraries are not modelled.

The modules, in the order the pages use them:

- `Wrappers`, `Frames`: `Option`/`Result`, and a dataframe as column names
  plus rows of cells.
- `Text`: the Python string semantics the pages rely on. This covers
  `str.isspace`, `strip()`, `split()`, the `in` test, `str.replace` of one
  character or of a character class, `str()`/`int()` on integers,
  `ljust`/`rjust`, and string ordering.
- `Cells`: a cell (missing, text, integer or float), Python's `float()` on a
  string, and `pd.to_numeric(..., errors='coerce')`.
- `Seqs`: the generic table operations: boolean-mask filters, `apply`,
  `sort_values` (sorted and a permutation), `head`/`tail`, `nlargest`,
  `unique`, and group counts.
- `NsfLoader`: `load_data` of the R&D dashboard and of the chart script
  (renaming, dropping rows without a year, the year cleanup, and the
  column-by-column comma stripping and float conversion). It is a method with
  a loop, proved against a specification function.
- `Investment`: the R&D dashboard. This covers the year slider, the
  latest-year summary with its ten-year growth guard, the default comparison
  years, and the loop of per-year performer pies.
- `RdScript`: the stand-alone chart script. This covers the same load without
  error handling, the last-ten-years growth window, and the latest-year row.
- `NsfAnalysis`: the correlation/forecast script. This covers its own
  narrower cleanup, the year cutoff, the coerced ratio column, the two left
  joins on the year, `dropna`, and the forecast years.
- `DroneData`: `load_drone_data` (index coercion, the two row drops, the
  integer cast, the sort and the column loop) and the application-column
  selection.
- `PatentReport`: the correlation-strength and significance labels,
  `format_number`, the melt with its in-place year and amount conversion, and
  the fixed-width report lines.
- `Gpu`: manufacturer, series and generation extraction from a card name, the
  sidebar filter pipeline, the top-20 view, group sizes, and the strongest
  card per manufacturer.
- `Unicorn`: the unicorn dashboard. This covers the default year, the sorted
  year column, its total, the top country, the count of countries with
  unicorns, the top ten, and the top-five-plus-rest pie.
- `Navigation`: the entry page. It models `MENU_STRUCTURE`, and
  `st.session_state` as a class whose methods are the initialisation, the two
  handlers, the button loop and the render step. Every state a run can reach
  is proved to be home or to agree with the menu.

Two points of the code's behaviour the model keeps:

- `astype(float)` in `us_investment.py` and `1.py` raises on a malformed
  numeric cell, so the load fails (`BadNumber`). In the dashboard that whole
  load returns None; in the script it ends the run. `analysis.py` and
  `hejin/drone.py` use `to_numeric(errors='coerce')` instead and turn such a
  cell into a missing value.
- The year cleanup in `us_investment.py` and `1.py` deletes ASCII letters
  only (`[a-zA-Z]`), so any other non-digit character makes the year fail to
  parse. `analysis.py` deletes only `e` and `f`.

Numbers are exact decimals (`real`), not IEEE doubles.

## Model

| member | source | states |
|---|---|---|
| NsfLoader.YearOf | us_investment.py:99 | a text Year cell reads as `int()` of the text with every ASCII letter deleted; a non-text cell fails |
| NsfLoader.CellToFloat | us_investment.py:104 | a text cell reads as `float()` of the text without its commas; a missing cell stays missing; a result is always a float or missing |
| NsfLoader.FirstBadColumn | us_investment.py:102-104 | every column before it converts and the column itself does not: the first column the loop raises on |
| NsfLoader.ConvertColumn | us_investment.py:104 | `df[col] = ...` rewrites exactly column j of every row with its conversion and keeps every other cell |
| NsfLoader.ConvertStep | us_investment.py:102-104 | one loop iteration keeps the invariant that the columns before j are converted and the rest are untouched; Year and Deflator are skipped |
| NsfLoader.ConvertColumns | us_investment.py:102-104 | the column loop yields exactly the column-step specification: BadNumber of the first failing column, else every cell converted |
| NsfLoader.ParseYears | us_investment.py:99 | the year step succeeds iff every Year cell parses, and then replaces exactly the Year cell of each row by its integer |
| NsfLoader.Load | us_investment.py:88-106 | the load method (rename, dropna, year parse, column loop) computes the load specification |
| NsfLoader.FirstBadIs | us_investment.py:102-104 | the first failing column is determined by the columns before it converting and it failing |
| NsfLoader.ConvertSpecCases | us_investment.py:102-104 | the column step succeeds iff every non-skipped cell converts; if so every cell is converted in place, else the error names a column with a failing cell and every earlier column converts |
| NsfLoader.Kept | us_investment.py:98 | dropna(subset=['Year']) keeps, in order, exactly the rows with a year |
| NsfLoader.LoadSucceeds | us_investment.py:93-104 | the load returns a table iff the file has exactly 14 columns, every kept year parses, and every kept cell outside Year and Deflator converts |
| NsfLoader.LoadContents | us_investment.py:93-104 | a loaded table has the 14 names and one row per kept row; Year is the parsed integer, Deflator is as read, every other cell is the conversion of the read cell |
| NsfLoader.LoadFailsOnFirstBadColumn | us_investment.py:102-104 | a number failure names a non-skipped column that holds a kept cell which does not convert, and every earlier column converts |
| NsfLoader.BadColumnOfKept | us_investment.py:102-104 | the failing column found after the year step also fails on the rows as read, since the two agree outside Year and Deflator |
| NsfLoader.CellToFloatGrouped | us_investment.py:104 | a cell "n,ddd" with a thousands separator, the group zero-padded to three digits, loads as the number n*1000+ddd |
| Investment.LoadedAfterLoad | us_investment.py:93-104 | every row of a loaded table has 14 cells and an integer year |
| Investment.LoadOrNone | us_investment.py:88-109 | the dashboard's load returns a table iff the load succeeds, and then that table; every exception becomes None |
| Investment.Years | us_investment.py:119 | df['Year'] lists each row's year in order |
| Investment.MinYear | us_investment.py:119 | `min()` of the year column is absent exactly when the table is empty; otherwise it is a year of some row and no row's year is smaller |
| Investment.MaxYear | us_investment.py:138 | the maximum is a year of some row and no row's year is larger |
| Investment.YearFilter | us_investment.py:132 | the slider keeps exactly the rows with lo <= Year <= hi, as a subsequence in the original order |
| Investment.FirstWithYear | us_investment.py:139-142 | `.values[0]` of the rows of a year: the first row of that year, or none if no row has it |
| Investment.FirstWithYearFilter | us_investment.py:450-456 | a filter that keeps every row of a year keeps its first row as the first of that year |
| Investment.SummaryAsWritten | us_investment.py:138-151 | as written: an empty selection raises; otherwise the latest year is the selection's maximum and the shown row has that year; the growth base is sought iff latest-10 >= the table's min_year |
| Investment.PageAsWritten | us_investment.py:119-151 | the page from the whole loaded table: `int(df['Year'].min())` raises ValueError iff the table is empty; otherwise a shown summary has its latest year inside the slider range and a row of the table of that year, and looks for a growth base iff latest-10 >= min_year |
| Investment.Summary | us_investment.py:138-151 | the intended summary: an error iff the selection is empty; the shown row is a selected row of the latest year, and a growth base, when shown, is a selected row ten years older |
| Investment.SummaryShows | us_investment.py:138-186 | the intended summary fails iff the selection is empty; it shows the first row of the latest year, and shows a growth base iff a selected row is ten years older, namely the first such row |
| Investment.FirstOfYear | us_investment.py:139 | the first row of a year is found iff some row has that year, and no earlier row has it |
| Investment.SummaryAgrees | us_investment.py:119-151 | for any loaded table, empty included, where the page as written shows a summary it equals the intended summary of the slider selection |
| Investment.SummaryAgreesAbove | us_investment.py:147-151 | the same for any selection whose years are all at least min_year |
| Investment.RowOf | us_investment.py:93-99 | a loaded-shaped row of the given year |
| Investment.GuardIndexError | us_investment.py:147 | on years 2000, 2010 and 2020 with the slider at 2015..2020, the page as written raises IndexError; the intended summary shows 2020 with N/A |
| Investment.AvailableYears | us_investment.py:433 | sorted unique years: strictly increasing, each a year of some row, and every row's year listed |
| Investment.DefaultComparisonYears | us_investment.py:436-440 | four preselected years when at least four are available, starting with the first and ending with the last, otherwise all of them; every default is an available year |
| Investment.DefaultYearsSpread | us_investment.py:436-440 | from n >= 4 increasing years the defaults are four strictly increasing listed years from the first to the last; fewer years are all offered |
| Investment.PerfValues | us_investment.py:459-464 | the pie values are the four RD_Perf_* cells of the row, in that order |
| Investment.PieCharts | us_investment.py:448-464 | the pie loop draws the pies of the pie specification over sorted(selected) |
| Investment.FilterLoaded | us_investment.py:450 | a selection of loaded rows is loaded |
| Investment.PieStep | us_investment.py:455-464 | one iteration appends the pie of the year from its first row in comp_df, or nothing for a year without rows |
| Investment.PieFromFirstRow | us_investment.py:456-464 | every pie is for a listed year that has a row, and holds the shares of its first row |
| Investment.PieOrder | us_investment.py:455 | over sorted years the pies come in non-decreasing year order |
| Investment.PieForEveryYear | us_investment.py:455-458 | every listed year with a row gets a pie |
| RdScript.LoadScript | 1.py:7-27 | the script's load is the dashboard's load specification; there is no handler, so an error ends the script |
| RdScript.GrowthWindow | 1.py:123-126 | the charted rows are the last ten (all but the first when fewer than eleven); each one's predecessor lies in the 11-row window |
| RdScript.LatestRow | 1.py:149-150 | the summary row exists iff the table is non-empty, and is a row whose year no other row exceeds |
| RdScript.LatestRowIsFirstOfMaxYear | 1.py:149-150 | the summary row exists iff the table is non-empty; it is the first row with the largest year |
| NsfAnalysis.NarrowClean | analysis.py:21 | exactly the characters 'e' and 'f' are removed |
| NsfAnalysis.NarrowYearOfFootnote | analysis.py:21 | "2023e" (a year followed by e/f letters) reads as 2023 |
| NsfAnalysis.NarrowYearKeepsOtherLetters | analysis.py:21 | a year holding any other ASCII letter fails to parse |
| NsfAnalysis.CoerceColumn | analysis.py:23 | coercion rewrites only the Total column; a cell there is never text afterwards (a number or missing) |
| NsfAnalysis.Project | analysis.py:26-28 | us_data holds exactly [Year, Total] of each row |
| NsfAnalysis.UsSeries | analysis.py:31-38 | the US rows of an AI table become [year, value] pairs of numbers or missing values |
| NsfAnalysis.MergeRow | analysis.py:41-44 | a left row gives one merged row per right row with its year, each the left row followed by a right row with that year, or, only when no right row has its year, one row padded with two NaN |
| NsfAnalysis.MergeRowCovers | analysis.py:41-44 | every right row with the left row's year is merged with it |
| NsfAnalysis.LeftMerge | analysis.py:41-44 | a left merge has at least as many rows as its left side, each two cells wider and keyed by an integer year |
| NsfAnalysis.MergeRowInMerge | analysis.py:41-44 | every row that a left row gives is in the merge |
| NsfAnalysis.LeftMergeAppends | analysis.py:41-44 | the two cells appended to every merged row are a right row with that row's year, or NaN when no right row has the year |
| NsfAnalysis.LeftMergeCovers | analysis.py:41-44 | every left row is merged with every right row of its year, and a left row without a match appears padded with NaN |
| NsfAnalysis.MergedRowParts | analysis.py:41-44 | the k-th merged row is a left row followed by a right row of its year, or by two NaN when no right row has that year |
| NsfAnalysis.MergedPair | analysis.py:41-44 | a left row followed by a right row of its year is a row of the merge |
| NsfAnalysis.MergedValues | analysis.py:41-44 | after both merges, a present model count or patent share comes from a US row of that AI table with the row's year |
| NsfAnalysis.MergedRowFromLeft | analysis.py:41-44 | every merged row starts with some left row |
| NsfAnalysis.LeftMergeSubseq | analysis.py:41-44 | the left rows appear in the merge in their order |
| NsfAnalysis.LeftMergeKeepsLeft | analysis.py:41-44 | a left merge adds no row of its own: every output row starts with a left row, and every left row appears, in order |
| NsfAnalysis.DropAll | analysis.py:53 | the two AI-table year columns are dropped from every row |
| NsfAnalysis.Analyze | analysis.py:18-54 | the script step by step: preparation errors are passed on, otherwise the prepared rows have their shape and the result is the join specification |
| NsfAnalysis.PreparedShapeHolds | analysis.py:18-23 | preparation fails iff the column count is not 14 or a kept year does not parse once 'e'/'f' are gone; an unparseable Total never fails; prepared rows are [Year >= 2010, number or missing] |
| NsfAnalysis.PrepareOkCases | analysis.py:18-22 | the success condition of preparation, both directions |
| NsfAnalysis.RecentShape | analysis.py:22-28 | the rows from 2010 on, with Total coerced and projected, have the prepared shape |
| NsfAnalysis.JoinedFromNsf | analysis.py:41-54 | every joined row has four cells, no missing value, and the year and ratio of a prepared NSF row |
| NsfAnalysis.JoinedRowValues | analysis.py:41-54 | the model count and patent share of the k-th joined row are the values of US rows of the two AI tables with its year |
| NsfAnalysis.JoinedValues | analysis.py:41-54 | every joined row's model count and patent share are those of US rows of the two AI tables with the row's year |
| NsfAnalysis.MergedTriple | analysis.py:41-44 | a prepared row followed by US rows of both AI tables with its year is a row of both merges |
| NsfAnalysis.DroppedIn | analysis.py:53-54 | a merged row whose four kept cells are present survives the drop and dropna, as those four cells |
| NsfAnalysis.JoinedTriple | analysis.py:41-54 | a prepared row and US rows of both AI tables with its year, no value missing, give the joined row [year, ratio, models, patents] |
| NsfAnalysis.JoinedIncludes | analysis.py:41-54 | conversely, every such combination without a missing value is a joined row |
| NsfAnalysis.CompleteKeysIn | analysis.py:53-54 | after the drop and dropna, the rows keep the NSF key pairs of the merged rows |
| NsfAnalysis.MergeKeepsKeys | analysis.py:41-44 | a left merge keeps the [Year, ratio] pair of its left rows |
| NsfAnalysis.TwoMergesKeepKey | analysis.py:41-44 | after both merges every row starts with the [Year, ratio] of an NSF row |
| NsfAnalysis.ForecastYears | analysis.py:79 | one year per forecast period, counting up from 2024 |
| NsfAnalysis.ForecastYearsAre | analysis.py:72-81 | the forecast years are exactly 2024, 2025 and 2026 |
| DroneData.ReadIndexed | hejin/drone.py:41 | reading with index_col='Year' keeps one row per raw row, one cell narrower |
| DroneData.ReadIndexedAt | hejin/drone.py:41 | each read row is the raw row's Year cell as index, plus the other cells in order |
| DroneData.CoerceColumns | hejin/drone.py:52-53 | the column loop coerces every cell of every row |
| DroneData.LoadDroneData | hejin/drone.py:33-57 | the loader step by step computes the drone specification |
| DroneData.NormaliseRows | hejin/drone.py:45-54 | index coercion, the two drops, the cast, the sort and the column loop, in source order, compute the row specification |
| DroneData.CleanedFails | hejin/drone.py:45-48 | the integer cast of the cleaned rows fails iff the row specification fails |
| DroneData.CleanedRows | hejin/drone.py:48-54 | after a successful cast, sorting and coercing the cleaned rows gives the row specification |
| DroneData.CastFails | hejin/drone.py:48 | astype(int) fails iff some coerced index is infinite |
| DroneData.CastRows | hejin/drone.py:48-54 | after a successful cast of the kept rows, the sort and the coercion give the row specification with every width kept |
| DroneData.KeptWidths | hejin/drone.py:46-47 | the rows kept by the two drops keep their width |
| DroneData.SortedWidths | hejin/drone.py:48-49 | casting and sorting keeps row widths |
| DroneData.PermutedWidths | hejin/drone.py:49 | reordering rows keeps their widths |
| DroneData.KeptRows | hejin/drone.py:45-47 | the two drops after index coercion keep exactly the coerced rows that have a value and a numeric index |
| DroneData.FinishAgrees | hejin/drone.py:48-54 | cast, sort, then column coercion equals sorting the finished rows |
| DroneData.KeptCastable | hejin/drone.py:46-48 | some kept row has an infinite year iff some raw row that passes both drops does |
| DroneData.DroneFails | hejin/drone.py:35-57 | the load fails iff the file is missing, there is no Year column, or a kept row's year is infinite |
| DroneData.RowsOutput | hejin/drone.py:45-54 | the rows are sorted by year, have one cell per column, and are exactly the finished forms of the rows with a value and a numeric year |
| DroneData.FinalRows | hejin/drone.py:45-54 | the sorted finished kept rows are sorted, of the right width, and exactly the kept rows finished |
| DroneData.FinalWidths | hejin/drone.py:52-53 | finished rows keep the width |
| DroneData.DroneShape | hejin/drone.py:41-54 | a loaded table exists only for an existing file with a Year column; it has lost that column, and its rows are the row specification, one cell per column |
| DroneData.LatestIsLast | hejin/drone.py:65 | df.index.max() of the sorted table is the year of its last row |
| DroneData.ExistingAppCols | hejin/drone.py:164-165 | the listed application columns present in the table, exactly those, in list order |
| DroneData.PlotLabels | hejin/drone.py:168-170 | one label per present column; each present column has a mapping, so the label comes from the map |
| PatentReport.CorrelationStrength | patent_education_analysis.py:29-39 | the result is one of the four labels |
| PatentReport.StrengthSymmetric | patent_education_analysis.py:31 | r and -r get the same label |
| PatentReport.StrengthBands | patent_education_analysis.py:31-39 | strong iff |r| >= 0.8, medium iff 0.5 <= |r| < 0.8, weak iff 0.3 <= |r| < 0.5, otherwise very weak; all thresholds inclusive |
| PatentReport.StrengthMonotone | patent_education_analysis.py:31-39 | a larger |r| never gets a weaker label |
| PatentReport.Significance | patent_education_analysis.py:110 | '显著' iff p < 0.05, '不显著' iff p >= 0.05 |
| PatentReport.GroupShape | patent_education_analysis.py:43 | grouping digits gives a well-grouped string: one comma per full group of three beyond the first |
| PatentReport.GroupedAppend | patent_education_analysis.py:43 | one more comma and three digits keep the string well grouped |
| PatentReport.GroupStrip | patent_education_analysis.py:43 | removing the inserted commas gives the digits back |
| PatentReport.FormatIntStrip | patent_education_analysis.py:43 | removing the commas of "{:,}" gives str(n) |
| PatentReport.IntOf | patent_education_analysis.py:43 | int() of a cell: NaN and infinities raise, an integer stays, and a finite float is truncated toward zero |
| PatentReport.FormatNumberRoundTrip | patent_education_analysis.py:41-43 | where int() converts the cell, removing the commas of format_number gives str(int(c)), which int() reads back as int(c) |
| PatentReport.FormatNumberGrouped | patent_education_analysis.py:41-43 | where int() converts the cell, format_number gives an optional '-' and then groups: the first group has 1-3 digits, every later group has exactly 3 |
| PatentReport.Block | patent_education_analysis.py:19-22 | a value column contributes one long row per data row |
| PatentReport.Blocks | patent_education_analysis.py:19-22 | one block per value column, in column order |
| PatentReport.FlattenLength | patent_education_analysis.py:19-22 | stacking n blocks of m rows gives n*m rows |
| PatentReport.FlattenAt | patent_education_analysis.py:19-22 | row i of block c lands at c*m+i |
| PatentReport.MeltShape | patent_education_analysis.py:19-22 | the melt fails iff there is no '指标' column, and otherwise has rows × (columns − 1) rows |
| PatentReport.MeltAt | patent_education_analysis.py:19-22 | the long row for data row i and value column c carries that row's indicator, the column name as year label, and the cell |
| PatentReport.AsFloat | patent_education_analysis.py:24 | astype(float) gives a float or a missing value; an integer cell becomes the same value as a float |
| PatentReport.YearLabelOfColumn | patent_education_analysis.py:23 | the year label "2015年" reads as 2015 |
| PatentReport.PrepareFunding | patent_education_analysis.py:23-24 | the two column conversions fail iff some year label or amount does not convert; otherwise each melted row becomes its converted row |
| PatentReport.LayoutFields | patent_education_analysis.py:156 | the year is left-justified to at least 4, and funding, models and patents are right-justified to at least 15, 10 and 12; longer fields are not cut; a line whose fields fit is 56 characters |
| PatentReport.LayoutYear | patent_education_analysis.py:156 | the line length, and the year starting after three spaces |
| PatentReport.LayoutFunding | patent_education_analysis.py:156 | the funding text ends its 15-wide column |
| PatentReport.LayoutModels | patent_education_analysis.py:156 | the model count ends its 10-wide column |
| PatentReport.LayoutPatents | patent_education_analysis.py:156 | the patent share ends the line |
| PatentReport.PieceYear | patent_education_analysis.py:156 | the joined line's length, and the year after three spaces |
| PatentReport.PieceFunding | patent_education_analysis.py:156 | the funding field sits after the year field and four spaces |
| PatentReport.PieceModels | patent_education_analysis.py:156 | the models field sits after the funding field and four spaces |
| PatentReport.PiecePatents | patent_education_analysis.py:156 | the patents field sits after the models field and four spaces |
| PatentReport.ReportLineLayout | patent_education_analysis.py:156 | a line holds str(year), the formatted funding, str(models) and the patent text, each ending (or, for the year, starting) at its padded column |
| PatentReport.ReportLine | patent_education_analysis.py:151-156 | a row whose funding or model count is NaN raises; one whose two numbers are integers or finite floats gives a line |
| PatentReport.ReportLines | patent_education_analysis.py:145-156 | the year-sorted rows are printed in order until one raises: raised iff some row has a funding or model count int() refuses, and then exactly the rows before the first such row were printed |
| PatentReport.ReportOrder | patent_education_analysis.py:146 | the report lists every row exactly once (a permutation), by non-decreasing year |
| Gpu.Manufacturer | gpu.py:150 | a name without a space is its own manufacturer; otherwise the manufacturer is a non-empty word without whitespace, or the lambda raises |
| Gpu.ManufacturerFirstWord | gpu.py:150 | a name "word rest" with a space after the word gives that word |
| Gpu.ManufacturerBlank | gpu.py:150 | a name of spaces only raises IndexError |
| Gpu.ManufacturerList | gpu.py:150 | the sorted unique manufacturers: defined iff every name has one; strictly increasing; every card's manufacturer is listed and nothing else |
| Gpu.ManufacturerListDistinct | gpu.py:150 | no manufacturer is listed twice |
| Gpu.MentionsAnyExists | gpu.py:182 | `any(m in x for m in selected)` holds iff some selected manufacturer occurs in the name |
| Gpu.ApplyFilters | gpu.py:180-195 | the successive reassignments of filtered_df give exactly the selection |
| Gpu.MasksInSequence | gpu.py:180-195 | narrowing by the maker mask (when any), then the token, count and rank masks, is one combined filter |
| Gpu.SelectionSpec | gpu.py:180-195 | the selection is an in-order subsequence; every row is inside all three inclusive ranges and mentions a selected manufacturer (if any is selected); every qualifying row is kept |
| Gpu.SelectionWithoutMakers | gpu.py:181 | with no manufacturer selected only the three ranges decide |
| Gpu.Top20 | gpu.py:225 | at most 20 rows (exactly min(n,20)), in non-increasing token order |
| Gpu.Top20Dominates | gpu.py:225 | the top 20 and the rows left out split the table, and no row left out is faster than a row shown |
| Gpu.Sizes | gpu.py:289 | each group's size is the count of its key in the column |
| Gpu.TotalSizeCounts | gpu.py:289 | the sizes add up to the sum of the counts |
| Gpu.CountOccurring | gpu.py:289 | a value that occurs is counted at least once |
| Gpu.GroupSizesSum | gpu.py:289 | groupby().size(): distinct keys, each occurring in the column with size >= 1, every value of the column grouped, sizes summing to the row count |
| Gpu.SeriesTextInjective | gpu.py:364-385 | the nine labels are nine distinct strings |
| Gpu.SeriesRules | gpu.py:364-385 | fewer than two words give 'Other'; a GeForce/Tesla/Quadro/TITAN second word gives itself; 'A' and 'H' give their series; RTX gives 'RTX Professional' iff the name lacks Quadro; otherwise 'Jetson' iff the name mentions Jetson |
| Gpu.SecondWord | gpu.py:365 | split() of "maker second rest" begins with maker and second |
| Gpu.SeriesOfProductLine | gpu.py:366-374 | a card whose second word names one of the four product lines belongs to it |
| Gpu.SeriesOneWord | gpu.py:385 | a one-word name has series 'Other' |
| Gpu.GenerationFirstWins | gpu.py:443-457 | the generation is that of key k iff the name holds key k and none of the keys tested before it |
| Gpu.GenerationOther | gpu.py:456-457 | 'Other' iff the name holds none of the six substrings |
| Gpu.KeysInOrder | gpu.py:444-455 | the keys are tested in the order RTX 5, RTX 4, RTX 3, RTX 2, GTX 16, GTX 10, each naming its generation |
| Gpu.SeriesColumn | gpu.py:361-387 | one series label per NVIDIA card |
| Gpu.GroupsOfDerived | gpu.py:387-394 | the groups of a derived column are values the derivation takes, and their sizes add up to the rows |
| Gpu.SeriesLabelOfCard | gpu.py:364-385 | every card gets one of the nine labels |
| Gpu.SeriesGroups | gpu.py:394 | the series groups are series labels, and their sizes add up to the number of NVIDIA cards |
| Gpu.WithMakers | gpu.py:282 | the 制造商 column is the manufacturer of each row: defined iff every row has one |
| Gpu.IdxMax | gpu.py:341 | idxmax of a manufacturer: none iff it has no row; else its first row with the largest token rate |
| Gpu.Champion | gpu.py:341 | the chosen row is a row of that manufacturer, and none of its rows is faster |
| Gpu.Champions | gpu.py:341 | one champion per group key, in key order |
| Gpu.MakerKeys | gpu.py:341 | the group keys are distinct manufacturers that each have a row, and every row's manufacturer is a key |
| Gpu.TopByManufacturer | gpu.py:341-342 | one row per manufacturer, sorted by non-increasing token rate |
| Gpu.ChampionOfOwnMaker | gpu.py:341 | a champion row is the champion of its own manufacturer |
| Gpu.ShownAreChampions | gpu.py:341-342 | every row shown is its manufacturer's idxmax row |
| Gpu.TopByManufacturerBest | gpu.py:341 | every row shown is a row with no faster row from the same manufacturer |
| Gpu.TopByManufacturerUnique | gpu.py:341 | no manufacturer is shown twice |
| Gpu.TopByManufacturerCovers | gpu.py:341 | every manufacturer with a row is shown |
| Unicorn.Years | company.py:23 | every column label reads as an integer, in order, or the conversion fails |
| Unicorn.DefaultYear | company.py:24 | the preselected year is the second-to-last; with fewer than two years the widget raises |
| Unicorn.YearColumn | company.py:28 | df[str(year)] exists iff the label is present, and gives each country's count in that column |
| Unicorn.DefaultYearColumn | company.py:23-28 | with plain decimal, distinct labels, the default year selects the second-to-last column |
| Unicorn.YearData | company.py:28 | the year's column sorted by non-increasing count, as a permutation |
| Unicorn.YearDataDistinct | company.py:28 | sorting keeps locations distinct |
| Unicorn.TotalIsSum | company.py:31 | the total is the sum of the counts |
| Unicorn.TotalOfYear | company.py:31 | the total metric is the sum over every country of the year |
| Unicorn.TopCountry | company.py:34-35 | the top entry exists iff the year has entries, and is one of them |
| Unicorn.TopCountryIsMaximum | company.py:34-35 | the first entry of the descending year has the maximum count |
| Unicorn.WithUnicorns | company.py:38 | the count is at most the number of countries |
| Unicorn.WithUnicornsPrefix | company.py:38 | in the descending year the countries with a count > 0 form a prefix |
| Unicorn.WithUnicornsOfColumn | company.py:38 | the metric counts exactly the countries with a count strictly above 0 |
| Unicorn.TopTenDominates | company.py:47 | top ten: min(n,10) entries taken from the year, in descending order, none left out above one shown |
| Unicorn.LeftOutBelow | company.py:47 | what is not in the top part lies below every entry in it |
| Unicorn.PieData | company.py:58-60 | the pie is the top five followed by one '其他' slice |
| Unicorn.PieTotal | company.py:58-60 | with distinct locations the pie's slices add up to the year's total |
| Unicorn.OthersIsRest | company.py:59 | the '其他' slice is the total of the sorted year after the top five |
| Unicorn.OutsideTopIsRest | company.py:59 | with distinct locations, the entries outside the top names are exactly the rest |
| Unicorn.SlicesAddUp | company.py:58-60 | the top slices and one slice of the rest's total add up to the whole |
| Navigation.ItemModules | main.py:58-89 | the items' module names, in order |
| Navigation.CategoryNames | main.py:58-89 | the category names, in order |
| Navigation.Pages | main.py:58-89 | the page labels, in order |
| Navigation.MenuShape | main.py:58-89 | home comes first with no module and no items; then categories of 4, 4 and 3 items; no category has a module |
| Navigation.MenuModules | main.py:58-89 | the menu's module names, category by category |
| Navigation.ModuleNamesDistinct | main.py:58-89 | the eleven module names are pairwise distinct |
| Navigation.UniqueModules | main.py:58-89 | no module name appears twice in the menu |
| Navigation.UniqueCategoryNames | main.py:58-89 | no two categories share a name |
| Navigation.UniquePages | main.py:58-89 | within a category no two pages share a label |
| Navigation.DistinctPages | main.py:63-88 | each non-home category's page labels are distinct |
| Navigation.FindCategory | main.py:58-89 | a dictionary lookup by name: the category found has that name; none found means no category has it |
| Navigation.FindPage | main.py:58-89 | a missing page is the KeyError: no item has that label |
| Navigation.FindCategoryAt | main.py:58-89 | with distinct names a category's own name finds it |
| Navigation.FindPageAt | main.py:58-89 | with distinct labels a page's own label finds its module |
| Navigation.Press | main.py:123-124 | a button press only adds or overwrites session fields |
| Navigation.PressItems | main.py:122-124 | the item loop only adds or overwrites session fields |
| Navigation.PressCategories | main.py:119-124 | the category loop only adds or overwrites session fields |
| Navigation.PressItemsReachable | main.py:122-124 | the item buttons keep a reachable state reachable |
| Navigation.PressCategoriesReachable | main.py:119-124 | the whole menu loop keeps a reachable state reachable |
| Navigation.PressCategoriesUnclicked | main.py:119-124 | when no menu button is clicked the loop changes nothing |
| Navigation.PressItemsUnclicked | main.py:122-124 | when none of a category's buttons is clicked, its loop changes nothing |
| Navigation.PressItemsSelects | main.py:122-124 | clicking item j's own button selects exactly that item once the loop has passed it |
| Navigation.PressCategoriesSelects | main.py:119-124 | clicking item j of category i selects exactly that item |
| Navigation.HomeButtonDiffers | main.py:115-123 | the home button's key is the key of no menu button |
| Navigation.ReachableAgreesWithMenu | main.py:113-124 | away from home a reachable state holds three strings with MENU_STRUCTURE[category]["items"][page] == module |
| Navigation.OneExpanderOpen | main.py:113-120 | in every reachable state the stored current category equals the name of exactly one menu entry (home or one of the categories) |
| Navigation.RenderView | main.py:127-186 | home content iff the page is home; a module's output only away from home for a non-empty module whose main returns, and always then; no output only for a falsy module or one without main |
| Navigation.ReachableRenders | main.py:127-184 | from a reachable state: home content iff at home, and only menu modules are ever run |
| Navigation.MenuPagesNotHome | main.py:63-88 | no menu item is labelled like the home page |
| Navigation.MenuModuleNamed | main.py:63-88 | every item's module is a non-empty menu module name |
| Navigation.Session.Init | main.py:92-97 | each of the three fields takes its home value only if it is not already stored |
| Navigation.Session.HandleHome | main.py:102-105 | the three fields become home, home and None; nothing else changes |
| Navigation.Session.HandlePage | main.py:107-110 | the three fields become the arguments; nothing else changes |
| Navigation.Session.Sidebar | main.py:119-124 | the button loop's effect on the state is the menu-loop function |
| Navigation.Session.Render | main.py:165-184 | only is_sub_module may be set; the view is the render dispatch of the state before and after |
| Navigation.Session.Run | main.py:91-184 | one run leaves the state defined by the run function; from a fresh or reachable state it ends reachable, at home after the home click (or no click on a fresh session), and on the one item clicked |
| Navigation.RunFacts | main.py:91-184 | the run function keeps reachability; the home click gives home; the one clicked item is selected; a fresh session without a click is at home |
| Navigation.ClickOutcome | main.py:113-124 | what the loop does after the home click, after one menu button, and with no click |
| Navigation.InitReachable | main.py:92-97 | initialising a fresh session gives the home state; a reachable state is left as it is |
| Navigation.ReachableOtherKey | main.py:170 | storing is_sub_module keeps a state reachable and keeps what it selects |
| Text.Delete | us_investment.py:99 | deletion gives an in-order subsequence of the input holding exactly the characters that are not deleted |
| Text.DeleteCounts | us_investment.py:99 | every kept character occurs as often as in the input |
| Text.DeleteUnchanged | us_investment.py:99 | deletion leaves a string unchanged iff it holds no character to delete |
| Text.StripCommas | us_investment.py:104 | str.replace(',', '') gives an in-order subsequence of the input with no comma and every other character of the input |
| Text.StripCommasSplice | us_investment.py:104 | a comma between two pieces disappears and both pieces are kept |
| Text.StripCommasIdempotent | us_investment.py:104 | removing commas a second time changes nothing |
| Text.DeleteLetters | us_investment.py:99 | the regex [a-zA-Z] replacement drops exactly the ASCII letters |
| Text.DeleteChar | patent_education_analysis.py:23 | str.replace(ch, '') drops exactly that character |
| Text.DeleteLettersOfYear | us_investment.py:99 | deleting the letters of "2023e" leaves "2023" |
| Text.Split | gpu.py:365 | str.split() gives non-empty words without whitespace that, in order, make up the string with whitespace around and between them (one whitespace character or more between two words) |
| Text.SeparatedUnique | gpu.py:365 | at most one list of such words makes up a string with whitespace around and between them |
| Text.SplitExactly | gpu.py:365 | any list of non-empty whitespace-free words that makes up the string that way is its split() |
| Text.SplitTwoTokens | gpu.py:365 | "a b..." splits into a, b and the rest |
| Text.SplitNoSpace | gpu.py:150 | a word without whitespace splits into itself |
| Text.ContainsAt | gpu.py:182 | p in s iff p occurs at some position |
| Text.ParseIntDecimal | 1.py:20 | int(str(n)) == n |
| Text.ParseIntRejects | us_investment.py:99 | int() raises on a character that is not whitespace, an ASCII digit, '_' or a sign (other Unicode decimal digits are left out, see below) |
| Text.JustifyAt | patent_education_analysis.py:156 | the text starts its left-justified field and ends its right-justified one |
| Text.JustifyPadding | patent_education_analysis.py:156 | the padding is spaces only |
| Text.StrLessStrictTotal | gpu.py:150 | sorted() orders strings by a strict total order |
| Text.TrimStart | gpu.py:365 | the leading whitespace is removed: the result is a suffix that starts with a non-space, and only spaces were cut |
| Text.TrimEnd | gpu.py:365 | the trailing whitespace is removed: the result is a prefix that ends with a non-space, and only spaces were cut |
| Text.Word | gpu.py:365 | the leading word is a prefix without whitespace, followed by whitespace or the end |
| Text.SplitFirstToken | gpu.py:150 | a word followed by whitespace (or nothing) is the first element of split() |
| Text.ParseIntNatural | 1.py:20 | int(str(m)) == m for m >= 0 |
| Text.ParseIntNegative | 1.py:20 | int(str(n)) == n for n < 0 |
| Text.NatToDecimalValue | patent_education_analysis.py:43 | str(n) of a natural number is a digit string whose value is n |
| Text.LeftJustify | patent_education_analysis.py:156 | ljust(width) has length max(len, width) |
| Text.RightJustify | patent_education_analysis.py:156 | rjust(width) has length max(len, width) |
| Text.StrLessTotal | gpu.py:150 | of two different strings, one sorts before the other |
| Cells.ParseFloat | us_investment.py:104 | float(): a number or missing ("nan"), or the ValueError |
| Cells.ParseFloatDigits | us_investment.py:104 | float() of a digit string is its exact value |
| Cells.ParseFloatNatDecimal | us_investment.py:104 | float(str(n)) == n for a natural number |
| Cells.ParseFloatMinus | us_investment.py:104 | float() of '-' and digits is the negated value |
| Cells.Group | us_investment.py:104 | a thousands group is three digits whose value is the number, leading zeros included |
| Cells.GroupedDigits | us_investment.py:104 | removing the comma of "n,ddd" leaves a digit string with the value n*1000+ddd |
| Cells.ParseFloatGrouped | us_investment.py:104 | "n,ddd" (such as "1,234" or "1,005") with its separator removed reads as n*1000+ddd |
| Cells.Coerce | analysis.py:23 | to_numeric(errors='coerce'): a number or missing, never an error and never text |
| Cells.CoerceIdempotent | hejin/drone.py:45-53 | a second coercion changes nothing |
| Cells.TruncTowardZero | patent_education_analysis.py:43 | int() of a real drops the fraction toward zero |
| Cells.ParseFloatNegDigits | us_investment.py:104 | float() of '-' followed by a digit string is the negated value |
| Cells.ParseFloatAfterCommas | us_investment.py:104 | removing the comma of "n,m" leaves what float() reads from the two digit strings joined |
| Seqs.Filter | us_investment.py:132 | a boolean mask keeps exactly the rows it accepts, and keeps no more rows than the table has |
| Seqs.FilterIsSubseq | us_investment.py:132 | a mask selection keeps its rows in their original order: it is a subsequence of the table |
| Seqs.FilterFilter | gpu.py:184-195 | two masks in turn are their conjunction |
| Seqs.SortBy | us_investment.py:455 | sorting gives a sorted permutation of its input |
| Seqs.SumByPermutation | company.py:31 | reordering does not change a sum |
| Seqs.Take | gpu.py:225 | head(n) keeps the first min(n, len) rows |
| Seqs.TakeLast | 1.py:123 | tail(n) keeps the last min(n, len) rows |
| Seqs.Largest | company.py:47 | nlargest(n): min(n, len) entries, in descending order, each taken from the input at most as often as it occurs there |
| Seqs.LargestDominates | company.py:47 | no entry left out of nlargest exceeds one kept |
| Seqs.SortedDistinct | us_investment.py:433 | sorted(unique()): strictly increasing, holding exactly the values of the input |
| Seqs.DistinctKeysPermutation | gpu.py:341-342 | reordering rows whose keys are pairwise distinct (one row per manufacturer after idxmax) keeps the keys pairwise distinct |
| Seqs.SumByFilter | company.py:59 | summing over the rows a mask keeps equals summing with the dropped rows counted as 0 |
| Seqs.SortByMap | hejin/drone.py:49-53 | coercing each row after sorting equals sorting the coerced rows, when the sort key is unaffected |
| Seqs.StrictlySortedDistinct | us_investment.py:433 | a strictly sorted sequence has no repeated value |
| Seqs.GroupSizesSum | gpu.py:289 | when the distinct keys cover every row, the group sizes add up to the row count |
| Frames.ColumnIndex | hejin/drone.py:41 | the first column of that name, or none |

## Left out

- File reading, `skiprows`, the UTF-8/GBK fallback, `@st.cache_data`, `st.error`/`print` messages, charts, CSS and markdown: I/O and presentation. A missing file is an input flag (`fileExists`), and the read table is an input `Frame`.
- Widget values (sliders, radio, multiselect, selectbox defaults, the clicked button) are parameters; Streamlit's rerun loop is one call of `Session.Run` per run.
- pandas dtype inference: read cells are text or missing, and a column of integers that pandas would read as numbers is modelled through its text.
- Floating point: numbers are exact `real`s, so rounding, `:.1f` formatting and IEEE infinities are not modelled; an infinity is an explicit `Infinite` value.
- Statistics: `mean`, `pct_change` (the RD_Growth column), `corr`, `spearmanr`, ARIMA fitting and forecast values, the GPU radar normalisation and mean-per-group values are floating-point library calls. Their inputs (the windows, groups and forecast years) are modelled.
- Columns that only feed charts (RD_Growth in us_investment.py and 1.py, the ratio columns, the per-manufacturer means); the repeated conversions of the Chinese-data merges in patent_education_analysis.py beyond the funding table and the report rows.
- Seqs.SortBy: `sort_values` is not stable in pandas; the model uses a stable insertion sort and proves only that the result is sorted and a permutation.
- Gpu.MentionsAny: `m in x` is modelled as literal substring search; `str.contains('NVIDIA')` and `str.contains('GeForce')` are regexes in pandas, but their patterns hold no special characters.
- Gpu: the default manufacturer selection `["NVIDIA"]` is just one input value of the query; the GeForce generation groups reuse the group-size lemmas without a lemma of their own.
- Unicorn: missing counts, duplicate column labels, the trend-line loop, metric text formatting, and which exception Streamlit raises (every failure is None).
- Unicorn.PieTotal: needs distinct locations (an index label given twice would be dropped twice by `isin`); the table's index is assumed to have no duplicates.
- Navigation: `importlib.import_module`, `sys.modules` and `reload` are the outcome parameter; CSS and markdown are not modelled. Streamlit requires unique button keys; the model states this as the `OnlyButton` premise. Output a module prints before it raises is not modelled.
- Navigation.Session.Render: the `is_sub_module` flag is set before the import; its effect on the sub-module's page configuration is not modelled.
- Navigation.OneExpanderOpen: the `expanded=` flags are not modelled. Each flag is read when its expander is created, and in a run where a button is clicked the expanders created before the handler runs still see the old category, so such a run can open no expander; only the stored category is proved to name exactly one menu entry.
- Cells.ParseFloat: the round trip for negative decimal strings is proved for '-' followed by digits only; exponents are parsed but no lemma is stated about them.
- NsfLoader: the conversion is stated for any cell function `conv`; the load methods use `CellToFloat`.
- Text.ParseIntRejects: digits are the ASCII digits '0'-'9' only. Python's int() and float() also accept every other Unicode decimal digit (int('١٢') is 12), so this lemma states a rejection for those characters that Python does not make; Text.ParseInt, Cells.ParseFloat and Cells.Coerce share the same restriction.
- Cells.Coerce: reads text with the grammar of Python's float(), which accepts '_' between digits; pandas' own number parser in to_numeric may coerce a string such as "1_000" to NaN instead.
- DroneData.CastFails: `astype(int)` casts the coerced index to 64-bit integers; the model keeps the unbounded truncation, so a finite year outside the int64 range (such as "1e20") keeps its value where pandas gives a different number, and `sort_index` is stated on the unbounded values.

## Findings

| source | as written | input that shows it | evidently intended | confidence | as-written member | corrected member |
|---|---|---|---|---|---|---|
| us_investment.py:147 | the ten-year growth guard compares latest_year - 10 with min_year of the whole table, then looks that year up in the filtered rows with `.values[0]` | years 2000, 2010, 2020 with the slider at 2015..2020: the guard passes (2010 >= 2000) but 2010 is not selected, so `.values[0]` raises IndexError (line 151 has the same guard) | show the growth only when the selection holds the year ten years before the latest, N/A otherwise | not executed | Investment.GuardIndexError | Investment.SummaryShows |
