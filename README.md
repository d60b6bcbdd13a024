# Infectious-disease claims dashboard: a verified model of its data pipeline

The dashboard reads one year of national health-insurance claims statistics
for infectious diseases. Each record is one (year, disease) row with patient
count, claim count, visit days, insurer-paid amount and total cost. The user
picks the following in a sidebar:

- a year;
- a search keyword and a set of diseases;
- a ranking metric, Top-N and direction;
- a patient-count range and a total-cost range.

Three columns of panels then show:

- a summary of totals and average cost per patient, with a Top-N table;
- a Top-N bar chart and a min-max normalised heatmap;
- a ranking board and a per-disease detail lookup.

This project models the pipeline from the dataset and the selection to the
numbers those panels show, and proves what each step promises.

Modules, in the program's order:

- `Sequences`: the generic building blocks. `Where` is a boolean mask that
  keeps order. Also here: subsequences, minimum and maximum, and sums of
  naturals.
- `Ordering`: strict total orders and `sorted(set(...))`. It also holds
  Python's code-point order on strings (`LexLess`).
- `Text`: Python's `str.strip()` (its exact whitespace set) and the
  substring test `needle in hay`.
- `Claims`: the record, the five metrics, column access, the rows of one
  year, and column bounds.
- `Sidebar`: the selection record. It also derives the option lists (years,
  disease names, search results) and the slider defaults, and builds the
  selection a fresh session starts from.
- `FilterEngine`: the filtered view (year, then disease set, then both
  inclusive ranges). The three panels rebuild this view with three textually
  identical copies of the same statements, so one function `View` models all
  three. They agree by construction.
- `Aggregator`: total patients, total cost, and the guarded average.
- `Ranker`: sorting by a metric in either direction, and taking the first N
  rows.
- `Heatmap`: per-column min-max normalisation of the Top-N rows. It is a
  loop (`NormalizeHeatmap`) proved against a specification function
  (`NormalizedFrame`).
- `Detail`: the distinct names offered for detail, and the first row with
  the picked name.
- `Dashboard`: the three panels as functions of dataset and selection, and
  the end-to-end scenarios.

Two behaviours of the code shape the model:

- **Ties in the ranking.** The code calls pandas `sort_values` with its
  default, non-stable algorithm (streamlit_app.py:121-123, 157, 237), so
  the order among rows with equal metric values is not fixed. `Ranker.Rank`
  leaves it open: its contract holds for every admissible result.
- **Empty view.** When no row passes the filters, the detail selectbox has
  no options and yields `None`, and `iloc[0]` on the empty match raises an
  index error (streamlit_app.py:244-245). The detail panel records both
  this outcome of the code (`shown`, from `Detail.DetailLookupAsWritten`)
  and what a guarded lookup shows (`guarded`, from `Detail.DetailLookup`),
  and proves they agree on every non-empty view (see Findings).

## Model

| member | source | states |
|---|---|---|
| Sequences.MinOf | streamlit_app.py:191 | `col.min()`: an element of the column that no element is below |
| Sequences.MaxOf | streamlit_app.py:191 | `col.max()`: an element of the column that no element is above |
| Sequences.WhereIsSubsequence | streamlit_app.py:101-107 | a boolean mask keeps the surviving rows in their original order |
| Sequences.WhereCounts | streamlit_app.py:101-107 | a mask keeps every copy of a row that passes it and no copy of one that fails it |
| Sequences.WhereFuse | streamlit_app.py:101-107 | masking twice in a row equals masking once with the conjunction |
| Claims.RowsOfYear | streamlit_app.py:57 | `df[df["진료년도"] == year]` holds exactly the dataset's rows of that year, and no more rows than the dataset |
| Claims.ColumnBounds | streamlit_app.py:78 | `(min, max)` of a column over non-empty rows is the tightest interval that holds every value, and both ends are attained |
| Ordering.SortedUnique | streamlit_app.py:48 | `sorted(unique(...))` is strictly increasing and has exactly the input's values |
| Ordering.LexLessIsStrictTotalOrder | streamlit_app.py:58 | Python's string order (code points, a proper prefix first) is a strict total order, so sorting names is well defined |
| Ordering.SubsequenceStrictlySorted | streamlit_app.py:61 | filtering a sorted list leaves it sorted |
| Text.Strip | streamlit_app.py:61 | `kw.strip()` is the slice of `kw` with only whitespace outside it, neither starting nor ending with whitespace |
| Text.StripIdempotent | streamlit_app.py:61 | stripping a stripped keyword changes nothing |
| Text.StripBlank | streamlit_app.py:61 | a keyword of whitespace only strips to the empty string |
| Text.ContainsIffOccurs | streamlit_app.py:61 | `needle in hay` holds exactly when the needle occurs at some offset of the name |
| Sidebar.YearOptions | streamlit_app.py:48 | the year options are strictly increasing, and a year is offered exactly when some record has it |
| Sidebar.DiseaseNames | streamlit_app.py:57-58 | the year's disease names are sorted, duplicate-free, and are exactly the names of that year's records |
| Sidebar.SearchOptions | streamlit_app.py:60-61 | the search keeps, in order, exactly the names that contain the stripped keyword, each as often as it occurs; an empty box returns the list unchanged |
| Sidebar.DiseaseOptions | streamlit_app.py:57-62 | the multiselect's options are sorted and duplicate-free; a name is offered exactly when it is a name of the year that passes the search (contains the stripped keyword, or the box is empty); with an empty box they are all of the year's names |
| Sidebar.BlankKeywordOffersAll | streamlit_app.py:61 | a keyword of spaces is truthy, yet every name passes, because `""` occurs in every name |
| Sidebar.DefaultPatientRange | streamlit_app.py:78-79 | the patient slider defaults to the year's full range: every record of the year is inside, and both ends are some record's count |
| Sidebar.DefaultCostRange | streamlit_app.py:81-83 | the cost slider defaults likewise to the year's full total-cost range |
| Sidebar.DefaultSelection | streamlit_app.py:44-90 | a fresh session selects the smallest year, no disease, an empty search, patients, Top 10, descending, and both full ranges |
| Sidebar.OfferedDiseasesOccur | streamlit_app.py:62 | every disease the multiselect can have chosen names a record of the chosen year |
| FilterEngine.ByDiseases | streamlit_app.py:102-103 | the disease step keeps exactly the rows whose name is chosen, and every row when no disease is chosen |
| FilterEngine.ByRanges | streamlit_app.py:104-107 | the range step keeps exactly the rows whose patient count and total cost both lie in their inclusive ranges |
| FilterEngine.View | streamlit_app.py:101-107 | a row is in the filtered view exactly when it is a dataset row that matches year, disease set (when non-empty) and both ranges; the panels' copies at 144-150 and 222-228 are the same statements |
| FilterEngine.ViewIsSingleMask | streamlit_app.py:101-107 | the three filter steps equal one mask with the conjunction of year, disease set (when non-empty) and both inclusive ranges |
| FilterEngine.ViewSpec | streamlit_app.py:101-107 | the view is an order-preserving subsequence, every kept row matches the selection, and each matching row is kept as often as it occurs |
| FilterEngine.EmptySelectionMeansAll | streamlit_app.py:102-103 | an empty disease selection gives the same view as selecting every disease of the year |
| FilterEngine.DefaultRangesKeepYear | streamlit_app.py:104-107 | with the sliders at their defaults, the range masks drop no row |
| FilterEngine.DefaultRangesViewMembers | streamlit_app.py:101-107 | with default sliders, a row is in the view exactly when it has the year and, if diseases are chosen, one of them |
| FilterEngine.DefaultSelectionShowsYear | streamlit_app.py:101-107 | a fresh session's view is every row of the first year, in dataset order, and is non-empty |
| FilterEngine.DiseaseSelectionNarrows | streamlit_app.py:102-103 | choosing diseases only removes rows from the unrestricted view |
| Aggregator.Total | streamlit_app.py:109-110 | a column total is at least each row's value, and 0 for no rows |
| Aggregator.Summarize | streamlit_app.py:109-111 | the totals are the column sums; the average is the largest integer whose product with the patient total does not exceed the cost total, and 0 when there are no patients |
| Aggregator.EmptySummary | streamlit_app.py:109-111 | an empty view summarises to (0, 0, 0) |
| Aggregator.TotalAppend | streamlit_app.py:109-110 | totals add over concatenated row sets |
| Aggregator.TotalZero | streamlit_app.py:109-111 | the patient total is 0, so the guard fires, exactly when every row has 0 patients |
| Aggregator.TotalOfSubsequence | streamlit_app.py:104-110 | a filtered view never sums to more than the rows it came from |
| Aggregator.TotalPermutation | streamlit_app.py:109-110 | totals do not depend on row order |
| Ranker.Sort | streamlit_app.py:121-122 | the sort yields a permutation of the view ordered by the metric in the chosen direction |
| Ranker.Rank | streamlit_app.py:120-123 | the Top-N has `min(N, rows)` rows, drawn from the view, ordered, and no row left out beats a row kept |
| Ranker.PrefixBeatsRest | streamlit_app.py:121-123 | in a sorted view, each of the first N rows may precede every later row |
| Ranker.RankWholeView | streamlit_app.py:123 | asking for at least as many rows as the view has returns all of them |
| Ranker.TopOneIsMaximum | streamlit_app.py:120-123 | Top 1 in descending order is a view row with the largest metric value |
| Ranker.RankEmpty | streamlit_app.py:120-123 | an empty view ranks to an empty table |
| Heatmap.Scale | streamlit_app.py:192 | a flat column scales to 0, and a value between the column's minimum and maximum scales into [0, 1] |
| Heatmap.ScaleMonotone | streamlit_app.py:192 | scaling keeps the order of values |
| Heatmap.ScaleAtEnds | streamlit_app.py:191-192 | the minimum scales to 0, and the maximum to 1 when the column is not flat |
| Heatmap.NormalizeColumn | streamlit_app.py:191-192 | one column normalised over its own minimum and maximum keeps its length, and every value lies in [0, 1] |
| Heatmap.NormalizeFlat | streamlit_app.py:192 | a column of equal values normalises to 0 everywhere, never to NaN or 1 |
| Heatmap.NormalizeBounds | streamlit_app.py:190-192 | a non-flat column normalises into [0, 1], its minimum rows to 0 and its maximum rows to 1 |
| Heatmap.NormalizeMonotone | streamlit_app.py:190-192 | a smaller value never gets a larger normalised score |
| Heatmap.NormalizedFrame | streamlit_app.py:187-192 | the normalised frame has one column per heat column, each with one value in [0, 1] per Top-N row |
| Heatmap.NormalizeHeatmap | streamlit_app.py:187-192 | the loop over the five heat columns yields each column normalised over the Top-N rows alone, in column order |
| Detail.Distinct | streamlit_app.py:244 | `unique()` has exactly the input's values, each once |
| Detail.DistinctKeepsFirstOccurrenceOrder | streamlit_app.py:244 | `unique()` lists values in the order they first occur |
| Detail.DetailOptions | streamlit_app.py:244 | the names offered for detail are exactly the view's names, each once |
| Detail.DetailRow | streamlit_app.py:245 | the detail row carries the picked name and is the first view row that does |
| Detail.DefaultPickIsFirstRow | streamlit_app.py:244-245 | the selectbox's initial pick is the first row's name, whose detail is the first row |
| Detail.Selectbox | streamlit_app.py:244 | the selectbox yields `None` exactly when it has no options, else one of them |
| Detail.DetailLookupAsWritten | streamlit_app.py:245 | the lookup as written shows a row exactly when the pick is a name of the view, and raises otherwise; the row shown is the first view row with that name |
| Detail.EmptyViewDetailFails | streamlit_app.py:244-245 | on an empty view the selectbox yields `None` and the lookup as written raises |
| Detail.DetailLookup | streamlit_app.py:245 | the guarded lookup shows nothing exactly when nothing is picked, else the first view row with the picked name |
| Detail.DetailLookupTotal | streamlit_app.py:244-245 | fed by its selectbox, the guarded lookup shows nothing exactly on an empty view; the lookup as written raises exactly then, and otherwise they agree |
| Dashboard.RankedRowsMatch | streamlit_app.py:120-123 | every ranked row is a dataset row that matches the selection |
| Dashboard.SummaryPanelOf | streamlit_app.py:98-123 | the summary panel's Top-N table has at most N rows, all dataset rows matching the selection, and its totals never exceed the whole dataset's |
| Dashboard.ChartPanelOf | streamlit_app.py:141-192 | the chart panel's Top-N has at most N matching rows, and its heatmap has one column per heat column with one value in [0, 1] per ranked row |
| Dashboard.DetailPanelOf | streamlit_app.py:218-245 | the ranking board has at most N matching rows and every offered name is a matching row's; the source's lookup raises exactly when the view is empty and otherwise shows a matching row; the guarded lookup shows nothing exactly then and otherwise the same row |
| Dashboard.PanelsAgree | streamlit_app.py:144-157 | the summary table, the bar chart and the ranking board show one Top-N, and the heatmap normalises exactly those rows |
| Dashboard.NoRowInPatientRange | streamlit_app.py:104-111 | a patient range that excludes every row of the year gives totals and average 0, empty rankings and heatmap columns, and no name to pick; the source's detail lookup then raises an index error, and the guarded lookup shows nothing |
| Dashboard.TopOneOfTwoDiseases | streamlit_app.py:102-123 | with two diseases, full ranges, patients, Top 1 and descending order, the one row shown is a record of one of the two diseases with the year's largest patient count among them |

## Left out

- Loading the CSV file (legacy single-byte encoding) and the filtered-data CSV download are file I/O. The model takes the dataset as a sequence of records and stops at the filtered view the download would write.
- Streamlit widgets, page layout, CSS, the Plotly bar chart and the Altair heatmap drawing are rendering. The chart's re-sort for display, the long-form reshaping (`melt`) and the label map are rendering too. The model keeps the data they draw.
- Thousands-separator formatting, HTML tables and metric texts are presentation of already-computed integers.
- The colour-theme maps affect colours only. `Selection.theme` is kept as an opaque string.
- The metric label map sends each label to the column of the same name, so the model uses the metric alone.
- Widget-side constraints are not part of `Selection`: the Top-N slider's 5-30 bounds and the 1000-unit step of the cost slider. `Rank` is proved for every N.
- NaN handling (`dropna`) is left out: records have no missing fields.
- Claims.Record: the five measures are naturals. The source's int64 columns could hold negative values, but a claims table has no negative counts or amounts.
- Aggregator.TotalZero: relies on natural measures (see `Claims.Record`). With negative values, rows of +1 and -1 patients would total 0.
- Aggregator.TotalOfSubsequence: relies on natural measures too, and so does the total bound in `Dashboard.SummaryPanelOf`.
- Aggregator.Total: sums unbounded integers. pandas sums int64 columns and would wrap past 2^63, which is far beyond any national claims total.
- Sidebar.DefaultSelection: requires a non-empty dataset. On an empty file the source's `int(NaN)` at line 78 raises ValueError, and the model does not represent that failure.
- Sidebar.DefaultPatientRange: requires the year to have rows, for the same reason. `Sidebar.DefaultCostRange` requires the same, because of lines 81-82.
- Aggregator.Summarize: models the average as exact floor division on naturals. The source divides in floating point and then truncates, and it may differ for totals beyond 2^53.
- Heatmap.NormalizeHeatmap: normalises over real numbers, not 64-bit floating point, so rounding is not modelled.
- Ranker.Rank: leaves the order among rows with equal metric values open, because pandas' default sort does not fix it. `Ranker.Sort` is one admissible order.
- Detail.DetailRow: requires the pick to be one of the offered names. The source can receive only those names from its selectbox, or `None`; that case is `Detail.DetailLookupAsWritten`.

## Findings

| source | as written | input that shows it | evidently intended | confidence | as-written member | corrected member |
|---|---|---|---|---|---|---|
| streamlit_app.py:244-245 | the detail selectbox gets the view's names; on an empty view it yields `None`, and `iloc[0]` on the empty match raises an index error | a patient or cost range, or a disease choice, that leaves the view empty | the dashboard shows empty panels without a fault; the detail panel shows nothing | not executed | Detail.EmptyViewDetailFails | Detail.DetailLookupTotal |
