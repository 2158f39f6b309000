# Health surveillance dashboard: filter-and-aggregate pipeline

This project models the data pipeline behind the Visualizations tab of the
digital public-health surveillance dashboard (`Healthdashboard.py`). The
input is a spreadsheet of scoping-review studies. The page keeps sixteen
named columns and turns the publication year into text. It offers five
sidebar multiselects, each listing the sorted distinct values of one column,
and narrows the table one selection at a time. It then shows four metric
cards and derives the tables behind each chart:

- studies per platform and per country;
- the top ten data sources plus an `Others` slice;
- studies per (country, health event), per (year, first analysis method) and
  per (evaluation, objective);
- the proportion of each surveillance objective within each health event,
  with the health events ranked by their `Infodemiology` proportion.

The project has eight modules:

- `Results` holds the `Option` and `Result` types.
- `Lex` is Python's ordering of strings by code point, on single strings and
  on pairs.
- `Records` holds the study record, the sixteen columns and the column
  selection with its missing-column error.
- `Counting` covers counting values, `value_counts` ordering and entry sums.
- `Filters` covers the option lists and the filter chain. The filter chain is
  a method that reassigns the filtered table one `if` at a time, proved equal
  to a single restriction by all active constraints.
- `Aggregates` covers the metric cards, `value_counts`, top-ten-plus-`Others`
  and `groupby(...).size()`.
- `Proportions` covers the objective shares per health event and the
  `Infodemiology` ranking.
- `Dashboard` assembles the whole page.

A cell is `Option<string>`, with `None` for a missing value (pandas `NaN`).
After `astype(str)` a missing year is the text `"nan"`. It is therefore never
missing, and it appears in the year menu as `"nan"`. Proportions are exact
rationals (`real`).

The `Others` slice is appended even when its count is 0
(Healthdashboard.py:193-194); see `Aggregates.OthersEmptyExactlyWhenFew`.

## Model

| member | source | states |
|---|---|---|
| Records.SelectColumns | Healthdashboard.py:62-78 | Fails exactly when the sheet lacks one of the sixteen selected columns, naming exactly the missing labels (never an empty list); otherwise every row becomes a record whose cells are those of the named columns, the year turned into text with a missing year as `"nan"` |
| Records.AbsentSelected | Healthdashboard.py:62-75 | The list of missing column labels is empty exactly when every selected column is in the header, and holds exactly the selected labels the header lacks |
| Records.ToRecordGet | Healthdashboard.py:75-78 | Each field of a projected record is the cell of its column, the year being its text rendering |
| Filters.Options | Healthdashboard.py:81-85 | Each menu is strictly ascending in string order (so free of duplicates) and holds exactly the non-missing values that occur in its column |
| Filters.AscendingDeterminedByElements | Healthdashboard.py:81-85 | Two strictly ascending lists with the same elements are equal, so a menu is fully determined by the set of values in its column |
| Filters.YearOptionsCoverEveryRow | Healthdashboard.py:78-81 | Because the year is text after coercion, every study's year appears in the year menu |
| Filters.ApplyFilters | Healthdashboard.py:88-98 | The if-chain, which narrows the table only for non-empty selections in the order year, country, health event, platform, first analysis method, yields exactly the table restricted by all active constraints at once |
| Filters.Restrict | Healthdashboard.py:88-98 | Boolean-mask filtering keeps an order-preserving subsequence of the table |
| Filters.RestrictMembers | Healthdashboard.py:88-98 | A record is kept exactly when it is in the table and meets every constraint |
| Filters.RestrictMultiplicity | Healthdashboard.py:88-98 | Each row is kept exactly as many times as it occurs in the table when it meets every constraint, and not at all otherwise |
| Filters.RestrictLength | Healthdashboard.py:88-98 | The filtered table has exactly one row per position of the table whose row meets every constraint |
| Filters.RestrictTwice | Healthdashboard.py:88-98 | Filtering by one list of constraints and then by another equals filtering once by both |
| Filters.RestrictOrderIrrelevant | Healthdashboard.py:88-98 | The result depends only on which constraints are applied, not on their order |
| Filters.ActiveMeansMatches | Healthdashboard.py:89-98 | A record meets the active constraints exactly when, for each non-empty selection, its value in that column is present and among the chosen values |
| Filters.FilterNoSelection | Healthdashboard.py:88-98 | With all five selections empty the filtered table is the selected table, row for row |
| Filters.FilterMeetsSelection | Healthdashboard.py:88-98 | A record is in the filtered table exactly when it is in the selected table and meets every non-empty selection |
| Filters.FilterKeepsEveryCopy | Healthdashboard.py:88-98 | Every copy of a row matching the selection is kept, and no copy of any other row |
| Filters.FilteredCount | Healthdashboard.py:88-106 | The "Total Studies Matching Filters" count, the length of the filtered table, is the number of rows of the selected table that match the selection |
| Filters.FilterOrderIrrelevant | Healthdashboard.py:88-98 | Applying the five filters in any other order gives the same table |
| Counting.CountsDescending | Healthdashboard.py:124-128 | From the values of a column and its distinct present values: one entry per distinct present value, each count the positive number of occurrences, counts non-increasing, counts summing to the number of present values |
| Counting.SortByCountDesc | Healthdashboard.py:124 | Sorting entries by count, largest first, is a permutation with non-increasing counts |
| Counting.SortByCountDescSum | Healthdashboard.py:124 | Sorting by count keeps the total of the counts |
| Counting.SortByCountDescUnique | Healthdashboard.py:124 | Sorting by count keeps keys distinct |
| Counting.EntriesOfAllKeys | Healthdashboard.py:124 | Counting each distinct present value gives one positive entry per value, totalling the number of present values |
| Counting.SumEntries | Healthdashboard.py:107 | The counts of a set of distinct keys add up to the number of values among those keys |
| Aggregates.ValueCounts | Healthdashboard.py:124-128 | `value_counts()` of a column: one entry per distinct non-missing value, each count the positive number of studies with it, counts non-increasing down the table, summing to the number of studies where the column is present |
| Aggregates.Summarize | Healthdashboard.py:104-111 | Total studies is the row count; total surveillance counts the studies naming a health event and is at most total studies; the most-used platform is absent exactly when no study names a platform, otherwise its count is the number of studies using it, positive and at least every platform's count (corrected; see ## Findings) |
| Aggregates.PlatformCountsEmpty | Healthdashboard.py:110 | The platform counts are empty exactly when no filtered study names a platform |
| Aggregates.FirstCountIsLargest | Healthdashboard.py:110-111 | The first entry of `value_counts()` holds the maximum count, so `idxmax` and `max` refer to the same entry |
| Aggregates.SummarizeAsWritten | Healthdashboard.py:104-123 | As written, the metric cards raise exactly when no filtered study names a platform, which includes the empty table; otherwise they agree with `Summarize` |
| Aggregates.EmptyTableFailsAsWritten | Healthdashboard.py:110-123 | On the empty filtered table the metrics raise before the emptiness check is reached |
| Aggregates.NoDataBranchUnreachableAsWritten | Healthdashboard.py:110-123 | Whenever the metrics succeed as written, the filtered table is non-empty, so the no-data warning branch is never reached |
| Aggregates.TopWithOthers | Healthdashboard.py:191-194 | Keeps the first min(n, k) counts unchanged, then appends exactly one `Others` entry; the total of the counts is kept, so `Others` holds the sum of the rest |
| Aggregates.OthersEmptyExactlyWhenFew | Healthdashboard.py:193-194 | The `Others` entry is always there and is zero exactly when there are at most n distinct sources |
| Aggregates.SourceShares | Healthdashboard.py:191-194 | The data-source pie ends with `Others`, its counts total the number of studies naming a data source, and `Others` is zero exactly when at most ten distinct sources occur |
| Aggregates.GroupCounts | Healthdashboard.py:171 | `groupby([a, b]).size()`: keys in ascending pair order, one entry for exactly each (a, b) pair some study holds with both present, each count the positive number of such studies, counts totalling the studies with both columns present |
| Aggregates.Treemap | Healthdashboard.py:171 | The treemap table groups by (country, health event), in that key order: it has an entry for exactly each such pair some study holds with both present |
| Aggregates.Trend | Healthdashboard.py:217 | The line chart table groups by (year text, first analysis method): it has an entry for exactly each such pair some study holds with a method present |
| Aggregates.Sunburst | Healthdashboard.py:295 | The sunburst table groups by (evaluation, objective), in that key order: it has an entry for exactly each such pair some study holds with both present |
| Aggregates.SortedUniquePairs | Healthdashboard.py:171 | The group keys are strictly ascending and are exactly the observed pairs |
| Aggregates.TrendCountsEveryMethod | Healthdashboard.py:217 | Because years are never missing after coercion, the trend table counts every filtered study that names a first analysis method |
| Proportions.WithShares | Healthdashboard.py:253-256 | Each (health event, objective) count gains its event's total, positive, and its proportion, count divided by total |
| Proportions.EventTotalAtLeast | Healthdashboard.py:253 | An event's total is at least each of its own counts |
| Proportions.SharesSumToOne | Healthdashboard.py:253-256 | The proportions within each health event add up to exactly 1 |
| Proportions.EventTotalCountsStudies | Healthdashboard.py:250-253 | A health event's total is the number of filtered studies on that event that name an objective |
| Proportions.InfodemiologyShares | Healthdashboard.py:259-260 | Selecting the `Infodemiology` rows gives exactly the (event, proportion) pairs of those rows |
| Proportions.InfodemiologyEventsDistinct | Healthdashboard.py:259-260 | Each health event has at most one `Infodemiology` row, so the per-event sum leaves each proportion as it is |
| Proportions.SortSharesDesc | Healthdashboard.py:263 | Sorting by proportion, largest first, is a permutation with non-increasing proportions |
| Proportions.SortSharesDistinct | Healthdashboard.py:263 | Sorting keeps the health events distinct |
| Proportions.RankingOfRows | Healthdashboard.py:259-266 | Filtering to `Infodemiology` and sorting yields exactly those rows' (event, proportion) pairs, one per event, largest proportion first, with the custom order as the event column |
| Proportions.ObjectiveShares | Healthdashboard.py:250-266 | The share rows are the pair counts with each event's positive total and proportion count/total; each event's proportions sum to 1; the ranking lists exactly the `Infodemiology` rows by non-increasing proportion, one per event; the custom order is the ranking's event column |
| Dashboard.Render | Healthdashboard.py:62-321 | The page fails exactly when a selected column is missing; otherwise it offers the column menus, filters, shows the metric cards (corrected) and, exactly when some study matches, the chart tables; the sunburst is replaced by its warning exactly when its table is empty |
| Dashboard.SunburstEmptyExactly | Healthdashboard.py:295-297 | The sunburst warning shows exactly when no filtered study names both an evaluation and an objective |

## Left out

- Streamlit page layout is not modelled because it has no behaviour to state: tabs, columns, metric widgets, expanders, download buttons, the filtered-data table at Healthdashboard.py:323-328 and the static text.
- Reading the spreadsheet (`pd.read_excel`, the uploader and the default file) is file I/O. `Dashboard.Render` starts from an in-memory `Sheet`.
- Plotly figure construction and styling are rendering calls into a library. The model stops at the tables handed to them.
- CSV serialisation through `to_csv().encode()` is a library call whose formatting lies outside the repository.
- Proportions.WithShares: uses exact rational division instead of IEEE floating point. Float rounding can make the float sums differ slightly from 1.
- Aggregates.ValueCounts: the order among equal counts is internal to pandas. The model breaks ties label-ascending, but the contract claims only non-increasing counts.
- Proportions.SortSharesDesc: likewise, the order among equal proportions is unspecified, so only non-increasing proportions are claimed.
- Proportions.ObjectiveShares: the `total` and `proportion` columns added to `df_counts` in place are modelled as building the widened rows in one step.
- The reassignment of the unused `df` year column at Healthdashboard.py:215 does not affect any output.
- The expander at Healthdashboard.py:288 writes a column name instead of the data, which does not affect any output.
- Every cell is modelled as text or missing. The text pandas gives a non-text cell under `astype(str)` (a float year such as `2019.0`, say) is not modelled. A year is its cell's text.
- The five multiselect choices are a parameter of `Dashboard.Render`. They are not restricted to the offered menu values, and the filter code does not need them to be.

## Findings

| source | as written | input that shows it | evidently intended | confidence | as-written member | corrected member |
|---|---|---|---|---|---|---|
| Healthdashboard.py:110 | `value_counts().idxmax()` on the platform column runs before the `if not filtered_df.empty` guard at Healthdashboard.py:123, so it raises on an empty series | any selection that matches no study (filtered table `[]`), or matching studies that all lack a platform | show the metric cards without a most-used platform and reach the "No data available" warning at Healthdashboard.py:320-321 | high; not executed | Aggregates.SummarizeAsWritten | Aggregates.Summarize |
