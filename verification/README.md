# Olympics medal dashboard: filter-and-aggregate pipeline

A Dafny model of the data logic of a one-page Streamlit dashboard over a
table of Olympic medal counts. The user picks a National Olympic Committee
code (NOC) and a year range in the sidebar. The script keeps the matching rows
of the table. If no row matches, it prints a "no data" message. Otherwise it
draws three charts from two aggregations of the kept rows:

- a per-year table, grouped by `Year` with Gold, Silver and Bronze summed
  (the line and bar charts);
- a three-row medal distribution, Gold, Silver and Bronze each summed over
  all kept rows (the pie chart).

The model is functional: rows are an immutable `MedalRecord` datatype in a
`seq`, and every stage is a pure function.

- `Records` (`records.dfy`): the record, the three medal columns, and the
  column sums (`Total`, `TotalInYear`) used to state every contract.
- `Filtering` (`filtering.dfy`): the sidebar `Criteria`, the row mask
  `Matches`, the masked table `Filter`, and the slider defaults
  `MinYear`/`MaxYear`.
- `Aggregation` (`aggregation.dfy`): `AggregateByYear`, the grouped table. It
  is built as a fold. `AddInto` merges one record into a year-ascending
  accumulator. Its contract reads the table as a map from year to sums
  (`Lookup`). `CategoryTotals` is the medal distribution.
- `Dashboard` (`dashboard.dfy`): `Render`, one run of the script for one
  selection, returning either `NoData` or the chart tables.

Two behaviours of the code are kept that a reader might not expect:

- Filtering keeps the table's row order. The boolean-mask indexing of lines
  31-33 keeps the original order, so it is proved (`FilterKeepsOrder`) and not
  treated as irrelevant.
- The code never checks that the code is in the table or that the range is
  not inverted, so `Filter` has no precondition. An inverted range yields no
  rows (`FilterInvertedRange`). A code absent from the table yields the "no
  data" branch.

## Model

| member | source | states |
|---|---|---|
| Filtering.Filter | olympics_dashboard.py:31-33 | a row is in the result exactly when its NOC equals the selected code and its year lies in the inclusive range; the result is never longer than the table |
| Filtering.FilterCounts | olympics_dashboard.py:31-33 | each matching row occurs in the result as often as in the table, and no other row occurs at all |
| Filtering.FilterKeepsOrder | olympics_dashboard.py:31-33 | the result is a subsequence of the table: the mask deletes rows but keeps their order |
| Filtering.FilterIdempotent | olympics_dashboard.py:31-33 | applying the same selection to an already filtered table changes nothing |
| Filtering.FilterSingleYear | olympics_dashboard.py:26-33 | when both slider ends are equal, every kept row has the selected code and that single year |
| Filtering.FilterInvertedRange | olympics_dashboard.py:31-33 | a range whose lower end exceeds its upper end keeps no rows |
| Filtering.MinYear | olympics_dashboard.py:27-28 | the slider's lower bound is a year of the table and no row is earlier |
| Filtering.MaxYear | olympics_dashboard.py:27-28 | the slider's upper bound is a year of the table and no row is later |
| Filtering.FilterDefaultRange | olympics_dashboard.py:23-33 | with the slider at its default [min year, max year], every row of the chosen code is kept, as often as it occurs; a code from the table selects at least one row |
| Aggregation.AddInto | olympics_dashboard.py:56 | merging a record into a year-ascending grouped table keeps it ascending; adds the record's year to the table's years; adds the record's counts to its year and to no other year; raises each column total by the record's count |
| Aggregation.AggregateByYear | olympics_dashboard.py:56 | the grouped table (also the one line 40 builds) has strictly ascending years; its years are exactly the input's years; each year's medal sums equal the column sums over the input rows of that year; each column total equals the input's column total |
| Aggregation.YearRowsAreSums | olympics_dashboard.py:56 | each row of the grouped table holds, for every medal, the sum over all input rows of that row's year, so duplicate (NOC, Year) rows are added together |
| Aggregation.OneRowPerYear | olympics_dashboard.py:56 | the grouped table has as many rows as the input has distinct years |
| Aggregation.GroupByIsUnique | olympics_dashboard.py:56 | any table with strictly ascending years, the input's years and the per-year sums is exactly the grouped table, which is therefore the group-by-year reference |
| Aggregation.AggregateIgnoresOrder | olympics_dashboard.py:56 | two inputs with the same rows in any order give the same grouped table |
| Aggregation.CategoryTotals | olympics_dashboard.py:72-73 | the distribution has exactly three entries, Gold, Silver and Bronze in that order, each the column sum over the input rows |
| Aggregation.DistributionMatchesYearly | olympics_dashboard.py:72-73 | each distribution entry equals the matching column of the grouped table summed over the years; the distribution's grand total equals the sum of the grouped table's three columns |
| Dashboard.Render | olympics_dashboard.py:38-86 | the "no data" branch is taken exactly when no table row matches the selection; when charts are drawn, the per-year table is non-empty and ascending, its years lie inside the selected range and are exactly the years of the filtered rows, each year holds the sums over the filtered rows of that year, its column totals equal the filtered rows' totals, and the distribution is Gold, Silver, Bronze, each the column sum over the filtered rows |
| Dashboard.ChartsAgree | olympics_dashboard.py:38-73 | when charts are drawn, each year row holds that year's sums over the filtered rows, and each pie entry (Gold, Silver, Bronze) equals the matching per-year column summed over the years; the grand totals coincide |
| Dashboard.DefaultSelectionDrawsCharts | olympics_dashboard.py:23-38 | with the slider at its default and a code offered by the select box, the charts are drawn and not the fallback message |
| Dashboard.ScenarioFilter | olympics_dashboard.py:31-33 | on a four-row table (three USA rows, one FRA row), selecting USA over 2000-2004 keeps the three USA rows in table order |
| Dashboard.ScenarioYearly | olympics_dashboard.py:56 | the two USA rows of 2000 are summed into one row (12, 5, 4), followed by the 2004 row (8, 6, 4) |
| Dashboard.ScenarioCategories | olympics_dashboard.py:72-73 | the worked selection's distribution is Gold 20, Silver 11, Bronze 8 |
| Dashboard.UsaScenario | olympics_dashboard.py:31-73 | the whole pipeline on the worked selection yields exactly those two year rows and that distribution |

## Left out

- Streamlit widgets, page title, subheaders, footer and the `st.cache_data`
  memoisation (lines 6, 9-14, 20-28, 36, 89). These are user-interface and
  caching plumbing. The sidebar's output is the `Criteria` parameter.
- CSV loading and the `astype(int)` coercion (lines 12, 17). Rows arrive
  already typed, with integer years and non-negative integer counts.
- All plotly figure construction and layout (lines 42-53, 57-69, 75-83). The
  `Charts` view carries the tables the figures are drawn from.
- Aggregation.AggregateByYear: line 40's `groupby('Year').sum()` sums every
  column, including the `NOC` strings and any other numeric column. Both the
  line chart (line 40) and the bar chart (line 56) are modelled by this one
  function over the three medal columns. So their Gold, Silver and Bronze
  columns agree by construction, not by a separate lemma. What pandas does
  with the other columns is library behaviour the charts never plot.
- The sorting of the select box's options (line 23) is not modelled. Only its
  consequence is used: the chosen code occurs in the table
  (`DefaultSelectionDrawsCharts`).
- Column names are not modelled. The `Medal`/`Count` renaming of line 73 and
  the `reset_index` calls become the `Medal` datatype and the `CategoryTotal`
  and `YearTotals` records.
- Pandas stores the counts as 64-bit integers, which can wrap around. The
  model's sums are unbounded, so it does not show that overflow.
- Filtering.MinYear: on an empty table the script raises at line 27
  (`int(data['Year'].min())` is `int(nan)`, a `ValueError`) before the filter
  runs. That error is not modelled: the model requires a non-empty table
  here and in `DefaultCriteria`, while `Render` on an empty table returns
  `NoData`.
- Filtering.MaxYear: the same `ValueError` at line 27 on an empty table; the
  model requires a non-empty table.
