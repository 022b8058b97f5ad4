# Singapore residents dashboard: derived tables

This project models the table derivations of the Singapore residents
dashboard (`QnA1.py`). The dashboard loads a long-format table with the
columns Year, Residents (a category label such as "Total Male Chinese") and
Count, then shows three derived views:

- **Population trends.** The "Total Residents", "Total Male Residents" and
  "Total Female Residents" series, plus a male/female comparison that
  inner-joins the male and female series on Year.
- **Gender ratios.** For each ethnic group, `calculate_ratio` keeps the years
  2000, 2003, 2006, 2009 and 2012, inner-joins the female series with the male
  series on Year, and adds `Ratio = Count_Female / Count_Male`.
- **Growth rate.** The total series `t1` is copied to `t2`. The copy's years
  are moved one year later in place, and its Count column is renamed
  Previous_Count. `t1` is inner-joined with `t2` on Year, and
  `Growth_Rate (%) = (Count - Previous_Count) / Previous_Count * 100` is added.
  The average, highest and lowest growth rates are shown above the table.

The model is in three modules:

- `Frame` (`frame.dfy`) holds the relational operations on the table.
  - Category selection.
  - Restriction to a list of years.
  - The one-year shift.
  - The inner join on Year. It is defined by recursion over the left rows
    and, for each left row, over the right rows, so the output follows the
    left rows' order. When a `(Year, Residents)` pair is repeated, it reproduces the library's
    fan-out (one output row per pair of matching rows).
- `Aggregate` (`aggregate.dfy`) holds the derived numeric cells and the
  mean / highest / lowest summary. Arithmetic uses `real`, which is exact. A
  division by a zero count gives the explicit marker `NonFinite` where the
  dataframe library would give inf or NaN.
- `Residents` (`residents.dfy`) holds the dashboard's own derivations:
  - the comparison;
  - `calculate_ratio`;
  - the growth table;
  - the summary.

  The copy-and-shift of the growth view is modelled imperatively. `ShiftedCopy`
  allocates a fresh array and updates it in place. The array it is given is
  outside its frame, so it cannot change. `GrowthAnalysis` is the whole growth
  view as a method that is proved equal to the functional specification
  `Growth`.

`Scenarios` (`scenarios.dfy`) works two small tables through the derivations.

Three facts about the code that the model keeps as they are:

- `calculate_ratio` keeps only the years 2000, 2003, 2006, 2009 and 2012. Male
  and female Chinese counts for 2000 and 2001 therefore yield only the 2000
  row (`Scenarios.ChineseRatio`).
- The highest and lowest growth rates are reported as values only, without
  the year that reached them.
- The ratio is always female over male, as `calculate_ratio` computes it.

## Model

| member | source | states |
|---|---|---|
| `Frame.Select` | QnA1.py:71-73 | A `(Year, Count)` pair is selected exactly when some row with that exact label carries it. The result is empty exactly when no row has the label. It is never longer than the table. |
| `Frame.SelectConcat` | QnA1.py:71-73 | Selection keeps table order. Selecting from two stacked tables gives the two selections stacked. |
| `Frame.SelectSingle` | QnA1.py:71 | A one-row table yields that row's Year and Count exactly when its label matches, and nothing otherwise. With SelectConcat, this fixes the selection row by row. |
| `Frame.SelectHas` | QnA1.py:151 | A particular Year/Count pair is in a selection exactly when a row with that label, year and count exists. |
| `Frame.SelectCount` | QnA1.py:71-73 | Selection keeps duplicates. A `(Year, Count)` pair occurs in the selection as many times as the table holds the row `(Year, label, Count)`. |
| `Frame.RestrictYears` | QnA1.py:101-102 | `isin(years_selected)`: a row is kept exactly when it is in the series and its year is listed. |
| `Frame.RestrictConcat` | QnA1.py:101-102 | The year filter keeps order. Restricting two stacked series gives the two restrictions stacked. |
| `Frame.RestrictSingle` | QnA1.py:101-102 | A one-row series keeps its row exactly when the row's year is listed. With RestrictConcat, this fixes the restriction row by row. |
| `Frame.RestrictCount` | QnA1.py:101-102 | The year filter keeps duplicates. A row of a listed year occurs as often as in the input, and a row of any other year never occurs. |
| `Frame.Shifted` | QnA1.py:152-153 | The copy with every year moved one later: same length, and each row moved back one year is the original row at that position. |
| `Frame.ShiftedHas` | QnA1.py:152-154 | The shifted copy has a row at year Y exactly when the original has a row with the same count at Y - 1. |
| `Frame.ShiftedCount` | QnA1.py:152-154 | The shifted copy has the row `(Y, c)` exactly as many times as the original has `(Y - 1, c)`. |
| `Frame.Matches` | QnA1.py:87-91 | The rows one left row adds to the join are exactly the pairs with right rows of the same year. |
| `Frame.MatchesConcat` | QnA1.py:87-91 | One left row's matches follow the right rows' order. Matching against two stacked right frames gives the two match lists stacked. |
| `Frame.MatchesCount` | QnA1.py:87-91 | One left row `(Y, a)` yields the joined row `(Y, a, b)` once for each right row `(Y, b)`, and any other left row never yields it. |
| `Frame.Join` | QnA1.py:87-91 | Inner merge on Year: a joined row `(Y, a, b)` is present exactly when the left side has `(Y, a)` and the right side has `(Y, b)`. Years found on one side only are dropped. |
| `Frame.JoinCount` | QnA1.py:87-91 | The merge's fan-out: `(Y, a, b)` occurs exactly (left rows `(Y, a)`) × (right rows `(Y, b)`) times, so every matching pair produces one output row. |
| `Frame.JoinConcat` | QnA1.py:87-91 | The merge keeps the left rows' order. Joining two stacked left frames gives the two joins stacked. |
| `Frame.JoinSingle` | QnA1.py:87-91 | A one-row left frame yields exactly its matches, in right-row order. With JoinConcat, this fixes the merge's row order. |
| `Frame.JoinYears` | QnA1.py:87-91 | The join's years are exactly the intersection of the two sides' years. |
| `Frame.JoinDisjoint` | QnA1.py:103-108 | Two series with no common year, or with one side empty, join to the empty table. |
| `Frame.MatchesAtMostOne` | QnA1.py:87-91 | If the right series has no repeated year, a left row matches at most once. |
| `Frame.MatchesNone` | QnA1.py:87-91 | A left row whose year is absent on the right contributes no row. |
| `Frame.JoinOneRowPerYear` | QnA1.py:87-91 | If neither side repeats a year, the join repeats no year and has exactly one row per shared year. |
| `Frame.JoinUnique` | QnA1.py:87-91 | If neither side repeats a year, no year is repeated in the join. |
| `Frame.UniqueJoinedConcat` | QnA1.py:87-91 | Stacking two joined tables that repeat no year internally and share no year gives a table with no repeated year. |
| `Frame.UniqueJoinedCard` | QnA1.py:87-91 | A joined table with no repeated year has as many distinct years as rows. |
| `Aggregate.Highest` | QnA1.py:164 | `max()` returns a cell of the column that is at least every cell. |
| `Aggregate.Lowest` | QnA1.py:165 | `min()` returns a cell of the column that is at most every cell. |
| `Aggregate.Mean` | QnA1.py:163 | `mean()`: the average times the number of entries equals the sum. |
| `Aggregate.SumBetween` | QnA1.py:163 | A column's sum lies between its length times a lower bound of its cells and its length times an upper bound. |
| `Aggregate.MeanBetween` | QnA1.py:163-165 | Over a non-empty column, lowest <= average <= highest. |
| `Aggregate.Values` | QnA1.py:163-165 | Reads the exact values of a column with no marker, cell for cell. |
| `Aggregate.Summarize` | QnA1.py:163-165 | A summary exists exactly when the column is non-empty and holds no marker. The mean is the sum of the cells divided by their number. Highest and lowest are cells of the column that bound every cell, and the mean lies between them. |
| `Residents.Ratio` | QnA1.py:109 | `Count_Female / Count_Male`. It is finite exactly when the male count is positive, and then ratio × male = female. It is below 1 exactly when there are fewer females than males. |
| `Residents.GrowthRate` | QnA1.py:157-160 | Finite exactly when the previous count is positive, and then rate × previous = (count − previous) × 100. It is positive exactly when the count grew and zero exactly when it stayed the same. |
| `Residents.Comparison` | QnA1.py:87-91 | One row for each pair of a male row and a female row of the same year. `Male` (left) is that male row's count and `Female` (right) is that female row's count. |
| `Residents.ComparisonCount` | QnA1.py:87-91 | The comparison row `(Y, male, female)` occurs (male rows `(Y, male)`) × (female rows `(Y, female)`) times. With one row per year and label, that is one row per shared year. |
| `Residents.ComparisonYears` | QnA1.py:87-91 | The comparison's years are exactly the years that both the male and the female series have. |
| `Residents.WithRatio` | QnA1.py:109 | Adds the Ratio column: one row per merged row at the same position, whose year and counts are that row's, with ratio Count_Female / Count_Male. |
| `Residents.WithRatioRows` | QnA1.py:109 | A ratio row is present exactly when its Year, Count_Female and Count_Male form a merged row and its Ratio is computed from those counts. |
| `Residents.WithRatioCount` | QnA1.py:109 | Adding the Ratio column keeps one output row per merged row, with the ratio computed from that row's counts. |
| `Residents.CalculateRatio` | QnA1.py:100-110 | A row is output exactly when all of the following hold: its year is in `years_selected`; a female-category row and a male-category row exist with that year and those counts; its ratio is female / male. If either category is absent, the result is empty. |
| `Residents.CalculateRatioCount` | QnA1.py:100-110 | A row of a selected year with the computed ratio occurs (female rows of its year and count) × (male rows of its year and count) times. Any other row never occurs. |
| `Residents.WithGrowthRate` | QnA1.py:157-160 | Adds the growth column: one row per merged row at the same position, whose year, count and previous count are that row's, with the growth rate of those counts. |
| `Residents.WithGrowthRateRows` | QnA1.py:157-160 | A growth row is present exactly when its Year, Count and Previous_Count form a merged row and its rate is computed from those counts. |
| `Residents.WithGrowthRateCount` | QnA1.py:157-160 | Adding the growth column keeps one output row per merged row, with the rate computed from that row's counts. |
| `Residents.Growth` | QnA1.py:151-160 | A row at year Y with counts (c, p) is present exactly when the series has (Y, c) and (Y − 1, p), and its rate is GrowthRate(c, p). |
| `Residents.ShiftJoinCount` | QnA1.py:156 | Merging a series with its shifted copy pairs every row at Y with every row at Y − 1: `(Y, c, p)` occurs (rows `(Y, c)`) × (rows `(Y − 1, p)`) times. |
| `Residents.GrowthCount` | QnA1.py:151-160 | A growth row with the computed rate occurs (series rows `(Y, count)`) × (series rows `(Y − 1, previous)`) times. Any other row never occurs. |
| `Residents.EarliestYearDropped` | QnA1.py:156 | Every growth row is later than the series' earliest year, so the earliest year never appears. |
| `Residents.SingleYearNoGrowth` | QnA1.py:156 | A series that covers a single year has an empty growth table. |
| `Residents.GrowthOneRowPerYear` | QnA1.py:156 | If the series repeats no year, the growth table has exactly one row for each year whose predecessor year is also in the series. |
| `Residents.SharedShiftedYears` | QnA1.py:152-156 | The years a series shares with its shifted copy are exactly the years whose predecessor is in the series. |
| `Residents.ShiftedCopy` | QnA1.py:151-154 | The total series is copied and the copy's years are moved one year later in place. The result is a fresh array equal to the shifted series, and `t1` is left unchanged. |
| `Residents.GrowthAnalysis` | QnA1.py:151-160 | The growth view as a procedure. Its rows are exactly the pairs of "Total Residents" rows at Y and Y − 1, with the rate computed from their counts. It equals `Growth` of the selected series. |
| `Residents.Rates` | QnA1.py:163-165 | The `Growth_Rate (%)` column: cell i is the rate of growth row i, so each rate occurs as often as the table has rows with it, and a value is in the column exactly when some growth row has that rate. |
| `Residents.GrowthSummary` | QnA1.py:163-165 | Average, highest and lowest growth are defined exactly when the table is non-empty and has no marker. The average is the mean of the Growth_Rate column. Highest and lowest are rates of actual rows and bound every row's rate. Lowest <= average <= highest. |
| `Scenarios.TwoYearGrowth` | QnA1.py:151-160 | Totals of 100 in 2000 and 110 in 2001 give exactly one growth row: 2001, 110, previous 100, rate 10. |
| `Scenarios.ChineseSelections` | QnA1.py:101-102 | In the four-row Chinese table, each category selects its two rows in table order. |
| `Scenarios.ChineseSelectedYears` | QnA1.py:98-102 | Of 2000 and 2001, only 2000 is among the selected years. |
| `Scenarios.ChineseJoin` | QnA1.py:103-108 | The two restricted series join to the single row for 2000. |
| `Scenarios.ChineseRatioColumn` | QnA1.py:109 | 90 females to 100 males gives a ratio of 0.9. |
| `Scenarios.ChineseRatio` | QnA1.py:98-110 | Male and female Chinese counts for 2000 and 2001 give the single ratio row (2000, 90, 100, 0.9). |

## Left out

- The Streamlit user interface is not modelled. This covers page setup, styling, the title, the sidebar, columns, tabs, metrics, tables, information text and the footer. It is presentation only.
- Reading the uploaded CSV file is input/output. The model starts from the parsed table, a sequence of `Record`s.
- The Overview's preview (`head(20)`), its `describe()` summary and its three counters are not modelled. They are library summaries and display values.
- The four ethnic-group tabs are not modelled. They call `calculate_ratio` with fixed pairs of labels, which is presentation; `CalculateRatio` covers any pair of labels.
- Rounding is not modelled: `.round(3)` on the ratio, `.round(2)` on the growth rate, and the `:.2f` formatting of the summary. All values are exact reals.
- Aggregate.Summarize: does not reproduce the library's handling of inf and NaN cells, which skips NaN and lets +inf win `max` and `mean` (counts are never negative, so -inf cannot arise). Any `NonFinite` cell makes the whole summary undefined, and so does an empty column (where the library gives NaN).
- Residents.GrowthSummary: the source summarises the rounded growth column. This member summarises the exact rates, because rounding is display policy (see the rounding line above). It also inherits Aggregate.Summarize's undefined result for a marker or an empty table.
- Counts are modelled as `nat`. Negative counts in a malformed file are outside the model.
- Row index labels that the dataframe keeps through filtering are not modelled. Only the column values and the row order are.
