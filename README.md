# Canal G7 Caraïbes dashboard: verified data core

This project models, in Dafny, the two data transforms of the Canal G7 Caraïbes
field-service dashboard. It proves what each transform promises.

- **Interventions dashboard** (`dashboard_g_7_caraibes.py`):
  - the technician and provider option lists;
  - the row filter;
  - the three KPIs (GSET sum, STT sum, count of `Ref PXO` references);
  - the per-technician group-by;
  - the supplemental-work code table. Missing `FACTURATION` / `TRAVAUX SUPPLEMENTAIRES` values become `""`. Each `TRAVAUX SUPPLEMENTAIRES` value is split on `","` and every piece is stripped. The codes are counted, in ascending code order. `FACTURATION` travels with the codes but is never counted.
- **May / April variance page** (`pages/2_Ecarts_Mai_Avril.py`):
  - header stripping;
  - selection of the eleven metrics indexed by `Semaine`;
  - realignment of the April weeks on the May weeks;
  - the percentage change, where a zero reference gives an undefined cell;
  - rounding to two decimals;
  - the `MOYENNE` row of column means;
  - the long form plotted by the chart.

Modules:

- `Wrappers` (`wrappers.dfy`): `Option` (a missing cell) and `Result` (a step that can raise).
- `Strings` (`strings.dfy`): Python's `str.strip()` with Python's whitespace set, and Python's code-point order on strings.
- `Sequences` (`sequences.dfy`): a fact about concatenation shared by the other modules.
- `Codes` (`codes.dfy`): `str.split(",")` with its inverse `",".join`, and the ascending frequency table built by `value_counts().sort_index()`.
- `Interventions` (`interventions.dfy`): the dashboard file.
- `Variance` (`variance.dfy`): the variance page.

All transforms are pure functions of their input tables. Numbers are exact `real`s.

## Model

| member | source | states |
|---|---|---|
| Interventions.SortedDistinct | dashboard_g_7_caraibes.py:15-16 | The result is strictly ascending. A string is in it iff it is a present (non-missing) value of the column. |
| Interventions.TechnicianOptions | dashboard_g_7_caraibes.py:15 | The technician options are strictly ascending, hence duplicate-free. They are exactly the technicians some row names; missing values are excluded. |
| Interventions.ProviderOptions | dashboard_g_7_caraibes.py:16 | The same for the provider column. |
| Interventions.Filter | dashboard_g_7_caraibes.py:19 | Every kept row has its technician among the selected technicians and its provider among the selected providers. A missing value never matches. Each selected row is kept as often as it occurs; every other row is dropped. |
| Interventions.FilterAppend | dashboard_g_7_caraibes.py:19 | Filtering distributes over concatenation, so the filter keeps the rows' order and adds nothing. |
| Interventions.RefCount | dashboard_g_7_caraibes.py:25 | The count of present `Ref PXO` values is at most the number of rows. It equals the number of rows iff every row has a reference. It is 0 iff none has one. |
| Interventions.Sum | dashboard_g_7_caraibes.py:23-24 | `sum()` over the GSET or STT column skips missing cells. An empty table and a column whose every cell is missing both sum to 0, and one row sums to its own amount. `SumAppend` carries the rest. |
| Interventions.SumAppend | dashboard_g_7_caraibes.py:23-24 | The GSET and STT sums (missing values skipped) are additive over concatenation. |
| Interventions.RefCountAppend | dashboard_g_7_caraibes.py:25 | The reference count is additive over concatenation. |
| Interventions.ComputeKpis | dashboard_g_7_caraibes.py:23-25 | The reference-count KPI never exceeds the number of filtered rows. |
| Interventions.KpisAppend | dashboard_g_7_caraibes.py:23-25 | All three KPIs of two row sets together are the sums of their separate KPIs. |
| Interventions.GroupsFor | dashboard_g_7_caraibes.py:28-31 | There is one group per given technician, in the given order. Each group holds the STT sum and reference count of exactly that technician's rows. |
| Interventions.GroupByTechnician | dashboard_g_7_caraibes.py:28-31 | Groups are in strictly ascending technician order. There is a group for a technician iff some row names that technician; rows without a technician are dropped. Each group's STT and RefCount are those of its technician's rows. |
| Interventions.TotalsOfUnion | dashboard_g_7_caraibes.py:28-31 | Totals over two disjoint technician sets add up. |
| Interventions.GroupsSum | dashboard_g_7_caraibes.py:28-31 | The STT and RefCount columns of the groups of distinct technicians sum to the totals over the union of those technicians. |
| Interventions.EmptyKeys | dashboard_g_7_caraibes.py:28-31 | Totals over no technician are zero. |
| Interventions.TotalsOverAllKeys | dashboard_g_7_caraibes.py:23-31 | When every row's technician is in the key set, the totals over the key set are the STT KPI and the reference-count KPI. |
| Interventions.GroupsMatchKpis | dashboard_g_7_caraibes.py:24-31 | When every row has a technician, the per-technician STT values sum to the STT KPI. The per-technician RefCount values sum to the reference-count KPI. |
| Interventions.FilteredGroupsMatchKpis | dashboard_g_7_caraibes.py:19-31 | The same holds for every filtered table, with no precondition: a kept row always has a technician. |
| Interventions.FillMissing | dashboard_g_7_caraibes.py:53-54 | Row count and every other field are unchanged. `FACTURATION` and `TRAVAUX SUPPLEMENTAIRES` become present strings: the old value, or `""` when it was missing. |
| Interventions.CodeLines | dashboard_g_7_caraibes.py:57-62 | The rows of the code table, row after row. There are at least as many lines as rows. Each line carries the `FACTURATION` of some row and one of that row's stripped comma-separated pieces. `CodeLinesAppend` and `LinesOf` give the order and the count. |
| Interventions.LinesOf | dashboard_g_7_caraibes.py:57-62 | A row gives (number of commas + 1) lines. Line k pairs the row's `FACTURATION` with the stripped k-th comma-separated piece. |
| Interventions.CodeLinesCount | dashboard_g_7_caraibes.py:57-58 | After cleaning, the code lines number exactly the pieces over all rows. |
| Interventions.SupplementalCodes | dashboard_g_7_caraibes.py:57-62 | The counted code column has exactly one entry per comma-separated piece over all rows. |
| Interventions.SupplementalCodesOfRow | dashboard_g_7_caraibes.py:53-57 | One row contributes the stripped pieces of its cleaned `TRAVAUX SUPPLEMENTAIRES` value. A missing value contributes one `""` code. |
| Interventions.SupplementalCodesAppend | dashboard_g_7_caraibes.py:57 | The code column of two row sets is the concatenation of their code columns, in row order. |
| Interventions.CodeLinesAppend | dashboard_g_7_caraibes.py:57 | The code lines of two cleaned row sets are the concatenation of their code lines. |
| Interventions.CodeColumnAppend | dashboard_g_7_caraibes.py:58-62 | Taking the code column commutes with concatenating line lists. |
| Interventions.CodeColumnOfRow | dashboard_g_7_caraibes.py:57-62 | The code column of a row's lines is its split-and-stripped value. |
| Interventions.CodeColumnIgnoresBilling | dashboard_g_7_caraibes.py:58-62 | Two cleaned tables with the same `TRAVAUX SUPPLEMENTAIRES` row by row have the same code column, whatever their `FACTURATION`. |
| Interventions.CodeFrequencyIgnoresBilling | dashboard_g_7_caraibes.py:58-65 | The frequency table depends on `TRAVAUX SUPPLEMENTAIRES` only: changing `FACTURATION` leaves it unchanged. |
| Interventions.CodeFrequency | dashboard_g_7_caraibes.py:65 | Codes are strictly ascending and every count is at least 1. Each code's count is its number of occurrences among the codes. The counts sum to the total number of pieces. |
| Interventions.CodeFrequencyAsWritten | dashboard_g_7_caraibes.py:57-65 | The code table as the page builds it fails iff the filtered table is empty. Otherwise it is exactly the intended frequency table `CodeFrequency`, so each code has its exact count, and the counts add up to the number of pieces. |
| Interventions.EmptySelectionRaises | dashboard_g_7_caraibes.py:19-65 | With no technician selected, the filter keeps no row. The page's code table then fails, while the intended code table is empty. |
| Codes.SplitComma | dashboard_g_7_caraibes.py:57 | Splitting on `","` gives (number of commas + 1) pieces, none containing a comma; empty pieces are kept. |
| Codes.JoinSplit | dashboard_g_7_caraibes.py:57 | Joining the pieces with `","` gives the value back. |
| Codes.SplitCommaPrefix | dashboard_g_7_caraibes.py:57 | A comma-free prefix extends the first piece. |
| Codes.SplitAtComma | dashboard_g_7_caraibes.py:57 | The first comma ends the first piece. |
| Codes.SplitJoin | dashboard_g_7_caraibes.py:57 | Splitting the comma-join of comma-free pieces gives the pieces back. |
| Codes.SplitCodes | dashboard_g_7_caraibes.py:57 | A value gives (number of commas + 1) codes. The k-th code is the stripped k-th piece. |
| Codes.Bump | dashboard_g_7_caraibes.py:65 | Recording one occurrence keeps the table ascending with positive counts. It adds the code as a key if new, raises only that code's count by one, and raises the total by one. |
| Codes.Frequency | dashboard_g_7_caraibes.py:65 | The table is strictly ascending with positive counts. Its keys are exactly the distinct codes. Each count is the code's multiplicity. The total is the number of codes. |
| Strings.TrimStart | dashboard_g_7_caraibes.py:57 | The result is no longer than the input and does not start with whitespace. |
| Strings.TrimEnd | dashboard_g_7_caraibes.py:57 | The result is a prefix of the input that does not end with whitespace. |
| Strings.Strip | dashboard_g_7_caraibes.py:57 | The result neither starts nor ends with whitespace. |
| Strings.TrimStartPadded | dashboard_g_7_caraibes.py:57 | Leading whitespace in front of a non-whitespace start is removed exactly, and nothing more. |
| Strings.TrimEndPadded | dashboard_g_7_caraibes.py:57 | Trailing whitespace after a non-whitespace end is removed exactly, and nothing more. |
| Strings.StripPadded | pages/2_Ecarts_Mai_Avril.py:26-27 | A string that neither starts nor ends with whitespace, padded by any whitespace on both sides, strips to itself: strip removes exactly the surrounding whitespace. |
| Strings.StripIdempotent | dashboard_g_7_caraibes.py:57 | Stripping twice is stripping once. |
| Strings.LessIrreflexive | dashboard_g_7_caraibes.py:15-16 | No string sorts before itself. |
| Strings.LessTransitive | dashboard_g_7_caraibes.py:15-16 | String order is transitive. |
| Strings.LessTotal | dashboard_g_7_caraibes.py:15-16 | Any two distinct strings are ordered one way or the other. |
| Strings.LessAsymmetric | dashboard_g_7_caraibes.py:15-16 | No two strings sort before each other. |
| Strings.AscendingDistinct | dashboard_g_7_caraibes.py:15-16 | A strictly ascending list has no duplicates. |
| Strings.Insert | dashboard_g_7_caraibes.py:15-16 | Inserting into a strictly ascending list keeps it strictly ascending. It adds exactly the new string, once. |
| Variance.StripHeaders | pages/2_Ecarts_Mai_Avril.py:26-27 | Every header is replaced by its stripped form. Rows and header count are unchanged. |
| Variance.PaddedHeaderSelected | pages/2_Ecarts_Mai_Avril.py:26-31 | A header such as `" Ok "` is found as `Ok` after stripping, at its own position. |
| Variance.Select | pages/2_Ecarts_Mai_Avril.py:21-31 | Selection succeeds iff `Semaine` and all eleven metrics are headers. Otherwise the error names exactly the absent columns. On success there is one row per sheet row, with exactly the eleven metrics. Each row is indexed by its `Semaine` cell and reads each metric from that metric's column. |
| Variance.AbsentWeeksEmpty | pages/2_Ecarts_Mai_Avril.py:32 | The list of current weeks absent from the reference is empty iff every current week occurs in the reference. |
| Variance.Lookup | pages/2_Ecarts_Mai_Avril.py:32 | One row per current week, in current order. Row i is the reference row of week i (its first occurrence in the reference), so it carries that week and that row's cells. |
| Variance.Align | pages/2_Ecarts_Mai_Avril.py:32 | Alignment succeeds iff every current week occurs in the reference. Otherwise the error lists each absent week once. On success, row i is the reference row of the i-th current week, in current order. |
| Variance.AlignIgnoresExtraWeeks | pages/2_Ecarts_Mai_Avril.py:32 | Removing reference weeks that the current table lacks changes neither the result nor the error. |
| Variance.Numeric | pages/2_Ecarts_Mai_Avril.py:35 | A cell has a value iff it is a number, and then the value is that number. Empty cells and text cells are missing. |
| Variance.ToNumbers | pages/2_Ecarts_Mai_Avril.py:35 | Every cell is converted in place, one row per row, with the weeks and columns kept. Each cell becomes its `Numeric` value. |
| Variance.TextAgainstValueRejected | pages/2_Ecarts_Mai_Avril.py:35 | Text paired with a present cell in the other table (a 0 included) makes the comparison fail with a TypeError. |
| Variance.TextOppositeEmptyUndefined | pages/2_Ecarts_Mai_Avril.py:35 | With no current `MOYENNE` week, text opposite an empty cell raises nothing: when the comparison succeeds, the reference cell facing a current text cell is empty and the change is undefined. |
| Variance.Change | pages/2_Ecarts_Mai_Avril.py:35 | The change is undefined iff a cell is missing or the reference is 0. Otherwise it is the percentage v with cur = ref·(1 + v/100), and it is 0 iff the two values are equal. |
| Variance.Changes | pages/2_Ecarts_Mai_Avril.py:35 | The change table keeps the current weeks and the eleven metrics. Every cell is the change of its current cell over the aligned reference cell. |
| Variance.Round2 | pages/2_Ecarts_Mai_Avril.py:36 | The result has two decimals and lies within half a cent of the input, so it is a nearest two-decimal value. On a tie, its last digit is even, as numpy rounds. |
| Variance.RoundCentsFixed | pages/2_Ecarts_Mai_Avril.py:36 | A value that already has two decimals is unchanged, so rounding is idempotent. |
| Variance.Rounded | pages/2_Ecarts_Mai_Avril.py:36 | Weeks and columns are kept. A cell is defined iff it was. Every defined cell has two decimals and lies within 0.005 of its unrounded change. |
| Variance.Clash | pages/2_Ecarts_Mai_Avril.py:35 | `mai - avril` cannot subtract a pair of cells iff neither is empty and they are not both numbers, that is, text meets a present cell. A zero counts as present. |
| Variance.HasClash | pages/2_Ecarts_Mai_Avril.py:35 | The subtraction of the two tables raises nothing iff, in every week and metric, a text cell on either side faces an empty cell. |
| Variance.TextColumns | pages/2_Ecarts_Mai_Avril.py:35-36 | The metrics that pandas reads as object columns because of text. This is a subset of the eleven metrics: a metric is in it iff some row of the table holds text in it. `CompareAsWritten` skips these columns when rounding. |
| Variance.RoundedAsWritten | pages/2_Ecarts_Mai_Avril.py:35-36 | The rounding as the page performs it. A metric is left unrounded when its aligned reference holds a 0 or when it is among the given text columns. Every other metric is rounded. |
| Variance.RoundedAsWrittenNoSkip | pages/2_Ecarts_Mai_Avril.py:35-36 | When no metric is a text column and no aligned reference cell is 0, the page's rounding is the corrected rounding `Rounded`. |
| Variance.AsWrittenLeavesZeroColumnUnrounded | pages/2_Ecarts_Mai_Avril.py:35-36 | With reference Ok = [0, 3] and current Ok = [1, 1], the page leaves week 2's Ok change at -200/3. That value does not have two decimals, while the corrected rounding has. |
| Variance.Mean | pages/2_Ecarts_Mai_Avril.py:37 | The mean is undefined iff no cell is defined. Otherwise, mean × number of defined cells = sum of the defined cells. |
| Variance.DefinedCountZero | pages/2_Ecarts_Mai_Avril.py:37 | No cell counts iff every cell is undefined. |
| Variance.DefinedSumAtLeast | pages/2_Ecarts_Mai_Avril.py:37 | When every defined cell is at least a bound, their sum is at least count × bound. |
| Variance.DefinedSumAtMost | pages/2_Ecarts_Mai_Avril.py:37 | When every defined cell is at most a bound, their sum is at most count × bound. |
| Variance.MeanBounds | pages/2_Ecarts_Mai_Avril.py:37 | The mean lies between any bounds of the defined cells. |
| Variance.Column | pages/2_Ecarts_Mai_Avril.py:37 | A metric's column has one cell per row, equal to that row's cell. |
| Variance.AverageRow | pages/2_Ecarts_Mai_Avril.py:37 | The row is labelled `MOYENNE`, has the eleven metrics, and holds each metric's mean over the rows. |
| Variance.WithAverage | pages/2_Ecarts_Mai_Avril.py:37 | With no `MOYENNE` week, the average row is appended. Otherwise every `MOYENNE` row is overwritten by it and nothing is appended. The eleven columns are kept. |
| Variance.Report | pages/2_Ecarts_Mai_Avril.py:35-37 | The variance table has exactly the eleven metrics in every row and contains a `MOYENNE` row. |
| Variance.Compare | pages/2_Ecarts_Mai_Avril.py:32-37 | Succeeds iff every current week is in the reference and no aligned pair puts text against a present cell. Otherwise the error is the missing-weeks error iff a week is missing, and else a TypeError. On success the result is the report of the two tables read as numbers. With no current `MOYENNE` week, its weeks are the current weeks in order, then `MOYENNE`. |
| Variance.CompareAsWritten | pages/2_Ecarts_Mai_Avril.py:32-37 | The comparison as the page performs it. It succeeds exactly when `Compare` does and fails with the same error. On success, each change is left unrounded in the object columns: the text columns of either sheet and the columns whose aligned reference holds a 0. Every other change is rounded. The `MOYENNE` row is added over these cells. When no metric is an object column, it is `Compare`. |
| Variance.AsWrittenLeavesTextColumnUnrounded | pages/2_Ecarts_Mai_Avril.py:32-36 | May has week 1 with every metric 1. April has week 1 with every metric 3 and a week 2 with text in metric m. The realignment drops week 2, so both comparisons succeed. Yet the page leaves week 1's m change at -200/3, which does not have two decimals, while `Compare` rounds it to two decimals. |
| Variance.VarianceReport | pages/2_Ecarts_Mai_Avril.py:26-37 | The whole page succeeds iff both sheets have the required columns after stripping and their comparison succeeds. A missing column is reported for the current sheet first, then for the reference. When both selections succeed, the result is exactly the comparison of the two selected tables, so `Compare` and `ReportShape` describe every cell. A success has the eleven metrics in every row and a `MOYENNE` row. With no current `MOYENNE` week, its weeks are the current weeks in order, then `MOYENNE`. |
| Variance.ReportShape | pages/2_Ecarts_Mai_Avril.py:21-37 | With no current week labelled `MOYENNE`, there is one row per current week in order, then one `MOYENNE` row. Each week's cell is defined iff its change is, has two decimals, and lies within 0.005 of the change. Each `MOYENNE` cell is the mean of the defined rounded cells above it. |
| Variance.CentsNearZero | pages/2_Ecarts_Mai_Avril.py:36 | The only two-decimal value within half a cent of 0 is 0. |
| Variance.RoundedChangesZero | pages/2_Ecarts_Mai_Avril.py:35-36 | Comparing a table with itself, all references nonzero, gives rounded changes that are all 0. |
| Variance.AverageOfZero | pages/2_Ecarts_Mai_Avril.py:37 | The averages of a non-empty all-zero table are all 0. |
| Variance.EqualPeriodsGiveZero | pages/2_Ecarts_Mai_Avril.py:35-37 | Comparing a non-empty table with itself, all references nonzero, gives 0 in every cell, the `MOYENNE` row included. |
| Variance.MissingWeekRejected | pages/2_Ecarts_Mai_Avril.py:32 | A current week absent from the reference makes the comparison fail, with a missing-weeks error naming that week. |
| Variance.WithoutAverage | pages/2_Ecarts_Mai_Avril.py:51 | No row left is labelled `MOYENNE`. Every other row is kept as often as it occurs, so the size is the number of rows minus the `MOYENNE` rows. The model also leaves a table without a `MOYENNE` week unchanged, where pandas raises a KeyError. That extends the drop to an input the page never passes, since `Report` always adds the row. |
| Variance.WithoutAverageConcat | pages/2_Ecarts_Mai_Avril.py:51 | The drop distributes over concatenation, so the rows kept stay in their order. |
| Variance.MetricPoints | pages/2_Ecarts_Mai_Avril.py:51 | One point per week, carrying the week, the metric and that week's cell. |
| Variance.Melt | pages/2_Ecarts_Mai_Avril.py:51 | There are (number of metrics × number of weeks) points. Each carries one of the weeks and one of the metrics. |
| Variance.MeltBlock | pages/2_Ecarts_Mai_Avril.py:51 | The melted points are the earlier metrics' points, then the k-th metric's full column, then the later metrics' points. |
| Variance.LongForm | pages/2_Ecarts_Mai_Avril.py:51 | The long form has 11 points for each week other than `MOYENNE`. None is a `MOYENNE` point, and every metric is one of the eleven. |
| Variance.LongFormSize | pages/2_Ecarts_Mai_Avril.py:37-51 | The report's long form has 11 points for each current week not labelled `MOYENNE`. This holds whether the average row was appended or overwrote current rows. |
| Variance.ReportWeeksBesideAverage | pages/2_Ecarts_Mai_Avril.py:37 | The report has as many weeks other than `MOYENNE` as the current table. |
| Variance.WithoutAverageLast | pages/2_Ecarts_Mai_Avril.py:51 | Dropping `MOYENNE` ignores an appended `MOYENNE` row. |
| Variance.WithoutAverageAppend | pages/2_Ecarts_Mai_Avril.py:37-51 | Dropping `MOYENNE` from a table that has it only as an appended last row gives the table back. |

## Left out

- Loading the workbooks, the Streamlit widgets, the AgGrid tables, the Altair charts, the KPI number formatting, the search box and the CSV / Excel downloads. This is file I/O and presentation. The selected technicians and providers are parameters of the filter; by default the page selects all options.
- `Home.py`, `pages/0_Accueil.py` and `pages/1_Suivi_D3.py` are not part of this model. They hold login state and single library calls.
- Floating-point behaviour: every number is an exact `real`, so sums, differences and quotients carry no rounding error.
- Strings.TrimStart, Strings.TrimEnd, Strings.Strip: their own contracts promise only that the ends left are not whitespace. That exactly the surrounding whitespace is removed is proved separately, by Strings.TrimStartPadded, Strings.TrimEndPadded and Strings.StripPadded.
- Variance.Round2: numpy rounds the binary double nearest the value, so a decimal stored just below itself (2.675, say) can round down. The model rounds the exact value, half to even.
- Variance.Align: when a week occurs several times in the reference, pandas returns every matching row. The model takes the first.
- Variance.Select: when two headers become equal after stripping, pandas selects both columns. The model reads the first.
- Variance.ToNumbers: metric cells holding dates or booleans are not modelled. A cell is a number, text or empty. Text fails the arithmetic against a present cell and is skipped opposite an empty one.
- Variance.MissingWeekRejected: the text of the error messages is not modelled, only which step fails and which names it reports.
- Interventions.SupplementalCodes: a `TRAVAUX SUPPLEMENTAIRES` cell holding a number is not modelled. In pandas it yields no code at all. The model treats every present cell as text.
- Interventions.Sum: GSET and STT cells are numbers or missing. Text in an amount column is not modelled.
- Variance.CompareAsWritten: the page's own table, with its object columns left unrounded (see Findings), is modelled only up to its agreement with `Compare`. Its properties are not proved beyond that. The rest of the model (`VarianceReport`, `LongForm`) is built from the corrected rounding of `Compare`.

## Findings

| source | as written | input that shows it | evidently intended | confidence | as-written member | corrected member |
|---|---|---|---|---|---|---|
| dashboard_g_7_caraibes.py:57 | On an empty filtered table, `str.split(",", expand=True)` gives a frame with no columns. `stack()` turns it into an empty float Series, and `.str.strip()` refuses that Series with an AttributeError, so the code table section fails. | no technician selected, or no row matching the selection | an empty code table | medium, not executed | Interventions.CodeFrequencyAsWritten, Interventions.EmptySelectionRaises | Interventions.CodeFrequency |
| pages/2_Ecarts_Mai_Avril.py:35-36 | `avril.replace(0, pd.NA)` turns a metric column whose aligned reference holds a 0 into an object column, so the quotient column is an object column too. `DataFrame.round(2)` leaves non-numeric columns as they are, so every change in that column keeps all its decimals. A text cell anywhere in the column of either sheet has the same effect, even in a reference week the realignment drops. | reference Ok = [0, 3], current Ok = [1, 1]: week 2's Ok change stays -66.666… instead of -66.67. Likewise, reference week 1 = 3 and week 2 = text, with current week 1 = 1: week 1's change stays -66.666… | every defined change rounded to two decimals | medium, not executed | Variance.RoundedAsWritten, Variance.AsWrittenLeavesZeroColumnUnrounded, Variance.CompareAsWritten, Variance.AsWrittenLeavesTextColumnUnrounded | Variance.Rounded, Variance.Compare |
