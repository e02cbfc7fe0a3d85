# COVID-19 data pipeline, modelled in Dafny

This project models the processing core of a small COVID-19 analysis
pipeline. The pipeline reads the Johns Hopkins time series of confirmed,
recovered and dead cases, a table of countries and continents, and seven
World Bank indicators. It then writes a set of processed tables:

- the per-country cases tables, plus an active-cases table derived from them;
- daily changes, and cases since the first day at or above a threshold;
- a mortality-rate table and a per-country snapshot of the latest figures;
- country coordinates, continents, and a country-to-continent table;
- a combined World Bank table with median-imputed indicators and per-million rates.

A visualisation class then queries those tables: rankings of the snapshot,
and the time series of one country, of one continent and of the world.

Each feature script is one Dafny module. `cases.dfy` models
`make_cases.py`, `since_t0.dfy` models `make_cases_since_t0.py`, and so on.
`utils.dfy` models the shared helpers of `utils.py`. `viz.dfy` models the
query methods of `CovidDataViz`. Three modules serve the others:

- `frames.dfy` models the pandas operations the scripts compose:
  - tables keyed by date;
  - frames keyed by a label column, with pandas' handling of duplicate keys;
  - outer merges, which sort their keys, and inner merges, which keep the left order;
  - `reduce` over merges, backfill, `head`, and boolean selection.
- `order.dfy` models Python's string order and `sorted`.
- `wrappers.dfy` holds the `Option`/`Result` types. A pandas failure is
  modelled as its cause:
  - `MissingLabel` is a `KeyError` on a column or label;
  - `LengthMismatch` is a wrong number of labels assigned to `columns`;
  - `EmptyReduce` is `reduce` over an empty list.

Missing values (`NaN`) are `None`. Counts are unbounded integers, and rates
and coordinates are reals. Dates are strings, and their order is the
lexicographic order of ISO dates.

The code is followed throughout:
- `get_country_ts` of the visualisation class does not backfill, unlike the
  helper in `utils.py`.
- `get_cases_since_t0` cuts its result to `n_cases_start` rows.
- The renaming pair ('Korea, South', 'Korea') of `switch_country_names` can
  never match, because the cut at ", " has already shortened that name.
- The per-million rates are computed as written: the count is divided by the
  population and then by a million (`WorldBank.PerMln`). The rows that
  `WorldBank.MakeWorldBank` produces carry that figure.

That last formula is reported under "## Findings". `WorldBank.PerMillion` is
the corrected rate, the count per million people that the column names
promise. Its properties are proved beside the as-written one, but no output
row uses it.

Row filters (`df[mask]`, `dropna()`) are modelled by `Frames.Where`. It keeps
the rows in order, and each row as often as it occurs. Columns are read with
`Frames.Map`.

Functions model the value-to-value parts. Methods model what the scripts
do in place or in a loop: renaming the Country column of an array of rows
pass by pass, collecting frames country by country, and the query methods.
The query methods of `Viz.CovidDataViz` have no `modifies` clause: no query
changes the loaded tables.

## Model

| member | source | states |
|---|---|---|
| Order.Sort | COVID19/features/make_cases_since_t0.py:9 | `sorted` on names: the result is in order and a permutation of the input |
| Order.SortOfSorted | COVID19/features/make_cases_since_t0.py:9 | sorting a list that is already ordered leaves it unchanged |
| Order.SortedSet | COVID19/features/make_mortality.py:31 | `sorted(set(...))`: strictly increasing, with exactly the members of the input |
| Order.SortedSetOfStrictlySorted | COVID19/features/make_mortality.py:31 | the sorted set of a strictly increasing list is that list |
| Frames.DropLabels | COVID19/features/utils.py:54 | `drop(labels, axis=1)` succeeds iff every label is a column; otherwise a KeyError names a missing label |
| Frames.DropLabelsKeeps | COVID19/features/utils.py:54 | the columns left are exactly the others, each unchanged, and a sorted label order stays sorted |
| Frames.Permute | COVID19/features/make_cases.py:52-53 | selecting all columns in a new order gives that order, each column unchanged |
| Frames.SeriesFrame | COVID19/features/utils.py:26 | `df.loc[:, ['Date', country]]`: one row per date of the table, and looking a date up gives the country's cell |
| Frames.OuterJoin | COVID19/features/utils.py:29 | an outer merge keeps a key iff either side has it, with the two widths added |
| Frames.OuterJoinUnique | COVID19/features/utils.py:29 | with distinct keys on both sides the merge has distinct, sorted keys, and each row is the two lookups side by side |
| Frames.OuterJoinAll | COVID19/features/utils.py:29 | `reduce` of outer merges keeps a key iff some frame has it |
| Frames.OuterJoinAllUnique | COVID19/features/utils.py:29 | over frames with distinct keys the fold has distinct keys, sorted once two frames are merged, and each row is the lookups in every frame |
| Frames.InnerJoin | COVID19/features/make_mortality.py:40 | an inner merge keeps a key iff both sides have it |
| Frames.InnerJoinUnique | COVID19/features/make_mortality.py:40 | with distinct keys, the inner merge keeps the left keys found on the right, in left order, with the two lookups side by side |
| Frames.InnerJoinAll | COVID19/features/make_mortality.py:40 | `reduce` of inner merges keeps a key iff every frame has it |
| Frames.InnerJoinAllUnique | COVID19/features/make_mortality.py:40 | over frames with distinct keys the fold has distinct keys, in the first frame's order, each row the lookups in every frame |
| Frames.BackfillAt | COVID19/features/utils.py:31 | `bfill`: a present entry stays, a gap takes the next later present entry, and a trailing gap stays missing |
| Frames.BackfillFrame | COVID19/features/utils.py:31 | backfilling every value column keeps the keys and fills each gap from below |
| Frames.Head | COVID19/features/make_cases_since_t0.py:26 | `head(n)`: a prefix of length n, capped at the length; for negative n, all but the last -n rows |
| Frames.Where | COVID19/visualizations/covid_data_viz.py:82 | boolean selection: the kept rows are a subsequence of the input, each row occurs as often as in the input when it satisfies the condition and not at all otherwise |
| Frames.InnerMergeMembers | COVID19/visualizations/covid_data_viz.py:84 | a row of an inner merge of records is exactly a matching pair of a left and a right row |
| Utils.RenameCountryIsLookup | COVID19/features/utils.py:40-45 | the six passes in sequence act as one lookup in the alias table |
| Utils.RenameCountryChanges | COVID19/features/utils.py:40-45 | a name changes iff it is one of the six aliases, and it then becomes one of the five target names |
| Utils.RenameCountryIdempotent | COVID19/features/utils.py:40-45 | renaming twice is renaming once |
| Utils.RenameCountryNotInjective | COVID19/features/utils.py:44-45 | two different names, the two Congos, are renamed to the same name |
| Utils.ReplaceAll | COVID19/features/utils.py:40 | one `apply` pass replaces every occurrence of one name in the Country column, in place, and leaves the other entries alone |
| Utils.RenameCountries | COVID19/features/utils.py:35-47 | every Country entry becomes its renamed value, in place; length and order are kept |
| Utils.RemoveBoats | COVID19/features/utils.py:49-56 | dropping the boats fails with a KeyError naming a boat iff one of them is not a column; it keeps the dates |
| Utils.RemoveBoatsKeeps | COVID19/features/utils.py:54 | the columns left are the non-boat ones, each unchanged |
| Utils.CellsOn | COVID19/features/utils.py:26 | the country's cells on the given dates, missing where the table lacks a date |
| Utils.SeriesFrames | COVID19/features/utils.py:25-27 | one single-column, distinct-date frame per table, each the country's series |
| Utils.LookupAllSeries | COVID19/features/utils.py:25-29 | looking a date up in every series gives the country's cell in every table |
| Utils.SeriesKeys | COVID19/features/utils.py:29 | the merged dates are exactly the dates of any table |
| Utils.MergedShape | COVID19/features/utils.py:29-30 | the merged series has one column per table, distinct dates (sorted once two tables are merged), and exactly the dates of any table |
| Utils.MergedColumns | COVID19/features/utils.py:29 | column j of the merged series holds the country's cells in table j on the merged dates |
| Utils.MergedSeries | COVID19/features/utils.py:29-31 | the backfilled merge has those dates, and each cell is the next present cell of the country's column in that table |
| Utils.GetCountryTs | COVID19/features/utils.py:17-33 | succeeds iff the country is in every table, there is a table, and the labels match the tables; otherwise KeyError, empty reduce or length mismatch; and the frame is the backfilled merged series under Date and the labels |
| Cases.Renamed | COVID19/features/make_cases.py:23-26 | the Country column after the renaming, row by row |
| Cases.GroupKeys | COVID19/features/make_cases.py:29-37 | the columns after grouping and transposing: each distinct country but "Date", strictly sorted |
| Cases.Grouped | COVID19/features/make_cases.py:29-37 | `groupby('Country').sum()` transposed: one column per distinct country, holding on each date the sum of that country's rows |
| Cases.GroupSumsConserveTotal | COVID19/features/make_cases.py:29 | grouping conserves the total: the group sums add up to the sum over all rows |
| Cases.GroupSumAbsent | COVID19/features/make_cases.py:29 | a country no row carries sums to zero |
| Cases.ProcessData | COVID19/features/make_cases.py:16-59 | fails with a boat's KeyError iff a boat is missing after renaming; else the dates are the raw dates, the columns are the sorted renamed non-boat countries, and each cell is the group sum on that date |
| Cases.AlignedNames | COVID19/features/make_cases.py:70-71 | the labels of `a - b`: the same labels when equal, otherwise the sorted union |
| Cases.Subtract | COVID19/features/make_cases.py:70-71 | `a -= b` aligns labels and positions; each cell is the difference where both sides have one, otherwise missing |
| Cases.MakeActive | COVID19/features/make_cases.py:69-72 | the active table is confirmed minus recovered minus dead, cell by cell over the aligned labels, with the confirmed dates appended by position |
| Cases.ActiveIsDifference | COVID19/features/make_cases.py:69-71 | where all three tables have a cell, the active cell is their difference, negative results included |
| DailyChange.Diff | COVID19/features/make_cases_daily_change.py:15-17 | `x - x.shift(1)` then `fillna(0)`: zero on the first row and wherever either side is missing, else the difference |
| DailyChange.GetDailyChanges | COVID19/features/make_cases_daily_change.py:7-19 | the same countries and dates, Date moved last, each column its differences |
| DailyChange.Telescoping | COVID19/features/make_cases_daily_change.py:15-17 | on a gap-free column, the changes on rows 1..t add up to the growth from row 0 to row t |
| DailyChange.Reconstruct | COVID19/features/make_cases_daily_change.py:15-17 | the first value plus the running total of the changes rebuilds the column |
| SinceT0.ReachedFrom | COVID19/features/make_cases_since_t0.py:14 | exactly the rows at or above the threshold, in increasing order |
| SinceT0.Kept | COVID19/features/make_cases_since_t0.py:13-15 | every kept value is at or above the threshold |
| SinceT0.KeptIsFilter | COVID19/features/make_cases_since_t0.py:14-15 | the kept values are those of the rows that reach the threshold, one per row, in row order and renumbered from 0 |
| SinceT0.NeverReached | COVID19/features/make_cases_since_t0.py:14 | a column that never reaches the threshold keeps nothing |
| SinceT0.Countries | COVID19/features/make_cases_since_t0.py:9 | every country column once, strictly sorted |
| SinceT0.KeptColumns | COVID19/features/make_cases_since_t0.py:11-16 | the filtered values of each country in turn |
| SinceT0.MaxLength | COVID19/features/make_cases_since_t0.py:18-24 | the length of the longest filtered column |
| SinceT0.AlignByPosition | COVID19/features/make_cases_since_t0.py:18-24 | an outer merge on positions: rows 0 up to the longest length, with a gap past a shorter column's end |
| SinceT0.AlignedHead | COVID19/features/make_cases_since_t0.py:24-26 | the aligned columns under the country names, cut by `head` |
| SinceT0.GetCasesSinceT0 | COVID19/features/make_cases_since_t0.py:7-29 | fails with an empty reduce iff there is no country; else the sorted countries, each column its filtered values aligned by position, cut to `head(n_cases_start)` |
| Mortality.Rate | COVID19/features/make_mortality.py:19-20 | the rate times the confirmed count is 100 times the deaths; missing iff the deaths are |
| Mortality.RateIsPercentage | COVID19/features/make_mortality.py:19-20 | with deaths at most the confirmed count, the rate lies between 0 and 100 |
| Mortality.MortalityRowsOrder | COVID19/features/make_mortality.py:18 | the filter keeps the dates in their order |
| Mortality.MortalityRowsMember | COVID19/features/make_mortality.py:18 | a date survives iff its confirmed count is positive |
| Mortality.MortalityRowsFind | COVID19/features/make_mortality.py:18-22 | looking a date up in the filtered rows gives the mortality of that date's row |
| Mortality.MortalityFrame | COVID19/features/make_mortality.py:18-23 | the Date and mortality columns of the filtered series: one column, distinct dates |
| Mortality.MortalityFrameAt | COVID19/features/make_mortality.py:18-23 | a date is kept iff its confirmed count is positive, and it carries the mortality of its row |
| Mortality.GetMortalityData | COVID19/features/make_mortality.py:8-25 | fails with the country's KeyError iff a table lacks it; else the header is Date and the country, and the frame is the mortality of the backfilled merged series |
| Mortality.MortalityFrames | COVID19/features/make_mortality.py:33-38 | the mortality frame of each series in turn |
| Mortality.CollectMortality | COVID19/features/make_mortality.py:33-38 | completes iff the deaths table has every name; else a KeyError names one it lacks; the frames are those of each country's merged series, in order |
| Mortality.MakeMortality | COVID19/features/make_mortality.py:27-42 | succeeds iff there is a country and the deaths table has all of them; else an empty reduce or a KeyError; the result is the inner merge of the per-country mortality frames under Date and the sorted countries |
| Mortality.MortalityTableShape | COVID19/features/make_mortality.py:40 | the merged table has distinct dates, one column per country, in the first country's date order |
| Mortality.MortalityTableDates | COVID19/features/make_mortality.py:40 | a date is in the merged table iff every country has a positive backfilled confirmed count on it |
| Mortality.MortalityTableCells | COVID19/features/make_mortality.py:40 | on a kept date, column j is the mortality of country j |
| CountryStats.Min | COVID19/features/make_country_stats.py:20 | the length of `zip`: the smaller of the two lengths |
| CountryStats.LastRow | COVID19/features/make_country_stats.py:21-24 | one row per country column, in column order, labelled Country and the metric |
| CountryStats.LastRowLookup | COVID19/features/make_country_stats.py:21-24 | a country gets its entry on the last date; any other name gets a gap |
| CountryStats.LastRows | COVID19/features/make_country_stats.py:19-25 | the last-row frame of every table |
| CountryStats.StatsFrame | COVID19/features/make_country_stats.py:27 | the outer merge of the snapshots has one column per table |
| CountryStats.StatsFrameRows | COVID19/features/make_country_stats.py:19-27 | one row per country of any table, never Date, sorted once two tables are merged; each row lists the country's last entry in every table, with a gap exactly where a table lacks it |
| CountryStats.GetCountryStats | COVID19/features/make_country_stats.py:14-29 | succeeds iff some pair is zipped and every zipped table has a row; else a length mismatch or an empty reduce; the header is Country and the zipped names |
| Coordinates.NotBoats | COVID19/features/make_coordinates.py:17 | the rows not named after a boat, in file order, duplicates kept as often as they occur; no other row |
| Coordinates.GroupOf | COVID19/features/make_coordinates.py:18-20 | the rows whose renamed country is c, in order, duplicates kept as often as they occur; no other row |
| Coordinates.Mean | COVID19/features/make_coordinates.py:20 | `mean()` skips gaps: missing iff nothing is present, else the mean times the count is the sum |
| Coordinates.MeanMissing | COVID19/features/make_coordinates.py:20 | the mean is missing iff every value is |
| Coordinates.MeanWithin | COVID19/features/make_coordinates.py:20 | the mean of values between two bounds lies between them |
| Coordinates.CoordKeys | COVID19/features/make_coordinates.py:16-21 | the countries: the renamed non-boat names, strictly sorted, once each |
| Coordinates.GetCoords | COVID19/features/make_coordinates.py:11-25 | exactly those countries, strictly sorted, none a boat, each with the mean Lat and Long of its rows |
| Continents.BeforeComma | COVID19/features/make_continents.py:22 | `split(", ")[0]`: the prefix up to the first ", ", or the whole name |
| Continents.NoSeparatorLeft | COVID19/features/make_continents.py:22 | the short name contains no ", " |
| Continents.BeforeCommaIdempotent | COVID19/features/make_continents.py:22 | cutting twice is cutting once |
| Continents.NoCut | COVID19/features/make_continents.py:22 | a name without ", " is kept whole |
| Continents.KeepFirst | COVID19/features/make_continents.py:25 | `drop_duplicates(subset=['Country'])`: each country once, as its first row |
| Continents.GetContinentsRows | COVID19/features/make_continents.py:11-27 | each short name occurs once, as the reshaped first raw row with that short name |
| Continents.SwitchedIsLookup | COVID19/features/make_continents.py:50-51 | without chains and with distinct sources, the renamings in turn act as one lookup |
| Continents.SwapsAreLookup | COVID19/features/make_continents.py:34-48 | the fifteen renamings have no chains and distinct sources |
| Continents.SwitchIdempotent | COVID19/features/make_continents.py:34-51 | renaming twice is renaming once |
| Continents.KoreaPairNeverMatches | COVID19/features/make_continents.py:39 | no reshaped row is named "Korea, South", so that renaming never applies |
| Continents.SwitchOne | COVID19/features/make_continents.py:51 | one assignment renames the matching Country entries in place and changes nothing else |
| Continents.SwitchCountryNames | COVID19/features/make_continents.py:29-53 | every row's Country becomes its switched value in place; the other fields are unchanged |
| Continents.WithoutAntarctica | COVID19/features/make_continents.py:61 | the rows not in Antarctica, in order, duplicates kept as often as they occur; no other row |
| Continents.MakeContinents | COVID19/features/make_continents.py:55-63 | the continents table, with no Antarctica row |
| CountryToContinent.MatchesOf | COVID19/features/make_country_to_continent.py:12 | the continent rows of a country, in order, duplicates kept as often as they occur; no other row |
| CountryToContinent.DropNa | COVID19/features/make_country_to_continent.py:13 | `dropna()`: read back as merged rows, the result is exactly the gap-free merged rows, in order and with their multiplicities |
| CountryToContinent.LeftMergeComplete | COVID19/features/make_country_to_continent.py:12 | a complete row of the left merge is exactly a coordinates row and a continents row of the same country |
| CountryToContinent.CtryToContRows | COVID19/features/make_country_to_continent.py:10-15 | a row of the result iff a gap-free coordinates row and continents row of the same country give it |
| CountryToContinent.LeftMergeCountries | COVID19/features/make_country_to_continent.py:12 | the merged Country column is the coordinates' countries in order, each repeated once per matching continent row, and once when none matches |
| CountryToContinent.LeftMergeKeepsRows | COVID19/features/make_country_to_continent.py:12 | a left merge loses no coordinates row: their Country column is a subsequence of the merged one |
| CountryToContinent.LeftMergeOrder | COVID19/features/make_country_to_continent.py:12 | with the coordinates strictly sorted by country, the merged Country column is sorted and holds no other country |
| CountryToContinent.DropNaOrder | COVID19/features/make_country_to_continent.py:13 | the Country column after `dropna()` is a subsequence of the one before it, and sorted when that one is |
| CountryToContinent.CtryToContOrder | COVID19/features/make_country_to_continent.py:10-15 | with sorted coordinates, the result is sorted by country |
| WorldBank.Labels | COVID19/features/make_world_bank.py:12-18 | the seven indicator names, in file order |
| WorldBank.LabelsDistinct | COVID19/features/make_world_bank.py:12-18 | the names are distinct and none is Country |
| WorldBank.ReadData | COVID19/features/make_world_bank.py:20-27 | one indicator per file, carrying its observations under its name |
| WorldBank.DropMissing | COVID19/features/make_world_bank.py:49 | `dropna()`: read back as observations, the result is exactly the gap-free observations, in order and with their multiplicities |
| WorldBank.FullCountries | COVID19/features/make_world_bank.py:51 | the group keys: exactly the countries with a complete observation |
| WorldBank.MaxDate | COVID19/features/make_world_bank.py:51-52 | the latest year of a country, attained by one of its observations |
| WorldBank.LatestDates | COVID19/features/make_world_bank.py:51-53 | each country paired with its latest year |
| WorldBank.LatestDatesMembers | COVID19/features/make_world_bank.py:51-53 | a country-year pair is listed iff it is that country's latest year |
| WorldBank.RowsAt | COVID19/features/make_world_bank.py:56 | the observations of one country and year, as one-column rows |
| WorldBank.MergeLatestMembers | COVID19/features/make_world_bank.py:56 | a merged row is exactly an observation whose country-year pair is listed |
| WorldBank.LatestRows | COVID19/features/make_world_bank.py:43-59 | a row of the result iff it is a complete observation from its country's latest year |
| WorldBank.LatestOrder | COVID19/features/make_world_bank.py:51-56 | the result is sorted by country |
| WorldBank.LatestKeys | COVID19/features/make_world_bank.py:43-59 | a country appears iff it has a complete observation |
| WorldBank.LatestFrames | COVID19/features/make_world_bank.py:69-70 | the latest-year frame of each indicator |
| WorldBank.LatestAll | COVID19/features/make_world_bank.py:69-70 | the loop replaces each indicator by its latest-year frame |
| WorldBank.Merged | COVID19/features/make_world_bank.py:72-75 | the outer merge has one column per indicator |
| WorldBank.MergedKeys | COVID19/features/make_world_bank.py:72-75 | a country appears iff some indicator has a complete observation for it |
| WorldBank.MergeCodesMembers | COVID19/features/make_world_bank.py:76 | a row iff an indicator row and a code row agree on the country name |
| WorldBank.MergeStatsMembers | COVID19/features/make_world_bank.py:79 | a row iff a continents row and a stats row agree on Country |
| WorldBank.MergeOnCodeMembers | COVID19/features/make_world_bank.py:83 | a row iff a country and an indicator row agree on the code |
| WorldBank.KeptRows | COVID19/features/make_world_bank.py:76-91 | a surviving row joins a continents row, a stats row, an indicator row and a code row on country and code, with more than 5000 confirmed, and is not Yemen |
| WorldBank.Present | COVID19/features/make_world_bank.py:93 | the present values of a column |
| WorldBank.SortReals | COVID19/features/make_world_bank.py:93 | the present values in order, a permutation |
| WorldBank.Median | COVID19/features/make_world_bank.py:93 | the median is missing iff no value is present |
| WorldBank.MiddleBetween | COVID19/features/make_world_bank.py:93 | the middle of a sorted list lies between its two central entries |
| WorldBank.MedianWithin | COVID19/features/make_world_bank.py:93 | the median lies between the smallest and the largest present value |
| WorldBank.ImputeCells | COVID19/features/make_world_bank.py:93-100 | filling one column replaces its gaps by the column median and changes no other column |
| WorldBank.ImputeComplete | COVID19/features/make_world_bank.py:93-100 | after filling, a column with any present value has no gap left |
| WorldBank.ImputeAllComplete | COVID19/features/make_world_bank.py:93-100 | the three imputed columns have no gap wherever their column had a value |
| WorldBank.PerMln | COVID19/features/make_world_bank.py:102-104 | as written: times the population and a million, the figure gives back the count; missing iff a value is missing or the population is zero |
| WorldBank.PerMlnCounterexample | COVID19/features/make_world_bank.py:102 | a million cases in a million people read 10 ** -6 as written, where a million per million is meant |
| WorldBank.PerMlnTooSmall | COVID19/features/make_world_bank.py:102-104 | as written, the figure is 10 ** 12 times below the per-million rate |
| WorldBank.PerMillion | COVID19/features/make_world_bank.py:102-104 | corrected: times the population, the figure is a million times the count |
| WorldBank.PerMillionScales | COVID19/features/make_world_bank.py:102-104 | corrected: times the population in millions, the figure gives back the count |
| WorldBank.HeaderIsSortedColumns | COVID19/features/make_world_bank.py:109-113 | the output columns are the sorted columns minus the dropped ones |
| WorldBank.OutputsDescribe | COVID19/features/make_world_bank.py:86-113 | each output row keeps its country's fields, carries the per-mln figures as written (count / population / 10 ** 6), fills the three imputed columns from the column medians, and leaves no gap where its column has a value |
| WorldBank.MakeWorldBank | COVID19/features/make_world_bank.py:61-117 | one output row per surviving joined row, in order, each described by that row and the surviving rows' medians, with the per-mln figures computed as written |
| Viz.InsertDesc | COVID19/visualizations/covid_data_viz.py:393 | inserting into a descending ranking keeps it descending and adds exactly that row |
| Viz.SortDesc | COVID19/visualizations/covid_data_viz.py:393 | `sort_values(ascending=False)`: descending, missing values last, a permutation |
| Viz.PoolMembers | COVID19/visualizations/covid_data_viz.py:390-392 | a candidate is the country and statistic of a stats row with more than min_cases confirmed |
| Viz.RankingIsTop | COVID19/visualizations/covid_data_viz.py:390-396 | the ranking has `head(n)` rows of the candidates, descending, and every candidate ranking strictly above a row is listed before that row |
| Viz.SumByPermutation | COVID19/visualizations/covid_data_viz.py:86 | a sum over a list of names does not depend on their order |
| Viz.RowSumPermutation | COVID19/visualizations/covid_data_viz.py:86 | `sorted` on the countries does not change the summed row |
| Viz.RowSumConcat | COVID19/visualizations/covid_data_viz.py:92 | a sum over two lists of columns is the sum of the two sums |
| Viz.SumFrame | COVID19/visualizations/covid_data_viz.py:92-95 | the summed series with Date put back: one row per date of the table, the row sum on each |
| Viz.SumFrames | COVID19/visualizations/covid_data_viz.py:89-96 | the summed series of each table in turn |
| Viz.SumsMerged | COVID19/visualizations/covid_data_viz.py:98 | the outer merge of the summed series has the dates of any table, sorted, and column j holds table j's sum on each date |
| Viz.ContinentCountries | COVID19/visualizations/covid_data_viz.py:81-86 | the countries of the continent, sorted, a permutation of the merge's Country column |
| Viz.ContinentCountriesMembers | COVID19/visualizations/covid_data_viz.py:81-86 | a country is listed iff it has coordinates and a continents row naming that continent |
| Viz.CaseSums | COVID19/visualizations/covid_data_viz.py:89-96 | the loop completes iff every table has every country; else a KeyError names one a table lacks; the frames are the summed series |
| Viz.CovidDataViz.constructor | COVID19/visualizations/covid_data_viz.py:16-39 | keeps the tables; the country and continent lists are sorted and hold exactly the names present |
| Viz.CovidDataViz.SortCtryStats | COVID19/visualizations/covid_data_viz.py:382-398 | the columns Country and the statistic, and a top-n ranking of the candidates above min_cases |
| Viz.CovidDataViz.ListHighestMortality | COVID19/visualizations/covid_data_viz.py:41-54 | the top-n ranking on Mortality with the 5000 cut-off |
| Viz.CovidDataViz.GetMostCases | COVID19/visualizations/covid_data_viz.py:142-150 | the top-n ranking on one statistic with the 5000 cut-off |
| Viz.CovidDataViz.GetHighestMortality | COVID19/visualizations/covid_data_viz.py:126-140 | the top n_countries ranking on Mortality with min_cases as cut-off, columns Country and Mortality |
| Viz.CovidDataViz.GetCountryTs | COVID19/visualizations/covid_data_viz.py:56-72 | fails with the country's KeyError iff a table lacks it; else the four series merged on sorted distinct dates, column j the country's cells in table j, with no gap filled |
| Viz.CovidDataViz.GetWorldTs | COVID19/visualizations/covid_data_viz.py:104-124 | each table summed over all its countries per date, merged on the dates of any table, with Date after Confirmed |
| Viz.CovidDataViz.GetContinentTs | COVID19/visualizations/covid_data_viz.py:74-102 | fails with a KeyError for a country of the continent that a table lacks, iff one exists; else each table summed over the continent's countries per date, merged, Date first |

## Left out

- Reading and writing CSV files (`read_csv`, `to_csv`) and the main blocks: the tables are parameters and results.
- `download_data.py` and `make_all.py`, which fetch data and run the scripts.
- `pd.to_datetime`: dates are strings whose lexicographic order is the date order; no date arithmetic is needed.
- The `astype(int)` conversion in `process_data`: counts are already integers, and a gap-free sum never fails to convert.
- Cases.Subtract: pandas turns integer columns with gaps into floats; the model keeps integers with missing cells.
- Mortality.Rate: `np.round(..., 2)` is not modelled; the rate is the exact quotient.
- WorldBank.Median: the numeric value is the middle of the sorted present values; beyond lying between the smallest and the largest value, nothing more is proved about it.
- WorldBank.PerMln, WorldBank.PerMillion: a zero population gives a gap where pandas gives an infinity or NaN.
- World Bank years are integers, and `world_bank_codes.csv` is taken to hold exactly the columns Country Name and Country Code.
- The `print(world_bank.head())` call is output only.
- Viz.SortDesc: pandas' `sort_values` is not stable; the model promises only the order by value, not the order among equal values.
- Viz.Stat: ranking on the Country column (a `stat_name` of "Country") is not modelled; statistics are compared as reals, counts included.
- Viz.CovidDataViz: the class keeps only the tables its queries read. The daily-change, since-t0, mortality, country-to-continent and World Bank entries are loaded but never queried by the modelled methods.
- The plotting, correlation and regression methods of `CovidDataViz` (matplotlib, scipy, IPython display) are not part of this model.

## Findings

| source | as written | input that shows it | evidently intended | confidence | as-written member | corrected member |
|---|---|---|---|---|---|---|
| COVID19/features/make_world_bank.py:102-104 | `count / population / 10 ** 6` divides by a million a second time | 1000000 confirmed in a population of 1000000 gives 10 ** -6 | `count / population * 10 ** 6`, the count per million people | high, not executed | WorldBank.PerMlnCounterexample | WorldBank.PerMillionScales |
