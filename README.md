# ishiki-dash chart data, modelled in Dafny

The figures module of ishiki-dash turns two tables into chart data: a player table
(`player_name`, `player_label`, `joined_year`, `joined_league`, `cur_rookie_year`) and a
per-player, per-season stat table (`player_name`, `rookie_year`, `league_id`, `league`,
`minutes`, `apps`, `goals`). It builds four charts:

- **Play-time scatter** (`do_scatter_plot_play_time`). Each player gets its row position as
  index. Stat rows are joined to players by name. A stat row sits at height
  `4 * player_index + league_id`, so each player has a band of four units. The y axis runs
  from `4N` down to 0, with one tick per player at the middle of its band. The chart is
  `max(230, (N + 1) * 80)` pixels high. The chart-library call is retried once. The second
  failure is the library's own exception, re-raised; the bound is the constant 2.
- **Average scatter** (`do_scatter_plot_avg_play_time`). For each rookie year 1 to 7 it
  counts the players still active in that year: those whose current rookie year is that
  year or later, up to year 7; later years are not counted. It does this with a
  right-to-left cumulative sum, then drops the years with count 0. The suffix counts never
  increase, so the dropped zero years are always a trailing run (`Cohort.CohortsArePrefix`).
  Minutes, appearances and goals summed per `(rookie_year, league_id, league)`
  are divided by that count and drawn as the scatter of a pseudo-player "Avg.".
- **Minutes histogram** (`do_histogram_play_time`): one series per league id 1, 2, 3.
- **Player-count bars** (`do_bar_plot_player_count`): players counted per
  `(joined_year, joined_league)`.

Modules, leaf first:

- `Records`: the rows.
- `Grouping`: group-by with sizes.
- `Sums`: sums, reversal and cumulative sums.
- `Retry`: the bounded retry.
- `Scatter`.
- `Cohort`: the counts of active players.
- `Average`.
- `Histogram`.
- `BarChart`.

Plain data transformations are functions with lemmas. The loops of the source are methods
with loop invariants:

- the two-attempt retry;
- the loop that divides each averaged column;
- the loop that appends one histogram trace per league.

The chart library is given as a parameter `render: nat -> Attempt`: what its k-th call
does, render or raise. When a call renders, the figure is the chart data the model computes.

## Model

| member | source | states |
|---|---|---|
| Scatter.IndexPlayers | mydash/figures/__init__.py:17-19 | each player's index is its row position: the indices are exactly 0..N-1, strictly increasing, and row i keeps player i |
| Scatter.MatchesMembers | mydash/figures/__init__.py:20 | every joined row comes from a player of the stat row's name, and a stat row whose name is present joins at least once |
| Scatter.JoinIndexMembers | mydash/figures/__init__.py:20 | the inner join on `player_name` yields only stat rows tagged with the index of a player of that name, and keeps every stat row whose name is present |
| Scatter.JoinKeepsKnownRows | mydash/figures/__init__.py:17-20 | with unique player names the join keeps exactly the stat rows naming a known player, in order, each once |
| Scatter.JoinedIndexIsPosition | mydash/figures/__init__.py:17-20 | the index a stat row is joined to is the row position of a player with the row's name |
| Scatter.YInBand | mydash/figures/__init__.py:21 | for league ids 1..3, `y = 4i + league_id` lies strictly between 4i and 4i + 4 |
| Scatter.YInjective | mydash/figures/__init__.py:21 | two (player index, league id) pairs with league ids in 1..3 that share a y value are the same pair |
| Scatter.PointsInsideAxis | mydash/figures/__init__.py:20-50 | every marker lies strictly inside the y range `[4N, 0]`; it sits in the band of the player its stat row names, within one unit of that player's tick |
| Scatter.TicksMatchPlayers | mydash/figures/__init__.py:29-50 | y range is `(4N, 0)` and x range `(0.5, 7.5)`; the league order is J1, J2, J3; one tick per player in player order, at the middle of its band, labelled with its label; ticks strictly increase within `(0, 4N)` |
| Scatter.Height | mydash/figures/__init__.py:30 | the height is the larger of 230 and `(N + 1) * 80` |
| Scatter.HeightGrowth | mydash/figures/__init__.py:30 | the height never falls below 230, is 230 for at most one player, and grows by 80 per player from two players on |
| Retry.RenderWithRetry | mydash/figures/__init__.py:23-37 | the library is called once or twice; every call before the last one failed; the outcome is that of the last call; one call exactly when the first renders; the result is a rendering exactly when one of the two calls renders; a log entry exactly when both fail, and then the second failure is re-raised |
| Scatter.ScatterPlotPlayTime | mydash/figures/__init__.py:13-56 | at most two library calls, one exactly when the first renders; a chart exactly when one call renders, and then its markers are the joined rows at `y = 4i + league_id` and its layout is the axes, ticks and height above; otherwise both calls failed and the second failure is returned and logged |
| Grouping.Occurrences | mydash/figures/__init__.py:64 | a key is counted a positive number of times exactly when it is present, never more than the row count |
| Grouping.Distinct | mydash/figures/__init__.py:64 | the distinct keys are exactly the keys of the column, with no duplicate |
| Grouping.GroupSizes | mydash/figures/__init__.py:64 | one group per key present and none for an absent key, no key twice, each size positive and equal to the key's number of rows |
| Grouping.GroupSizesTotal | mydash/figures/__init__.py:64 | the group sizes add up to the number of rows |
| Grouping.GroupSizesLookup | mydash/figures/__init__.py:66-68 | the left merge with `fillna(0)` gives each key its number of rows, 0 when absent |
| Cohort.YearCounts | mydash/figures/__init__.py:64-68 | seven counts, one per rookie year 1..7, each the number of players whose current rookie year is that year (0 when none) |
| Sums.Reverse | mydash/figures/__init__.py:69 | the reversal has element `s[n-1-k]` at position k |
| Sums.CumSum | mydash/figures/__init__.py:69 | the running total at i is the sum of the first i + 1 elements |
| Sums.SuffixSum | mydash/figures/__init__.py:69 | reverse, cumulative sum, reverse: element k is the sum from k to the end |
| Cohort.SuffixCountIsStillActive | mydash/figures/__init__.py:64-69 | the count of year k is the number of players whose current rookie year lies in `[k, 7]`, so players outside 1..7 count nowhere |
| Cohort.YearCountsTotal | mydash/figures/__init__.py:64-68 | the per-year counts add up to the players with a rookie year in 1..7, which is all players when every year is in range |
| Cohort.SuffixCountsNonIncreasing | mydash/figures/__init__.py:69 | the cohort counts are non-negative and never increase with the rookie year |
| Cohort.KeepPositive | mydash/figures/__init__.py:70 | the filter keeps only rows of the input, each with a positive count |
| Cohort.KeepPositiveIsPrefix | mydash/figures/__init__.py:70 | on non-negative, non-increasing counts the filter keeps a prefix and drops only zeros |
| Cohort.CohortsArePrefix | mydash/figures/__init__.py:64-70 | the kept cohorts are years 1..m in order, each with its positive count; every dropped year has count 0 |
| Cohort.CohortLookup | mydash/figures/__init__.py:64-70 | a (year, count) row is kept exactly when the year is in 1..7 and the count is that year's positive cohort count |
| Average.GroupSums | mydash/figures/__init__.py:72-73 | one row per `(rookie_year, league_id, league)` present and none for an absent key, no key twice, each holding the column sums over the rows with that key |
| Average.CountMatchesMembers | mydash/figures/__init__.py:74 | a grouped row merges only with cohort rows of its rookie year, and with at least one when there is one |
| Average.JoinCountsMembers | mydash/figures/__init__.py:74 | the inner join yields only grouped rows with a cohort count of their year, and keeps every grouped row whose year has a cohort row |
| Average.JoinedCountsPositive | mydash/figures/__init__.py:64-76 | after the join every row's year is in 1..7 and its divisor is that year's positive cohort count; every grouped row of a year with a positive count is kept |
| Average.DivideColumn | mydash/figures/__init__.py:76 | one column of every row is divided by the row's `player_count`; key, count and the other columns are unchanged |
| Average.DivideByCount | mydash/figures/__init__.py:75-76 | after the loop every averaged column of every row is its sum divided by the row's `player_count`; key and count unchanged |
| Average.JoinSinglePlayer | mydash/figures/__init__.py:80-85 | against the one-player table every stat row naming it joins once, with index 0, in order |
| Average.AvgChartPoints | mydash/figures/__init__.py:78-87 | the average rows become one marker each, at height `league_id`, with the minutes per active player as the area |
| Average.JoinCountsExact | mydash/figures/__init__.py:64-74 | the grouped rows the inner join keeps are exactly those whose rookie year has a positive cohort count, in order, each once |
| Average.PositiveGroups | mydash/figures/__init__.py:70-74 | a grouped row is kept exactly when its rookie year is in 1..7 and has a positive count |
| Average.PositiveGroupsDistinct | mydash/figures/__init__.py:72-74 | keeping only some grouped rows keeps their keys distinct |
| Average.CountMatchesAtMostOnce | mydash/figures/__init__.py:74 | against cohort rows with distinct years, a grouped row joins once when its year has a cohort row and not at all otherwise |
| Average.CohortYears | mydash/figures/__init__.py:64-70 | the cohort rows have distinct rookie years; a year has a row exactly when it is in 1..7 with a positive count |
| Average.AvgGroupsOnce | mydash/figures/__init__.py:64-76 | the average chart draws each grouped row of a positive year once: the joined groups are those rows, in order, with distinct keys |
| Average.AvgLayout | mydash/figures/__init__.py:29-50 | the single pseudo-player's layout: one tick "Avg." at 2, y range `(4, 0)`, x range `(0.5, 7.5)`, league order J1, J2, J3, height 230 |
| Average.ScatterPlotAvgPlayTime | mydash/figures/__init__.py:59-90 | at most two library calls, one exactly when the first renders; on success the layout is that of the pseudo-player (`AvgLayout`) and there is one marker per joined row, whose groups are exactly the positive-year groups; each marker sits at `league_id` and is sized by the group minutes over the cohort count |
| Records.LeagueName | mydash/figures/__init__.py:101 | the series name of league id l is the l-th entry of the league order J1, J2, J3 |
| Histogram.LeagueRows | mydash/figures/__init__.py:100 | the selected rows are exactly the stat rows with that league id |
| Histogram.LeagueMinutes | mydash/figures/__init__.py:100 | the series is the minutes of the selected rows, one per row, in order |
| Histogram.HistogramPlayTime | mydash/figures/__init__.py:97-105 | three traces, for league ids 1, 2, 3 in that order, named J1, J2, J3, each holding its league's minutes, all with bins 0 to 3600 of width 100; x range `(0, 3600)` |
| Histogram.SeriesDisjoint | mydash/figures/__init__.py:98-100 | the rows of two different league ids have nothing in common |
| Histogram.SeriesCoverKnownLeagues | mydash/figures/__init__.py:98-100 | the three series together hold, as a multiset, exactly the minutes of the rows whose league id is 1, 2 or 3 |
| BarChart.PlayerCountsExact | mydash/figures/__init__.py:117-118 | every bar is a key some player has, with its positive number of players; every player's key has a bar; no key has two |
| BarChart.PlayerCountsTotal | mydash/figures/__init__.py:117-118 | the bar counts add up to the number of player rows |
| BarChart.BarPlotPlayerCount | mydash/figures/__init__.py:117-121 | the bars are the group counts and add up to the number of players; league order J1, J2, J3; x range `(2014.5, 2021.5)` |

## Left out

- Column checks (`assert_columns`): `mydash/utils/common` is not part of this model. The rows are records, so a missing column cannot occur.
- Chart-library internals: figure construction, colours (`DEFAULT_PLOTLY_COLORS`), titles, hover formats and `hover_data`, `sizemode`/`sizeref`, `bargap`/`bargroupgap`. These are calls into code outside the repository.
- Histogram bucketing: which bin a value falls into is decided inside the chart library. Only the bin parameters and the per-league series are modelled.
- Logging: `LOGGER.info` is left out. `LOGGER.exception` is reduced to the flag `logged`; the logged text is not modelled.
- Floating point: `minutes`, `apps` and `goals` are exact reals, and the division at line 76 is exact real division.
- Row order of group-by results: pandas sorts group keys, while `Grouping.Distinct` keeps first-appearance order. The cohort counts are re-indexed onto years 1..7, so they do not depend on this. The group sums and bar counts hold the same rows in another order, and the markers and bars drawn do not depend on it.
- Row order within a merge: joins keep the order of the left table's rows. In a row-level join with duplicate keys, pandas may group rows by key differently.
- The `#players` rename at line 83: it only feeds hover text. The averaged stat rows do not carry `player_count`.
- The aliasing of `d_stats_df` and `agg_stats_df` at lines 81-82: the model assigns the name column on a new sequence.
- Scatter.JoinKeepsKnownRows: proved only for unique player names, which the player table promises. With repeated names the join repeats the stat row, and `Scatter.MatchesMembers` states only that each such row joins at least once.
- Scatter.PointsInsideAxis: requires league ids in 1..3, the stat table's documented domain. The code puts any other id outside the player's band.
