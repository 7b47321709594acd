# USIM5 period analysis, modelled in Dafny

This project models the analysis logic in `streamlit_app.py`, a Streamlit
dashboard for the Brazilian stock USIM5. It covers everything between the
downloaded price history and the rendered panels. The dashboard does the
following:

- It appends a bar for today: the last downloaded row, re-dated to today.
- It builds the option-expiration calendar: the third Friday of every month,
  from two months before the first bar's month up to one or two months after
  the last bar's month.
- It tags every daily bar with three ids: its Saturday-to-Friday week, its
  monthly cycle (between consecutive expirations) and its bimonthly cycle
  (between every other expiration).
- It drops the bars that get no monthly or no bimonthly cycle.
- For each kind of period it groups the rows into a period table. Each line
  holds open, high, low, close, first and last day, plus five derived
  variations.
- It computes per-bracket statistics of a period table. Brackets are
  opening-price brackets, and a bracket needs more than ten lines. The
  statistics are four range widths from quantiles of the net change, and
  eight reversal shares with their two means.
- For each kind of period it evaluates a panel: the period holding today,
  its bracket, and the alert that compares the move so far with the
  bracket's mean moves.

Files and modules:

| file | module | what it holds |
|---|---|---|
| `options.dfy` | `Options` | `Option`, which stands for pandas' missing value |
| `dates.dfy` | `Dates` | Python's `date.toordinal()` day numbers, weekdays, month indices, the third Friday of a month |
| `expirations.dfy` | `ExpirationCalendar` | `gerar_vencimentos`: the month walk as a `while` loop, proved against a function |
| `bars.dfy` | `Bars` | daily bars, their first and last day and their extremes, the synthetic bar for today |
| `segmentation.dfy` | `Segmentation` | `pd.cut(..., right=False)`, the `W-FRI` week, the bimonthly labelling loop, the tagging and the drop |
| `aggregation.dfy` | `Aggregation` | `calcular_resumo_periodo`: grouping, summary lines, the period table |
| `quantiles.dfy` | `Quantiles` | `Series.quantile` with linear interpolation |
| `statistics.dfy` | `Statistics` | `calcular_estatisticas` (the bracket loop as a `for` loop) and `get_faixa_preco` |
| `alerts.dfy` | `Alerts` | `exibir_painel_periodo` without rendering: a pure function that returns an explicit panel state |
| `pipeline.dfy` | `Pipeline` | the main flow (lines 230-257) and the end-to-end properties |

Modelling conventions:

- **Dates** are `Date(year, month, day)` values, compared through their
  day number.
- **Period ids** are integers:
  - the week is the day number of the Friday that closes it;
  - the monthly and bimonthly cycles are the index of their `pd.cut` bin.
- **Prices** are `real`.
- **Today** is a parameter.

Details of the code that the model keeps:

- The calendar starts two months before the first bar's month (lines
  38-43): the date is shifted to day 1, moved back 35 days, and shifted to
  day 1 again.
- The calendar ends one or two months after the last bar's month, whichever
  the 60-day horizon of line 45 allows.
- The bracket filter `min <= open <= max` of line 119 is closed at both
  ends.
- The bar for today copies the whole last row: open, high, low and close
  (lines 235-237).
- Today's bar takes part in the period tables and in the statistics like
  any other row (lines 240-255).
- The main flow uses `vencimentos[::2]` as the bimonthly boundaries (line
  70). The same flow over corrected boundaries is modelled beside it
  (`ClosedRowsOf`, `ClosedReportOf`, `ClosedDashboard`); see Findings.

## Model

| member | source | states |
|---|---|---|
| Dates.ThirdFriday | streamlit_app.py:46-50 | the computed date is a valid date of month k, on its 15th to 21st day, and a Friday: the month's third Friday |
| Dates.FridayShift | streamlit_app.py:49-50 | `(4 - weekday + 7) % 7` days later is a Friday at most six days on, and two weeks after that is again a Friday |
| Dates.MonthContaining | streamlit_app.py:38-39 | `replace(day=1)` finds the month whose span holds the day |
| Dates.MonthContainingUnique | streamlit_app.py:38-39 | only one month's span holds a given day |
| Dates.MonthContainingMonotone | streamlit_app.py:38-39 | a later day never lies in an earlier month |
| Dates.FirstOfMonthIncreasing | streamlit_app.py:55-58 | each later month starts at least 28 days after an earlier one |
| Dates.ThirtyFiveDaysBack | streamlit_app.py:38-43 | going back 35 days from the first of start's month and shifting to day 1 gives the month two months before start's month |
| ExpirationCalendar.GenerateExpirations | streamlit_app.py:35-60 | the returned list equals the calendar function; it is strictly increasing; entry i is a Friday on the 15th to 21st day of the i-th month from start's month minus two |
| ExpirationCalendar.Expirations | streamlit_app.py:35-60 | the calendar function: third Fridays of the months from start's month minus two while the month begins at most 60 days after end's month; no ensures of its own, its properties are ExpirationsAreThirdFridays, ExpirationsChronological, ExpirationsCoverRange, CalendarEnds and CalendarSpans |
| ExpirationCalendar.FirstMonth | streamlit_app.py:38-43 | the month the walk starts in; no ensures of its own, ThirtyFiveDaysBack proves it is start's month minus two |
| ExpirationCalendar.Horizon | streamlit_app.py:45 | the loop bound: 60 days after the first day of end's month; a constant offset with no ensures |
| ExpirationCalendar.ExpirationsFrom | streamlit_app.py:46-52 | the third Fridays of n consecutive months: n valid dates, entry i being month k+i's third Friday |
| ExpirationCalendar.WalkMonths | streamlit_app.py:45-58 | the loop, with its December-to-January roll-over, lists the third Fridays of exactly the months starting on or before the horizon |
| ExpirationCalendar.WalkStep | streamlit_app.py:51-52 | the `not in` check never rejects a date: each new third Friday is not yet listed |
| ExpirationCalendar.MonthsUpToBounds | streamlit_app.py:45 | the first month not walked starts after the horizon |
| ExpirationCalendar.MonthsUpToWithin | streamlit_app.py:45 | every walked month starts on or before the horizon |
| ExpirationCalendar.ExpirationsChronological | streamlit_app.py:60 | the walked list is strictly increasing, so `sorted` returns it unchanged |
| ExpirationCalendar.ExpirationsAreThirdFridays | streamlit_app.py:46-52 | every entry is a Friday on the 15th to 21st day of consecutive months from start's month minus two |
| ExpirationCalendar.ThirdFridayIncreasing | streamlit_app.py:46-50 | a later month's expiration is a later day |
| ExpirationCalendar.CalendarEnds | streamlit_app.py:45 | the walk ends with the month after end's month or the one after that |
| ExpirationCalendar.ExpirationsCoverRange | streamlit_app.py:41-45 | for start <= end: at least four expirations; the first is that of start's month minus two and falls before start; the last is that of end's month plus one or two and falls after end |
| ExpirationCalendar.CalendarSpans | streamlit_app.py:41-45 | the calendar is chronological, has at least two entries and encloses both end days |
| Bars.FirstDay | streamlit_app.py:239 | `index.min()`: no bar is earlier and some bar has that day |
| Bars.LastDay | streamlit_app.py:239 | `index.max()`: no bar is later and some bar has that day |
| Bars.MaxHigh | streamlit_app.py:92 | the maximum of the highs is attained and bounds every high |
| Bars.MinLow | streamlit_app.py:93 | the minimum of the lows is attained and bounds every low |
| Bars.WithTodayBar | streamlit_app.py:235-237 | the downloaded bars, followed by a copy of the last bar dated today |
| Bars.TodayBarIsLatest | streamlit_app.py:235-239 | with no bar after today, the extended history ends today and starts on the first downloaded day |
| Bars.TodayBarDuplicatesDate | streamlit_app.py:235-237 | when the download already holds today's bar, the extended history holds two bars dated today |
| Bars.TodayBarKeepsOrder | streamlit_app.py:235-237 | a download in day order with no bar after today stays in day order once today's bar is appended |
| Segmentation.Cut | streamlit_app.py:68 | a bin index is always the index of an interval between two edges |
| Segmentation.CutInterval | streamlit_app.py:68 | over increasing edges, x is in bin i exactly when e[i] <= x < e[i+1]; there is no bin exactly when x is before the first edge or at or after the last one |
| Segmentation.CountAtMostPrefix | streamlit_app.py:68 | over increasing edges the edges at most x are exactly a prefix |
| Segmentation.WeekEnding | streamlit_app.py:64 | the `W-FRI` period of a day is closed by a Friday from the day to six days later |
| Segmentation.WeekEndingUnique | streamlit_app.py:64 | that Friday is the only Friday in those seven days |
| Segmentation.SameWeek | streamlit_app.py:64 | two days share a week exactly when the second lies in the seven days ending at the first one's Friday |
| Segmentation.EveryOther | streamlit_app.py:70 | `v[::2]`: (n+1)/2 entries, entry i being v[2i] |
| Segmentation.BimonthlyBins | streamlit_app.py:70 | the bimonthly bins as written, `v[::2]`; no ensures of its own, see EveryOther and EvenCalendarLosesLastInterval |
| Segmentation.Tag | streamlit_app.py:64-81 | the three ids of one bar (its W-FRI week, its monthly and its bimonthly bin), or nothing when either cycle is NA; no ensures of its own, its meaning is stated by SegmentedMembership and SegmentedIds |
| Segmentation.BimonthlyLabels | streamlit_app.py:71-79 | the loop yields min(len(bins)-1, len(v)/2) labels, label i made from expirations 2i and 2i+1 |
| Segmentation.BimonthlyLabelAt | streamlit_app.py:76-79 | the label of bimonthly interval i: the months of expirations 2i and 2i+1 and the year of the second; a constructor call with no ensures |
| Segmentation.OneLabelPerInterval | streamlit_app.py:72-75 | on a calendar of at least two dates the guard never fails: one label per bimonthly interval, for both kinds of bins |
| Segmentation.LabelsDistinct | streamlit_app.py:67-79 | the monthly and the bimonthly labels of a consecutive-month calendar are pairwise distinct |
| Segmentation.Segmented | streamlit_app.py:84 | the drop never adds rows, and the surviving rows keep the order of their bars (their bars are a subsequence of the history) |
| Segmentation.ProcessPeriods | streamlit_app.py:62-84 | `processar_dados_com_periodos` over the calendar and the given bimonthly bins: at most one row per bar, and the rows' bars are a subsequence of the history; which bars survive and with which ids is stated by SegmentedMembership and SegmentedIds |
| Segmentation.SegmentedMembership | streamlit_app.py:68-84 | the drop is global: a bar keeps its row exactly when it has both cycles, whatever its week id; every row comes from such a bar |
| Segmentation.SegmentedIds | streamlit_app.py:64-84 | each row belongs to one of the bars, and its ids are that bar's closing Friday and the two bins holding its day |
| Segmentation.SegmentedKeepsOrder | streamlit_app.py:84 | bars in day order give rows in day order |
| Segmentation.UntaggedBarDropped | streamlit_app.py:84 | a bar lacking a cycle leaves no row |
| Segmentation.EvenCalendarLosesLastInterval | streamlit_app.py:70-81 | with an even number of expirations, a day on or after the second-to-last one gets no bimonthly cycle |
| Segmentation.CalendarEndsAfterOneMonth | streamlit_app.py:45 | the walk stops after end's month plus one exactly when end's month and the next together have more than 60 days, and after end's month plus two exactly when they have at most 60 |
| Segmentation.LastBarOfMayDropped | streamlit_app.py:70-84 | bars from a day in March up to May 31st give six expirations, and May 31st gets no bimonthly cycle |
| Segmentation.MayCalendar | streamlit_app.py:45 | that calendar walks January to June and May's expiration falls on or before May 31st |
| Segmentation.MarchToMay | streamlit_app.py:38-39 | a March day lies two months before May 31st, the 31st day of its month |
| Segmentation.ClosedBimonthlyBins | streamlit_app.py:70 | corrected bins: `v[::2]`, plus the last expiration when `v[::2]` leaves it out; same first and last entry as the calendar |
| Segmentation.ClosedBinsKeepEveryBar | streamlit_app.py:68-84 | with the corrected bins every day from the first expiration up to the last gets both cycles |
| Aggregation.KeyOf | streamlit_app.py:90 | the id column `id_periodo` a table is grouped by: week, monthly or bimonthly cycle; a selector with no ensures |
| Aggregation.Group | streamlit_app.py:90 | a group holds exactly the rows with that id, in table order (a subsequence of the rows) |
| Aggregation.GroupWithoutKey | streamlit_app.py:90 | rows without the id form an empty group |
| Aggregation.GroupStartsAtFirstRow | streamlit_app.py:90-91 | a group starts with the first row holding its id, the row `first` takes |
| Aggregation.GroupEndsAtLastRow | streamlit_app.py:90-94 | a group ends with the last row holding its id, the row `last` takes |
| Aggregation.GroupOpens | streamlit_app.py:91-95 | over rows in day order, a group's summary opens at its first row, which is dated on the summary's first day |
| Aggregation.GroupCloses | streamlit_app.py:94-96 | over rows in day order, a group's summary closes at its last row, which is dated on the summary's last day |
| Aggregation.Derive | streamlit_app.py:98-102 | the five variations, with rise = pullback + net change and fall = recovery - net change |
| Aggregation.Aggregate | streamlit_app.py:89-102 | a line has the group's first open and last close, a start day no later than its end day, and consistent variations |
| Aggregation.AggregateBounds | streamlit_app.py:92-96 | the line's high, low, first and last day are the extremes of its rows, each attained by one of them |
| Aggregation.AggregateNonNegative | streamlit_app.py:98-101 | for bars whose open and close lie in their range, the four variations are never negative |
| Aggregation.Insert | streamlit_app.py:90 | inserting an id into an increasing id list keeps it increasing, with exactly the old ids plus the new one |
| Aggregation.SortedKeys | streamlit_app.py:90 | `groupby` lists each distinct id of the rows once, in increasing order |
| Aggregation.Lines | streamlit_app.py:90-97 | one line per given id, each the summary of that id's rows |
| Aggregation.PeriodTable | streamlit_app.py:87-103 | the table has increasing ids; each line summarises the non-empty group of its id; every row's id has a line |
| Aggregation.IncreasingUnique | streamlit_app.py:90 | two increasing lists with the same elements are equal |
| Aggregation.PeriodTableUnique | streamlit_app.py:87-103 | those table properties fix the table uniquely |
| Aggregation.KeysIncluded | streamlit_app.py:90 | two tables of the same rows have the same ids |
| Aggregation.RowWithinItsPeriod | streamlit_app.py:95-96 | every row lies, by day, within the line of its own id |
| Aggregation.GroupSpansRow | streamlit_app.py:95-96 | a group's line spans the day of each of its rows |
| Aggregation.LineOpensWithFirstRow | streamlit_app.py:89-97 | over rows in day order, each line of the period table opens at the open of the first row of its period, dated on the line's first day |
| Aggregation.LineClosesWithLastRow | streamlit_app.py:89-97 | over rows in day order, each line of the period table closes at the close of the last row of its period, dated on the line's last day |
| Quantiles.Insert | streamlit_app.py:124 | inserting into a sorted list keeps it sorted and is a permutation of the list plus the value |
| Quantiles.Sort | streamlit_app.py:124 | the sorted values are a sorted permutation |
| Quantiles.Position | streamlit_app.py:124 | the interpolation position (n-1)p lies in [0, n-1] |
| Quantiles.PositionMonotone | streamlit_app.py:124-127 | a larger p gives a later position |
| Quantiles.LerpBetween | streamlit_app.py:124 | interpolation stays between its end points and grows with t |
| Quantiles.ValueAround | streamlit_app.py:124 | the interpolated value lies between the order statistics around its position |
| Quantiles.QuantileBounds | streamlit_app.py:124-127 | a quantile lies between the least and the greatest sample, both attained |
| Quantiles.QuantileAtOrderStatistic | streamlit_app.py:124-127 | at an exact position i the quantile is the i-th order statistic |
| Quantiles.QuantileMonotone | streamlit_app.py:124-127 | quantiles grow with p |
| Quantiles.ValueAtMonotone | streamlit_app.py:124 | the interpolated value grows with the position |
| Quantiles.Quantile | streamlit_app.py:124 | `Series.quantile`: linear interpolation between the order statistics around (n-1)p; no ensures of its own, its properties are QuantileBounds, QuantileAtOrderStatistic and QuantileMonotone |
| Quantiles.ValueAt | streamlit_app.py:124 | the value at a fractional position of sorted samples; no ensures of its own, see ValueAround and ValueAtMonotone |
| Statistics.Classify | streamlit_app.py:145-151 | `get_faixa_preco` is total and agrees with every bracket whose filter admits the price |
| Statistics.InBracket | streamlit_app.py:119 | the closed filter min <= opening <= max of one bracket; a predicate with no ensures, used by BracketLinesMembers and FilterGaps |
| Statistics.Lower | streamlit_app.py:107-113 | the lower bound of each bracket's filter (0, 3.51, 6.01, 8.01, 10.01); constants with no ensures |
| Statistics.Upper | streamlit_app.py:107-113 | the upper bound of each bracket's filter (3.50, 6.00, 8.00, 10.00, 999); constants with no ensures |
| Statistics.ClassifyMonotone | streamlit_app.py:145-151 | a higher price never gets a lower bracket |
| Statistics.FilterGaps | streamlit_app.py:107-119 | prices strictly between two brackets' bounds, below 0 or above 999 pass no filter, and the classifier still gives them a bracket |
| Statistics.BracketLines | streamlit_app.py:119 | the filter keeps no more lines than the table has; which lines, how often and in which order is stated by BracketLinesMembers and BracketLinesMultiset |
| Statistics.BracketLinesMembers | streamlit_app.py:119 | a line is among the filtered lines exactly when it is among the table's and its opening passes the bracket's filter |
| Statistics.BracketLinesMultiset | streamlit_app.py:119-138 | the filtered lines hold each qualifying line of the table exactly as often as the table does, and none other, in table order; so the count tested at line 121 and the samples of lines 124-138 are those lines |
| Statistics.Deltas | streamlit_app.py:122 | the `Delta_Rs` column |
| Statistics.BandWidth | streamlit_app.py:124-127 | the width is never negative, holds both quantiles in [-w, w], and equals the absolute value of one of them |
| Statistics.BandWidthMonotone | streamlit_app.py:124-127 | a wider pair of quantiles never gives a narrower band |
| Statistics.BandHoldsCentralDeltas | streamlit_app.py:124-127 | every net change between the two quantiles lies in the band |
| Statistics.Ranges | streamlit_app.py:123-128 | the 60, 70, 75 and 80 per cent widths are never negative and never decrease |
| Statistics.CountPullbacks | streamlit_app.py:131-134 | the count of pulled-back lines is at most the number of lines |
| Statistics.CountRecoveries | streamlit_app.py:135-138 | the count of recovered lines is at most the number of lines |
| Statistics.Share | streamlit_app.py:131-138 | a count divided by the line count lies in [0, 1] |
| Statistics.ReversalsOf | streamlit_app.py:130-141 | all ten entries are shares in [0, 1], and each mean is the mean of its four shares |
| Statistics.CountPullbacksMonotone | streamlit_app.py:131-134 | over lines with rises that are not negative, a larger fraction is passed by fewer lines |
| Statistics.CountRecoveriesMonotone | streamlit_app.py:135-138 | over lines with falls that are not negative, a larger fraction is passed by fewer lines |
| Statistics.ReversalsMonotone | streamlit_app.py:131-138 | the 20, 30, 40 and 50 per cent shares never increase, when no rise (resp. fall) is negative |
| Statistics.ComputeStatistics | streamlit_app.py:105-143 | a bracket is in both tables exactly when more than ten lines pass its filter, and then maps to the widths and the reversal shares of exactly those lines |
| Statistics.TableUpTo | streamlit_app.py:118-141 | the dicts after the loop has visited the first i brackets, each bracket with more than `MinimumPeriods` (10, line 121) lines mapped to its lines' statistics; no ensures of its own, see TableEntry and StatisticsTables |
| Statistics.BracketLoop | streamlit_app.py:118-141 | the loop over the five brackets in order builds the tables the recursive table definition describes |
| Statistics.StatisticsTables | streamlit_app.py:118-143 | those tables list exactly the brackets with more than ten lines, each with its own lines' statistics |
| Statistics.TableEntry | streamlit_app.py:118-141 | after i brackets, bracket b is listed exactly when it is among the first i and has more than ten lines, and maps to the statistic of its lines |
| Alerts.Covers | streamlit_app.py:161 | the filter `Data_Inicio <= hoje <= Data_Fim` of one line; a predicate with no ensures, used by FirstActiveFrom and FirstActive |
| Alerts.FirstActiveFrom | streamlit_app.py:161-167 | the first line from k on whose period holds today, or none when none does |
| Alerts.FirstActive | streamlit_app.py:161-167 | `periodo_atual.iloc[0]`: none exactly when no line holds today, otherwise the first line that does |
| Alerts.SinceStart | streamlit_app.py:194 | exactly the rows dated from the period's start to today |
| Alerts.Baseline | streamlit_app.py:205 | exactly the table's lines whose opening `get_faixa_preco` puts in the bracket |
| Alerts.BaselineMultiset | streamlit_app.py:205-207 | the alert's history holds each line that `get_faixa_preco` puts in the bracket exactly as often as the table does, and none other, in table order; so the means of lines 206-207 average over exactly those lines |
| Alerts.UpMoves | streamlit_app.py:206 | the `Var_Alta_Rs` column |
| Alerts.DownMoves | streamlit_app.py:207 | the `Var_Baixa_Rs` column |
| Alerts.SumBounds | streamlit_app.py:206-207 | a sum of n values within [lo, hi] lies within [n lo, n hi] |
| Alerts.Mean | streamlit_app.py:206-207 | `.mean()` of a non-empty column; no ensures of its own, its bounds are MeanBounds |
| Alerts.MeanBounds | streamlit_app.py:206-207 | a mean lies within any bounds of its values |
| Alerts.Decide | streamlit_app.py:211-227 | high alert exactly when the rise reaches the mean rise; low alert exactly when it does not and the fall reaches the mean fall; otherwise none; each alert carries the matching mean share |
| Alerts.Assess | streamlit_app.py:190-224 | no history exactly when the bracket has no reversal entry; awaiting a bar exactly when no row is dated from the start to today; otherwise the rise and fall are the attained extremes since the start, the mean rise and fall are the means over all lines of the bracket, with the days left up to the period's end and the decided signal |
| Alerts.ExtremesSinceStart | streamlit_app.py:199-200 | the highest high and lowest low since the start bound every such row and are attained |
| Alerts.EvaluatePanel | streamlit_app.py:156-227 | no active period exactly when no line holds today; otherwise the first line holding today gives the opening and the check, with its bracket, widths exactly when the bracket has ranges, no history exactly when it has no reversals |
| Alerts.BaselineIncludesCurrent | streamlit_app.py:205 | the alert's history includes the current period itself |
| Alerts.AverageWithinHistory | streamlit_app.py:205-207 | the mean rise and fall lie within any bounds of the bracket's lines |
| Alerts.GapOpeningOutsideStatistics | streamlit_app.py:119-205 | an opening in a filter gap is left out of its bracket's statistics yet counted in the alert's history |
| Alerts.LineEndsAreRowDays | streamlit_app.py:95-96 | a line's first and last day are days of its rows |
| Alerts.NeverAwaitingFirstBar | streamlit_app.py:194-197 | over a period table of the same rows, the "waiting for the first trading day" branch is never taken |
| Alerts.ActiveLineEndsToday | streamlit_app.py:161-209 | when rows reach today but not beyond, some line holds today and the first one ends today |
| Alerts.TodayEndsActivePeriod | streamlit_app.py:161-216 | then the panel is active, not awaiting a bar, and reports zero days left |
| Alerts.NoRowTodayNoActivePeriod | streamlit_app.py:160-165 | over a period table of rows all dated before today, the panel has no active period |
| Pipeline.LabelsOf | streamlit_app.py:71-79 | the labels the labelling loop produces |
| Pipeline.LabelsAgree | streamlit_app.py:71-79 | labels of that count and content are those labels |
| Pipeline.ShowPanel | streamlit_app.py:243-255 | tables, statistics and panel for one kind of period equal the panel function |
| Pipeline.PanelOf | streamlit_app.py:243-255 | one panel: the period table of the rows, its ranges and reversal tables, and the evaluated panel; no ensures of its own, its properties are PanelNeedsElevenPeriods, PanelEndsToday and PanelInactive |
| Pipeline.ReportOver | streamlit_app.py:239-255 | calendar, labels and three panels over given bimonthly boundaries, the body shared by both flows; no ensures of its own, see DashboardPanels and ClosedDashboardPanels |
| Pipeline.RowsOf | streamlit_app.py:239-240 | as written: the rows of the extended history over its calendar and `v[::2]`; no ensures of its own, see RowsAreBars, RowsUpToToday, RowsInDayOrder and AsWrittenDropsLastBar |
| Pipeline.ClosedRowsOf | streamlit_app.py:239-240 | corrected flow: the same rows over the closed boundaries; no ensures of its own, see EveryBarKept and TodayRowKept |
| Pipeline.ReportOf | streamlit_app.py:239-255 | as written: calendar, labels over `v[::2]` and the three panels of the extended history; no ensures of its own, see DashboardPanels |
| Pipeline.ClosedReportOf | streamlit_app.py:239-255 | corrected flow: the same report over the closed boundaries; no ensures of its own, see ClosedDashboardPanels |
| Pipeline.Dashboard | streamlit_app.py:231-257 | as written: nothing for an empty download, else the report of the history extended by today's bar; no ensures of its own, see DashboardPanels and AsWrittenPanelsInactive |
| Pipeline.ClosedDashboard | streamlit_app.py:231-257 | corrected flow: the same over the closed boundaries; no ensures of its own, see ClosedDashboardPanels and PanelsEndToday |
| Pipeline.Analyse | streamlit_app.py:231-257 | as written: no report exactly when the download is empty, otherwise the report of the history extended by today's bar over `v[::2]` |
| Pipeline.CalendarOf | streamlit_app.py:70-79 | as written: the walked calendar and the labels of the loop over `v[::2]` |
| Pipeline.BuildReport | streamlit_app.py:239-255 | as written: calendar, ids over `v[::2]` and three panels equal the report function |
| Pipeline.TaggedWithin | streamlit_app.py:68-84 | corrected flow: a bar within the calendar's span gets both cycles of the closed boundaries |
| Pipeline.RowsAreBars | streamlit_app.py:84 | over any bimonthly boundaries, every row belongs to a bar of the history |
| Pipeline.BarKept | streamlit_app.py:84 | corrected flow: a bar within the calendar's span keeps a row |
| Pipeline.CalendarSpansBars | streamlit_app.py:239 | the calendar of a history encloses its first and last day |
| Pipeline.EveryBarKept | streamlit_app.py:239-240 | corrected flow: every bar of the history keeps a row |
| Pipeline.AsWrittenDropsLastBar | streamlit_app.py:70-84 | with the bins as written, a history from a March day up to May 31st keeps no row dated May 31st |
| Pipeline.RowsUpToToday | streamlit_app.py:235-240 | over any bimonthly boundaries, with no bar after today, every row is dated on or before today |
| Pipeline.RowsInDayOrder | streamlit_app.py:235-240 | over any bimonthly boundaries, a download in day order with no bar after today gives rows in day order |
| Pipeline.TodayRowKept | streamlit_app.py:235-240 | corrected flow: with no bar after today, every row is dated on or before today and today's bar keeps its row |
| Pipeline.DashboardPanels | streamlit_app.py:243-255 | as written: a non-empty download gives a report whose panels are those of its rows over `v[::2]` |
| Pipeline.ClosedDashboardPanels | streamlit_app.py:243-255 | corrected flow: the same over the closed boundaries |
| Pipeline.PanelsEndToday | streamlit_app.py:235-255 | corrected flow: with no bar after today, all three panels are active, never await a bar, and report zero days left |
| Pipeline.HistoryPanelEndsToday | streamlit_app.py:235-255 | corrected flow: the same for one kind of period |
| Pipeline.PanelEndsToday | streamlit_app.py:161-216 | the panel over rows reaching exactly today ends today |
| Pipeline.PanelInactive | streamlit_app.py:160-165 | a panel over rows all dated before today has no active period |
| Pipeline.AsWrittenPanelsInactive | streamlit_app.py:160-165 | as written: a download from a March day up to May 31st, viewed on May 31st, gives three panels with no active period |
| Pipeline.PanelNeedsElevenPeriods | streamlit_app.py:121-192 | an active panel shows widths, and evaluates its alert, exactly when more than ten lines pass its bracket's filter; it reports insufficient history exactly when ten or fewer do; the widths are those lines' |
| Pipeline.PanelNeverAwaitsFirstBar | streamlit_app.py:194-197 | an active panel never lacks a daily row for its period, so it either reports insufficient history or evaluates its alert |

## Left out

- `carregar_dados` (lines 22-32) is not modelled. It downloads five years of
  bars over the network and renames the columns. The history and today's date
  are parameters.
- The caching decorators (lines 22 and 34) are not modelled. `st.cache_data`
  does not hash parameters whose names start with `_`, so a cached
  `gerar_vencimentos` can return the calendar of an earlier day. The model
  recomputes the calendar on every call.
- Rendering is not modelled: page set-up, headers, columns, text formatting
  and the interval text of line 182. The panel value holds what is shown.
- The `try`/`except` of lines 231 and 259-261 is not modelled, because the
  model has no exceptions.
- Column names and the index name are not modelled. Line 236 gives the
  re-dated bar an index built from a list, which has no name. `pd.concat`
  keeps an index name only when all the indices agree on it, so the
  extended history's index has no name. `reset_index` (line 89) then names
  the date column `index`, not `Date`. The aggregation `('Date', 'min')` of
  line 95 raises `KeyError`, and the handler of lines 259-261 shows the
  error message instead of any panel. The model assumes the date column
  keeps its name, so it describes what the tables and panels would be.
- The clock is read more than once: at line 236 for today's bar and again
  at line 160 in each of the three panels. The model uses one `today` for
  all four reads. Alerts.TodayEndsActivePeriod and Pipeline.PanelsEndToday
  depend on those reads agreeing, which fails when the run crosses
  midnight.
- Floating point is not modelled: prices, shares and quantiles use exact
  `real` arithmetic.
- Period labels are not modelled as strings. Week ids are the day number of
  the closing Friday, not the `W-FRI` period string. Cycle ids are bin
  indices, not `strftime` texts. Bimonthly labels carry month numbers, not
  `%b` names.
- Rows of empty categories are not modelled. `groupby` on a categorical
  column also lists categories without rows, with missing values. Those
  rows never pass a bracket filter, never hold today, and are skipped by
  `mean()`, so they change no result.
- Segmentation.Segmented: its own contract states the length bound and the
  order of the surviving bars; which rows survive is stated in
  Segmentation.SegmentedMembership.
- Statistics.BracketLines: its own contract states only the length bound;
  membership is stated in Statistics.BracketLinesMembers, and multiplicity
  and order in Statistics.BracketLinesMultiset.
- Aggregation.Aggregate: its own contract leaves out the high, the low and
  the days; Aggregation.AggregateBounds states them.
- Quantiles.Quantile, Quantiles.ValueAt and Alerts.Mean carry no ensures.
  Their properties are the lemmas Quantiles.QuantileBounds,
  Quantiles.QuantileMonotone, Quantiles.QuantileAtOrderStatistic and
  Alerts.MeanBounds.
- Bars.Consistent: the program never checks that open and close lie within
  the low and the high. The properties that need it take it as a
  precondition.

## Findings

| source | as written | input that shows it | evidently intended | confidence | as-written member | corrected member |
|---|---|---|---|---|---|---|
| streamlit_app.py:70 | `bins_bimestrais = vencimentos[::2]` stops at the second-to-last expiration when the calendar has an even number of entries, so bars on or after it get no bimonthly cycle and line 84 drops them from every table, including today's bar; with no row dated today, no period of any kind holds today (Pipeline.AsWrittenDropsLastBar) | a download from any day in March up to May 31st, viewed on May 31st: six expirations (January to June), the May 31st bar, after May's expiration, is dropped, and all three panels wait for the next period | the bimonthly bins close with the last expiration, like the monthly bins, so that every bar within the calendar keeps its row and each panel shows the period holding today (Pipeline.PanelsEndToday) | not executed | Pipeline.AsWrittenPanelsInactive | Segmentation.ClosedBinsKeepEveryBar |
