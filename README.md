# Duration analyses of daily hydrologic series — a Dafny model

This project models the computational core of *duration_analyses*, a set of
Python scripts that analyse daily hydrologic records (inflow, stage, snow
water equivalent, precipitation) to find how long high flows last and how
much volume they carry. The model covers:

- **threshold events**: the day-by-day scan that turns a daily series into
  a table of events above a threshold (start, end, month, duration, peak);
- **critical-duration statistics**: screening of the events and their
  arithmetic, peak-weighted and duration-weighted averages, plus the monthly
  event counts;
- **the volume-window search**: for each window width, the maximal rolling
  inflow volume of an event compared with the volume up to the storage
  peak, and the width whose ratio is closest to one;
- **level-pool reservoir routing** over a rating table, with its floor
  correction, and the clamping **interpolation** it relies on;
- **the CVHS step** (critical volume hydrograph shape): extraction of a fixed-length
  hydrograph around each event and its rescaling to a proxy volume;
- **flow-duration tables**: the month-range dictionary, exceedance
  probabilities, the summary table at chosen probabilities, in both the
  current (`src/`) and the older (top-level) version;
- **volume-duration annual maxima** per water year, in both versions, and
  **plotting positions** of ranked peaks;
- **data rules**: cleaning of negative values, rounding, water-year
  labelling, seasonal screening and the water-year month axis;
- **text helpers**: parsing a saved season list, variable labels for
  figures, site names, and the settings text a cloned script receives.

Days are positions in a gap-free daily series (`nat`), values are `real`,
and a missing day (NaN) is `Option<real>.None`. Python's and numpy's
`round` are modelled by `Common.Round` (ties to even, on exact reals). A
division by zero or a pandas call that raises becomes `None` or a `Result`
error. Every loop of the source that builds a table day by day or entry by
entry is a `method` with a `while`/`for` loop. Each such method is proved
to compute a specification given as functions (usually recursive) or as
quantified `ensures` clauses, and the source's promises are proved about
those functions as lemmas.

The modules follow the source files:

| module | file | models |
|---|---|---|
| `Common` | common.dfy | options, results, rounding, sums, present values, acre-feet |
| `Months` | months.dfy | month names and the water-year month axis |
| `Combos` | combos.dfy | the `allcombos` dictionary |
| `Events` | events.dfy | `identify_thresh_events` / `countdur` |
| `CritDur` | critdur.dfy | screening, averages, `analyze_critdur`, `analyze_monthlydur` |
| `Rolling` | rolling.dfy | rolling sums and means and their `idxmax` |
| `VolWindow` | volwindow.dfy | `analyze_volwindow_duration` |
| `Interpolation` | interp.dfy | `interp` |
| `Routing` | routing.dfy | `route` |
| `Cvhs` | cvhs.dfy | hydrograph extraction and scaling in `analyze_cvhs_duration` |
| `Ranking` | ranking.dfy | descending sort (pandas `sort_values(ascending=False)`) |
| `FlowDur` | flowdur.dfy | `calculate_ep`, `summarize_ep`, `analyze_dur` / `analyze_flowdur` |
| `PlotPositions` | plotpos.dfy | `calc_pp` |
| `VolDur` | voldur.dfy | `analyze_voldur` (both versions) |
| `DataRules` | datarules.dfy | cleaning, rounding, water years and `season_subset` in the import |
| `TextRules` | textrules.dfy | `get_list`, `get_varlabel`, `getsites`, `createclone` |

## Model

| member | source | states |
|---|---|---|
| Common.Round | src/flow_functions.py:121 | `round(x, d)` to d decimals with ties to even, computed as an exact real; a non-negative value stays non-negative |
| Common.RoundHalfEven | src/flow_functions.py:121 | The integer chosen is within one half of x, and on a tie it is the even neighbour |
| Common.Present | src/flow_functions.py:99 | `dropna` keeps at most as many values as there are days |
| Common.PresentMembers | src/flow_functions.py:99 | `dropna` keeps exactly the values of the present days |
| Common.PresentPlusMissing | functions.py:191-194 | Present days plus missing days make up every day |
| Common.MaxOf | src/flow_functions.py:121 | The maximum of a non-empty column is one of its values and no value exceeds it |
| Common.MinOf | src/flow_functions.py:123 | The minimum of a non-empty column is one of its values and no value is below it |
| Months.MonthName | src/flow_functions.py:37-48 | Each month's name in the `months` dictionary has three letters |
| Months.MonthOfName | src/flow_functions.py:37-48 | Reading a name back gives 0 or a month number |
| Months.MonthNameRoundTrip | src/flow_functions.py:37-48 | Reading a month's name back gives the month |
| Months.MonthNameInjective | src/flow_functions.py:37-48 | Different months have different names |
| Months.WyPosition | src/plot_functions.py:240-242 | Bar position of a month under the water-year division: months 10-12 go to 1-3 and months 1-9 to 4-12, always a month position |
| Months.WyMonth | src/plot_functions.py:240-242 | The inverse of the bar position: the month it returns is drawn at the given position |
| Months.WyPositionBijective | src/plot_functions.py:240-242 | The water-year axis starts with October and ends with September; it is one-to-one and onto the twelve positions |
| Months.WyTicksNameMonths | src/plot_functions.py:245-249 | The water-year tick label at each position names the month whose bar is drawn there |
| Combos.Numeral | src/flow_functions.py:52-56 | `str(m)` of a month has one digit below 10 and two from 10 on |
| Combos.TitleForms | src/flow_functions.py:51-56 | The key takes the loop's three forms: both numbers zero-padded when n < 10, only m padded when m < 10 <= n, and only m's number when m >= 10 |
| Combos.TitleEndsInNames | src/flow_functions.py:52-56 | Every key ends in "Mmm-Nnn", the names of the first and last months |
| Combos.ComboTitleInjective | src/flow_functions.py:51-56 | Two ranges with the same key are the same range, so no key collides |
| Combos.MonthRange | src/flow_functions.py:57-60 | The value of range m..n has n - m + 1 months, the i-th being m + i (`[m]` when m = n) |
| Combos.Update | src/flow_functions.py:61 | `dict.update` with one entry: the new entry is present, every entry under another key stays, and nothing else appears |
| Combos.UpdateNewKey | src/flow_functions.py:61 | Updating with a key that is not yet present appends the entry at the end |
| Combos.Title | src/flow_functions.py:51-56 | The three `if` branches of the loop together build exactly the key of range m..n |
| Combos.AppendEntry | src/flow_functions.py:61 | One pass of the inner loop appends the entry of m..n to the dictionary |
| Combos.NextKeyIsNew | src/flow_functions.py:61 | When the loops reach range m..n, its key is not yet in the dictionary |
| Combos.PrefixKeysDistinct | src/flow_functions.py:49-61 | Every dictionary the loops pass through has pairwise different keys |
| Combos.AddRow | src/flow_functions.py:50-61 | The inner loop for first month m adds the ranges m..m, ..., m..12, in order |
| Combos.AllCombos | src/flow_functions.py:49-61 | The nested loops build exactly the table specified range by range |
| Combos.TableWellKeyed | functions.py:145-157 | Every entry built is a contiguous month range stored under that range's own key |
| Combos.AllCombosTable | functions.py:145-157 | The dictionary has 78 entries with distinct keys, each a contiguous range m..n, and every range 1 <= m <= n <= 12 has its entry |
| Events.IdentifyThreshEvents | src/crit_functions.py:15-46 | The day-by-day scan, with its `ev` flag, counter and running `dur`, rows appended on opening and completed in place on closing, builds exactly the event table of the series |
| Events.ThreshEvents | src/crit_functions.py:15-46 | Definition of the event table the scan builds; its shape, order and completeness are stated by ThreshEventsShape, ThreshEventsOrdered and ThreshEventsComplete |
| Events.Step | src/crit_functions.py:26-44 | One day of the scan keeps the open-event shape: an open event is the last row, started above the threshold, `dur` days ago |
| Events.ScanValid | src/crit_functions.py:26-44 | The scan keeps its invariant day after day: rows shaped, only the last one open, no day above the threshold skipped, `dur` counting the open event's days |
| Events.StepOpens | src/crit_functions.py:27-35 | Opening a row on a day above the threshold outside an event keeps the invariant |
| Events.StepCloses | src/crit_functions.py:36-40 | Closing the open row on a day at or below the threshold (end = day before, duration = `dur`, peak over start..closing day) keeps the invariant |
| Events.StepContinues | src/crit_functions.py:41-44 | A day that neither opens nor closes (a missing day included) keeps the invariant |
| Events.ThreshEventsShape | src/crit_functions.py:26-44 | Each row starts on a day above the threshold and carries its month; only the last row can be open, and it is open exactly when no later day is at or below the threshold; a closed row has duration >= 1, end = start + duration - 1, and is followed by a day at or below the threshold, with none inside |
| Events.ClosedEventPeak | src/crit_functions.py:40 | The peak of a closed event is above the threshold, no smaller than any present value from start through the closing day, and is one of them |
| Events.PeakOverSpec | src/crit_functions.py:40 | Python's `max` over a slice that starts on a present day is one of the present values and no smaller than any of them |
| Events.ThreshEventsConsecutive | functions.py:264-279 | Each row but the last is closed, and its closing day comes before the next row starts |
| Events.ThreshEventsOrdered | functions.py:264-279 | Events are disjoint and in date order: any earlier row closes before any later row starts |
| Events.StartsAtLeastIndex | functions.py:264-279 | Row k starts on day k or later, so starts strictly increase |
| Events.ThreshEventsComplete | src/crit_functions.py:26-44 | Every day above the threshold lies inside some event, or after the start of the open trailing event |
| CritDur.Kept | src/crit_functions.py:90 | Definition of the strict screen on duration and peak; stated by ScreenMembers |
| CritDur.Screen | src/crit_functions.py:90 | Screening keeps no more rows than the table, and every kept row has duration > `min_dur` and peak > `min_peak` (both strict) |
| CritDur.ScreenMembers | src/crit_functions.py:90 | Screening keeps exactly the closed rows above both limits; an open row (NaN duration and peak) is never kept |
| CritDur.ScreenLength | src/crit_functions.py:91 | `lim_n`, the number of kept rows, is the length of the screened table |
| CritDur.ArithmeticMean | src/crit_functions.py:108 | The arithmetic mean duration exists exactly when some row is kept |
| CritDur.PeakWeightedMean | src/crit_functions.py:104 | The peak-weighted mean sum(d*p)/sum(p) exists exactly when sum(p) is not zero |
| CritDur.DurationWeightedPeak | functions.py:310 | The duration-weighted peak sum(d*p)/sum(d) exists exactly when sum(d) is not zero |
| CritDur.WeightedSumBounds | src/crit_functions.py:104 | Durations in [lo, hi] and non-negative peaks give lo*sum(p) <= sum(d*p) <= hi*sum(p) |
| CritDur.WeightedSumBoundsByPeak | functions.py:310 | Peaks in [lo, hi] give lo*sum(d) <= sum(d*p) <= hi*sum(d) |
| CritDur.DurSumBounds | src/crit_functions.py:108 | Durations in [lo, hi] sum to between lo*n and hi*n |
| CritDur.MeansWithinDurations | src/crit_functions.py:104-108 | With positive peaks, the peak-weighted and the arithmetic mean duration both exist and lie between the smallest and largest screened durations |
| CritDur.PeakWithinPeaks | functions.py:310 | With durations of at least one day, the duration-weighted peak lies between the smallest and largest screened peaks |
| CritDur.ScreenedBounds | src/crit_functions.py:90-108 | With non-negative limits and at least one kept row, all three averages exist and lie within the screened durations (the means) or peaks (the weighted peak) |
| CritDur.AnalyzeCritDur | functions.py:307-312 | `lim_n` is the number of kept rows; `lim_dur_avg` exists exactly when it is positive; `lim_dur` and `lim_dur_avg` lie between the smallest and largest kept durations, and `lim_peak` between the smallest and largest kept peaks |
| CritDur.ScreenedAverage | src/crit_functions.py:88-111 | The screened count, and the arithmetic or peak-weighted average drawn; it exists and lies within the kept durations when limits are non-negative and some row is kept |
| CritDur.MaxDuration | src/crit_functions.py:104-108 | No kept duration exceeds it |
| CritDur.MinDuration | src/crit_functions.py:104-108 | No kept duration is below it |
| CritDur.CountMonth | functions.py:364 | The count of one month is at most the number of events |
| CritDur.AnalyzeMonthlyDur | functions.py:358-365 | Twelve rows for months 1..12, each with its event count and, when there are events, fraction = count / number of events; when every event month is in 1..12 the counts add up to the number of events and the fractions to 1 |
| CritDur.PrefixTotals | functions.py:362-365 | The first k rows' counts add up to the events in months 1..k, and their fractions to that count over the number of events |
| CritDur.MonthlyTotals | functions.py:362-365 | When every event month is a month of the table, counts sum to the number of events and fractions sum to 1 |
| Rolling.BestEndIn | src/crit_functions.py:206-208 | The end found lies in the range searched and leaves room for a whole window |
| Rolling.BestEndInSpec | src/crit_functions.py:206-208 | `idxmax` over a rolling sum with `min_periods = w`: the window found has no missing day, its sum is at least every full window's, and strictly more than every earlier one's; none is found exactly when no window is full |
| Rolling.BestEndInScaleFree | src/crit_functions.py:206 | Ranking windows by their sum times a positive factor (acre-feet, or 1/w for a mean) picks the same window as ranking by the sum |
| Rolling.FirstArgMaxPresent | src/crit_functions.py:185 | `idxmax` skipping NaN: the first position of the largest present value; none exactly when every value is missing |
| Rolling.MeanPeakEnd | src/crit_functions.py:363-364 | The end of the window found lies inside the hydrograph and leaves room for `dur` days |
| Rolling.MeanPeakEndIsMean | src/crit_functions.py:363-364 | Ranking by the rolling mean, sum / dur, gives the same window as ranking by the sum |
| Rolling.MeanPeakEndSpec | src/crit_functions.py:363-364 | The window found is complete and has the largest mean of all complete windows, strictly larger than every earlier one; none exactly when no window is complete |
| Cvhs.FloorThird | src/crit_functions.py:335 | `np.floor(shift/3)`: 3f <= s < 3f + 3 |
| Cvhs.CeilTwoThirds | src/crit_functions.py:335 | `np.ceil(2*shift/3)`: 3c - 3 < 2s <= 3c |
| Cvhs.ShiftSplit | src/crit_functions.py:331-335 | The days added before and after add up to the shift |
| Cvhs.ExtractBounds | src/crit_functions.py:331-335 | The cut runs from start - floor(shift/3) to end + ceil(2 shift/3), with shift = hydro_dur - duration |
| Cvhs.ClippedSlice | src/crit_functions.py:335 | An inclusive label slice inside the series is the days lo..hi; a reversed slice is empty |
| Cvhs.Extract | src/crit_functions.py:331-335 | Definition of the extracted hydrograph of one event; its length and coverage are stated by ExtractLength |
| Cvhs.ExtractLength | src/crit_functions.py:331-335 | Every extracted hydrograph has exactly `hydro_dur` days, taken in order from the window's first day, and covers the whole event when the shift is non-negative |
| Cvhs.ScaleRange | src/crit_functions.py:371-372 | `x.loc[lo:hi] = x.loc[lo:hi] * vr`: days in [lo, hi] multiplied, all others unchanged, length kept |
| Cvhs.ScaleInPlace | src/crit_functions.py:371-372 | The in-place multiplication over an array leaves exactly the scaled sequence |
| Cvhs.SumPresentScaled | src/crit_functions.py:368 | Scaling every day by f scales the sum by f |
| Cvhs.WindowMeanAfterScaling | src/crit_functions.py:368-372 | Multiplying the peak window (and possibly later days) by vol / mean makes the window's mean equal the proxy flow |
| Cvhs.ScaledAsWritten | src/crit_functions.py:362-374 | Definition of the scaling as written, the inclusive label slice of dur + 1 days; stated by ScaledAsWrittenMeets and ScaledAsWrittenExtraDay |
| Cvhs.Scaled | src/crit_functions.py:362-374 | Definition of the intended scaling of the dur-day peak window only; stated by ScaledMeets |
| Cvhs.ScaledAsWrittenMeets | src/crit_functions.py:362-374 | The source's scaling: the peak window's mean becomes the proxy flow; days before the window and from m + 2 on (m + 1 on when dur = 1) are unchanged |
| Cvhs.ScaledAsWrittenExtraDay | src/crit_functions.py:370-372 | With dur > 1 the day after the peak window is scaled too: a present, non-zero flow there changes whenever the proxy differs from the window mean |
| Cvhs.ScaledMeets | src/crit_functions.py:362-374 | The intended scaling: the peak window's mean becomes the proxy flow and every day outside the window is unchanged |
| Cvhs.ScaleHydrograph | src/crit_functions.py:362-374 | The scaling step, on a copy of the hydrograph in an array, gives the intended scaled hydrograph (or the error when no window is full or the mean is zero) |
| Routing.FloorCorrect | src/crit_functions.py:301-303 | Definition of the floor correction; its property is stated by FloorCorrectMeets and FirstDayCap |
| Routing.FloorCorrectMeets | src/crit_functions.py:302-303 | The corrected outflow never lets the projected storage fall below the starting storage; when the correction applies the storage lands exactly on it and the new outflow is strictly smaller; otherwise the outflow is kept |
| Routing.FirstDayCap | src/crit_functions.py:291-303 | On day 0 the storage is the starting storage, so the correction caps the outflow at the inflow |
| Routing.DayRow | src/crit_functions.py:287-303 | Definition of one day of routing from the row before it; its balance is stated by DayRowBalanced and its totality by DayRowTotal |
| Routing.Routed | src/crit_functions.py:287-303 | A successful routing of n days has n rows |
| Routing.ErrPersists | src/crit_functions.py:287-303 | Once a day's look-up fails, the routing stays failed with that error |
| Routing.RoutedNext | src/crit_functions.py:287-303 | One more day either appends its row or ends the routing with its error |
| Routing.Finish | src/crit_functions.py:302-303 | A day's row keeps its inflow, forebay and storage, and its outflow satisfies the floor |
| Routing.DayRowBalanced | src/crit_functions.py:290-303 | One day keeps its inflow; day 0 starts at the starting forebay and storage; later storage = previous storage + (inflow - previous corrected outflow) * 86400/43560; and the floor holds |
| Routing.BalancedSnoc | src/crit_functions.py:287-303 | Appending a balanced day to balanced rows keeps the mass balance |
| Routing.DayRowTotal | src/crit_functions.py:285-299 | With a usable rating table (columns of one length, forebay and storage strictly increasing) every look-up of a day with a present inflow succeeds |
| Routing.RouteSpec | src/crit_functions.py:283-305 | Definition of the whole routing, the starting storage looked up first; Route is proved to compute it |
| Routing.Route | src/crit_functions.py:283-305 | The routing loop gives the specified result; when it succeeds there is one row per inflow day, mass-balanced and above the floor; with a usable rating table and present inflows it always succeeds |
| Ranking.Insert | src/flow_functions.py:100 | Insertion adds one element |
| Ranking.InsertPermutes | src/flow_functions.py:100 | Insertion adds x and keeps every other value |
| Ranking.InsertKeepsDescending | src/flow_functions.py:100 | Inserting into a descending sequence keeps it descending |
| Ranking.SortDesc | src/flow_functions.py:100 | Sorting keeps the length |
| Ranking.SortDescPermutes | src/flow_functions.py:100 | Sorting keeps the same values with the same multiplicities |
| Ranking.SortDescDescending | src/flow_functions.py:100 | Sorting puts the values from largest to smallest |
| Ranking.DescendingUnique | src/flow_functions.py:100 | Two descending sequences with the same values are equal |
| Ranking.SortDescUnique | src/flow_functions.py:100 | Any descending rearrangement of the values is the sorted sequence |
| PlotPositions.PlottingPosition | src/plot_functions.py:110 | Definition of (i + 1 - alpha)/(n + 1 - 2 alpha); stated by CalcPpIncreasing and CalcPpInUnit |
| PlotPositions.CalcPp | src/plot_functions.py:107-110 | One plotting position per present peak |
| PlotPositions.CalcPpRanked | src/plot_functions.py:107-109 | The table holds exactly the present peaks, from largest to smallest |
| PlotPositions.CalcPpIncreasing | src/plot_functions.py:110 | With n + 1 - 2 alpha > 0 every position (i + 1 - alpha)/(n + 1 - 2 alpha) is defined and they rise strictly with rank |
| PlotPositions.CalcPpInUnit | src/plot_functions.py:110 | For alpha < 1 every position lies strictly between 0 and 1 |
| PlotPositions.CalcPpWeibull | functions.py:606-609 | With alpha = 0 the plotting positions of a month range are its exceedance probabilities from the flow-duration table, over the same ranked values |
| Interpolation.Matches | src/functions.py:183 | `knownys[knownxs == v]` selects at most as many values as there are known xs |
| Interpolation.PickAt | src/functions.py:183-186 | `.item()` succeeds only when the mask fits and selects exactly one y, and then gives that y |
| Interpolation.Below | src/functions.py:196-197 | `relxs[relxs < 0]` keeps only negative offsets, no more than there are points |
| Interpolation.ArgMaxFirst | src/functions.py:197 | numpy `argmax`: the first index of the largest value |
| Interpolation.Interp | src/functions.py:167-206 | A known x that succeeds returns the one y matched to it |
| Interpolation.MatchesAscending | src/functions.py:182-183 | On strictly ascending xs the mask of a known x selects exactly its own y |
| Interpolation.InterpExact | src/functions.py:182-183 | A known x returns its own y, not rounded |
| Interpolation.InterpClamps | src/functions.py:184-193 | Below the smallest known x the y at the smallest x is returned, above the largest the y at the largest: no extrapolation |
| Interpolation.BelowPrefix | src/functions.py:196-197 | Strictly between xs[k] and xs[k+1], the negative offsets are those of the first k + 1 points |
| Interpolation.ArgMaxOfIncreasing | src/functions.py:197 | On strictly increasing offsets `argmax` picks the last one, the nearest point below x |
| Interpolation.InterpInterior | src/functions.py:194-204 | Strictly between two neighbouring known points the result is the rounded straight line through them |
| Interpolation.Lerp | src/functions.py:203 | Definition of the straight line through two points, before rounding; stated by LerpAtStart and LerpBetween |
| Interpolation.LerpAtStart | src/functions.py:204 | The line passes through its first point |
| Interpolation.LerpBetween | src/functions.py:204 | Before rounding, the interpolated value lies between the two bracketing ys |
| Interpolation.Bracket | src/functions.py:194-198 | Any x strictly inside the range that is not a known x has a bracketing pair of neighbours |
| Interpolation.InterpInsideTotal | src/functions.py:194-204 | A look-up strictly inside the range succeeds on a strictly ascending table |
| Interpolation.InterpTotal | src/functions.py:167-206 | On a strictly ascending table with one y per x, every look-up succeeds |
| VolWindow.CandidateWidths | src/crit_functions.py:190-199 | The widths are 1..duration for a duration of 2 or more, and [1, 1] for a one-day event |
| VolWindow.VolumeRatio | src/crit_functions.py:219 | `vw` = vol_peak / vol when vol is not zero; when vol is zero, NaN exactly when vol_peak is also zero, infinite otherwise |
| VolWindow.Avg | src/crit_functions.py:216 | `avg` times the width gives back the window's total flow |
| VolWindow.SliceWindow | src/crit_functions.py:206 | A window of the event slice is the window of the whole series shifted by the event start |
| VolWindow.BestEnd | src/crit_functions.py:206-212 | The end found lies inside the event and leaves room for a whole window |
| VolWindow.BestEndFull | src/crit_functions.py:206-212 | The end found closes a full window inside the event; none is found (the width is skipped) exactly when the event has no full window of that width |
| VolWindow.BestEndMaximal | src/crit_functions.py:206-208 | The window found has at least the volume of every full window of the event and more than every earlier one |
| VolWindow.WindowAtMost | src/crit_functions.py:206-208 | Within the event slice, no full window has a larger volume than the chosen one, and every earlier full window a smaller one |
| VolWindow.EventWindowAtMost | src/crit_functions.py:206-208 | The same, for window ends given as positions of the whole series |
| VolWindow.WidthRow | src/crit_functions.py:214-219 | A row built for width w carries w |
| VolWindow.WidthRowSkipped | src/crit_functions.py:207-212 | A width gets no row exactly when none of its windows inside the event is full |
| VolWindow.WidthRowWindow | src/crit_functions.py:214-217 | The row's window starts w - 1 days before its end, lies inside the event, has no missing day, and is the first window of largest volume |
| VolWindow.WidthRowVolumes | src/crit_functions.py:217-218 | The row's total is the flow of its window; its peak total is the flow from the window's start through the storage peak, zero when the peak comes before the window |
| VolWindow.Vol | src/crit_functions.py:216 | Definition of the `vol` column: the window volume in acre-feet, rounded; its window is stated by WidthRowVolumes |
| VolWindow.VolPeak | src/crit_functions.py:217 | Definition of the `vol_peak` column: the volume from the window start to the storage peak, rounded; stated by WidthRowVolumes |
| VolWindow.Vw | src/crit_functions.py:218 | Definition of the `vw` column, `vol_peak / vol` with the float-division cases of VolumeRatio |
| VolWindow.RowsOf | src/crit_functions.py:205 | One row or skip per width 1..n |
| VolWindow.RowsOfAt | src/crit_functions.py:205 | Position k holds the row of width k + 1 |
| VolWindow.RowsOfWidths | src/crit_functions.py:205-214 | Every row present at position k is the row of width k + 1 |
| VolWindow.UpsertAppends | src/crit_functions.py:214-219 | Assigning `volumes.loc[w, ...]` for a width larger than any in the table appends a row |
| VolWindow.SomesNarrower | src/crit_functions.py:214-219 | After the first n widths, every row in the table is at most n days wide |
| VolWindow.NextWidth | src/crit_functions.py:205-219 | Processing width n + 1 after widths 1..n adds its row, if it has one, at the end |
| VolWindow.RepeatWidthOne | src/crit_functions.py:195-199 | Processing width 1 a second time, as a one-day event does, leaves the table unchanged |
| VolWindow.TableStep | src/crit_functions.py:205-219 | One pass of the loop over the candidate widths either adds the next width's row or repeats width 1 and changes nothing |
| VolWindow.FirstArgMin | src/crit_functions.py:222 | pandas `idxmin` skipping NaN: the first position of the smallest defined deviation; none exactly when all deviations are NaN |
| VolWindow.Deviations | src/crit_functions.py:222 | One deviation abs(vw - 1) per row |
| VolWindow.CritWidth | src/crit_functions.py:222 | `crit_dur` is the width of a row with the smallest defined abs(vw - 1), strictly smaller than every earlier row's; none exactly when every deviation is NaN |
| VolWindow.VolumeTable | src/crit_functions.py:193-219 | The loop fills the table with the row of every width from 1 to the duration that has a full window, in order of width |
| VolWindow.AnalyzeVolWindow | src/crit_functions.py:184-222 | The storage peak is the first day of largest storage in the event (an error when all storage is missing); the table is the volume table at that peak, and the critical width is the one the deviations pick; an error when no width has a full window |
| FlowDur.Selected | src/flow_functions.py:98 | The days of the month range are at most all days |
| FlowDur.SelectedMembers | src/flow_functions.py:98 | A day is kept exactly when its month is in the range, and when every month is in the range nothing is dropped |
| FlowDur.Exceedance | src/flow_functions.py:102 | Definition of one exceedance probability, rank / (n + 1); stated by ExceedancesSpec |
| FlowDur.Exceedances | src/flow_functions.py:102 | One exceedance probability (rank)/(n + 1) per ranked value |
| FlowDur.ExceedancesSpec | src/flow_functions.py:102 | The exceedance probabilities rise strictly with rank and lie strictly between 0 and 1 |
| FlowDur.CalculateEp | src/flow_functions.py:90-107 | The table has one exceedance probability per value |
| FlowDur.CalculateEpSpec | src/flow_functions.py:97-102 | The table holds exactly the present values of the selected days (a permutation), from largest to smallest, with probabilities i/(n + 1) rising strictly inside (0, 1) |
| FlowDur.CalculateEpLegacy | functions.py:191-194 | Every selected day gets a row, a missing one included |
| FlowDur.CalculateEpLegacySpec | functions.py:191-194 | The present values come first from largest to smallest, with their multiplicities; missing rows follow; n counts the missing rows, and the probabilities rise strictly |
| FlowDur.PresentAppend | functions.py:192 | `dropna` of two runs of days is the two `dropna`s one after the other |
| FlowDur.MissingAppend | functions.py:192 | Missing days of two runs add up |
| FlowDur.NpInterp | src/flow_functions.py:125 | Definition of `np.interp` with a `left` value; stated by NpInterpOutside, NpInterpAtPoint, NpInterpInterior and NpInterpRange |
| FlowDur.NpInterpOutside | src/flow_functions.py:125 | `np.interp(p, exceeded, values, p)`: below the first point the result is `left`, from the last point on the last value |
| FlowDur.NpInterpAtPoint | src/flow_functions.py:125 | At one of the table's own points the result is that point's value |
| FlowDur.NpInterpInterior | src/flow_functions.py:125 | Strictly between two neighbouring points the result is the straight line through them |
| FlowDur.SegmentFound | src/flow_functions.py:125 | The segment search stops at the pair of points around x and uses their line |
| FlowDur.SameSegment | src/flow_functions.py:125 | On increasing points, x lies in only one segment |
| FlowDur.NpInterpRange | src/flow_functions.py:125 | From the first point on, the result never leaves the range of the values |
| FlowDur.LerpBetweenClosed | src/flow_functions.py:125 | The line between two points stays between their values |
| FlowDur.SummaryCell | src/flow_functions.py:119-125 | A cell fails exactly when the table is empty and the label is a probability (numpy raises); otherwise it is present exactly when the table has values |
| FlowDur.SummarizeEp | src/flow_functions.py:109-126 | One cell per label, in `pcts` order; it fails exactly when the table is empty and some label is a probability |
| FlowDur.SummaryExtrema | src/flow_functions.py:120-123 | "Max" gives the rounded largest and "Min" the rounded smallest present value of the month range |
| FlowDur.SameValuesSameExtrema | src/flow_functions.py:121-123 | Tables with the same values have the same largest and smallest value |
| FlowDur.DescendingEnds | src/flow_functions.py:121-123 | A descending table has its maximum first and its minimum last |
| FlowDur.CalculateEpRanked | src/flow_functions.py:100-102 | A month range with data gives a ranked table: values descending, probability i/(n + 1) at rank i - 1 |
| FlowDur.SummaryProbOutside | src/flow_functions.py:125 | A probability below 1/(n + 1) gives p itself, rounded (numpy's `left` is p); from n/(n + 1) on it gives the smallest value, rounded |
| FlowDur.SummaryProbAtRank | src/flow_functions.py:125 | At the exceedance probability of rank k the value of rank k is read back, rounded |
| FlowDur.SummaryProbInside | src/flow_functions.py:125 | From 1/(n + 1) on, the cell is a value between the smallest and largest, rounded |
| FlowDur.ArgMinFirst | functions.py:207 | pandas `idxmin`: the first position of the smallest value |
| FlowDur.NearestRow | functions.py:207 | The first row whose exceedance is nearest to p: no row is nearer, and every earlier row is farther |
| FlowDur.NearestRowAscending | functions.py:207 | On increasing exceedances, p at or below the first picks the first row, at or above the last picks the last row, and at a row's own exceedance that row |
| FlowDur.LegacyCell | functions.py:207-208 | A cell fails (idxmin of nothing) exactly when the range has no days |
| FlowDur.SummarizeEpLegacy | functions.py:197-209 | One cell per probability, in order: the rounded flow of the nearest row; it fails exactly when the range has no days and some probability is asked for |
| FlowDur.LegacyFlow | functions.py:191-194 | The ranked column starts with the largest value and ends with a missing row as soon as one day is missing, otherwise with the smallest value |
| FlowDur.LegacyCellFirst | functions.py:207-208 | A probability at or below 1/(n + 1) reads the rounded largest value (NaN when every day is missing) |
| FlowDur.LegacyCellLast | functions.py:207-208 | A probability at or above n/(n + 1) reads NaN as soon as one selected day is missing, otherwise the rounded smallest value |
| FlowDur.SummaryColumn | src/flow_functions.py:117-118 | The summary column has one cell per label |
| FlowDur.AnalyzeDur | src/flow_functions.py:210-219 | The combo loop builds exactly the specified table and ranked curves: ranges in dictionary order, a range with no present value skipped |
| FlowDur.DurTable | src/flow_functions.py:210-219 | Definition of the summary table the combo loop builds; stated by DurTableColumns |
| FlowDur.DurCurves | src/flow_functions.py:210-219 | Definition of the ranked curves the combo loop keeps, one per range with data; AnalyzeDur is proved to compute them |
| FlowDur.DurStep | src/flow_functions.py:213-219 | One range adds its ranked table and its column under its key exactly when it has a present value |
| FlowDur.DurTableLast | src/flow_functions.py:219 | The last range adds at most its own column |
| FlowDur.DurTableGrows | src/flow_functions.py:219 | Columns already in the table stay when a range is processed |
| FlowDur.DurTableNew | src/flow_functions.py:214-219 | The last range, when it has data, gets its column |
| FlowDur.DurTableSources | src/flow_functions.py:214-219 | Every column comes from a range with data, under that range's key, with that range's summary |
| FlowDur.DurTableCovers | src/flow_functions.py:214-219 | Every range with data has a column under its key |
| FlowDur.DurTableColumns | src/flow_functions.py:214-219 | A range gets a column exactly when it has data, and the column under its key holds its summary |
| FlowDur.LegacyColumn | functions.py:204-208 | The legacy column has one cell per probability |
| FlowDur.LegacyColumnOfCells | functions.py:206-208 | Cells filled one by one in `pcts` order make the legacy column |
| FlowDur.LegacyTable | functions.py:241-247 | A successful legacy table has one column per range |
| FlowDur.AnalyzeDurLegacy | functions.py:229-249 | The loop builds exactly the specified legacy table: every range gets a column, and a range with no days ends the analysis with an error |
| FlowDur.LegacyErrPersists | functions.py:241-247 | Once a range fails, the legacy analysis stays failed |
| FlowDur.LegacyTableOk | functions.py:241-247 | The legacy analysis succeeds exactly when no probability is asked for or every range selects at least one day |
| FlowDur.LegacyTableColumns | functions.py:241-247 | When it succeeds, column i is range i's legacy summary under its key |
| FlowDur.LegacyTableColumn | functions.py:247 | Column i of a successful table is range i's legacy summary under its key |
| VolDur.RunEnd | src/vol_functions.py:25 | The run of day i ends at the last day of the unbroken stretch with day i's label |
| VolDur.BlocksFrom | src/vol_functions.py:25 | The runs from day i on are empty only at the end of the series, start at day i with its label and end at the last day |
| VolDur.Blocks | src/vol_functions.py:25 | Every run lies inside the series |
| VolDur.BlocksFromShape | src/vol_functions.py:25 | The runs are adjacent, each ends where its label changes, and each day of a run carries its label |
| VolDur.BlocksTile | src/vol_functions.py:25 | The runs tile the series from the first day to the last |
| VolDur.RunLabelsIncrease | src/vol_functions.py:25 | On a series in date order the labels rise strictly from run to run, so `unique()` lists each WY once |
| VolDur.RunIsLabel | src/vol_functions.py:29-30 | On a series in date order, a day belongs to a run exactly when it carries the run's label (`data["wy"] == wy`) |
| VolDur.BlocksPartition | src/vol_functions.py:25-30 | On a series in date order, each WY of `unique()` selects exactly its run of days, and the labels are distinct and increasing |
| VolDur.Covered | src/vol_functions.py:25 | Every day lies in some run |
| VolDur.YearRowOf | src/vol_functions.py:29-39 | Definition of the whole-year row of one WY; stated by YearRowMeets |
| VolDur.AnnualSum | src/vol_functions.py:34 | Definition of the `annual_sum` column, the rounded total of the row |
| VolDur.AnnualAcft | src/vol_functions.py:35 | Definition of the `annual_acft` column, the rounded total in acre-feet |
| VolDur.MaxColumn | src/vol_functions.py:39 | Definition of the `max_<var>` column, the rounded largest day |
| VolDur.YearRowMeets | src/vol_functions.py:29-39 | A WY with more missing days than the limit is skipped; otherwise it fails exactly when every day is missing, and its row holds the total of the present days, the number of days and the first largest day |
| VolDur.SrcSkipsAt37 | src/vol_functions.py:30 | More than 365 * 0.1 missing days means 37 or more |
| VolDur.MidBack | src/vol_functions.py:51 | The middle of the window lies at most dur - 1 days before its end |
| VolDur.WyBestEnd | src/vol_functions.py:42-44 | The chosen end leaves a whole window inside the WY |
| VolDur.WyBestEndFull | src/vol_functions.py:42-48 | The chosen window has no missing day, and there is none exactly when no window inside the WY is complete (`min_periods = dur`) |
| VolDur.WyWindowAtMost | src/vol_functions.py:42-44 | No complete window inside the WY has a larger sum, and every earlier one a smaller sum (`idxmax` keeps the first) |
| VolDur.WindowMax | src/vol_functions.py:53 | The chosen day lies in the window and is present |
| VolDur.WindowMaxSpec | src/vol_functions.py:53 | `idxmax` over the window: none exactly when every day is missing, otherwise the first day with the largest value |
| VolDur.FullWindowMax | src/vol_functions.py:53 | A complete window always has a largest day |
| VolDur.DurRowOf | src/vol_functions.py:41-55 | Definition of the window row of one WY; stated by DurRowSkipped, DurRowWindow, DurRowMaximal and DurRowPeak |
| VolDur.AvgColumn | src/vol_functions.py:50 | Definition of the `avg_<var>` column, the rounded window mean |
| VolDur.DurRowSkipped | src/vol_functions.py:41-48 | A WY gets no row exactly when no complete window fits inside it |
| VolDur.DurRowWindow | src/vol_functions.py:49-55 | The row's window lies in the WY and spans dur days, has no missing day, its average is the window mean, its middle lies inside it, and count is the WY's number of days |
| VolDur.DurRowMaximal | src/vol_functions.py:42-44 | The row's window has the largest mean of the complete windows in the WY, and is the first one with it |
| VolDur.DurRowPeak | src/vol_functions.py:53-54 | The row's peak day is the first day of the window with the largest value |
| VolDur.DurRowAtPeak | src/vol_functions.py:53-54 | The same, for a row built at a given window end |
| VolDur.WindowMaxFacts | src/vol_functions.py:53 | A found window maximum is the first largest day |
| VolDur.LegacyBestEnd | functions.py:487-501 | The chosen end is a day of the WY with room for a window before it |
| VolDur.LegacyBestEndIsMean | functions.py:487-501 | Ranking window ends by their sum picks the same day as ranking them by `rolling(dur).mean()` |
| VolDur.LegacyBestEndSpec | functions.py:487-505 | The chosen window ends in the WY, has no missing day, has the largest mean and is the first with it; there is none exactly when no complete window ends in the WY |
| VolDur.LegacyDurRowOf | functions.py:490-508 | Definition of the older window row of one WY; stated by LegacyDurRowSkipped, LegacyDurRowMeets and LegacyDurRowPeak |
| VolDur.AvgFlow | functions.py:507 | Definition of the `avg_flow` column, the rounded window mean |
| VolDur.PeakFlow | functions.py:508 | Definition of the `peak` column, the rounded window maximum |
| VolDur.LegacyDurRowSkipped | functions.py:491-505 | A WY gets no row exactly when more than 50 days are missing or no complete window ends in it |
| VolDur.LegacyDurRowMeets | functions.py:501-507 | The row's window ends in the WY, starts dur - 1 days before (`date`), has no missing day, its average is the window mean, and it has the largest mean, the first such |
| VolDur.LegacyDurRowPeak | functions.py:488-508 | The row's peak is the largest day of its window (`rolling(dur).max()`) |
| VolDur.LegacyDurRowAtPeak | functions.py:488-508 | The same, for a row built at a given window end |
| VolDur.FullDays | functions.py:487 | Every day of a complete window is present |
| VolDur.YearRows | src/vol_functions.py:29-39 | The WY loop succeeds exactly when every WY's row does, then holds one entry per WY with its row; an error is one of the WYs' errors |
| VolDur.AnalyzeVolDur | src/vol_functions.py:17-57 | By whole WY: the year table with the 36.5-day limit, failing exactly when a kept WY has no present day; by days: always the table of each WY's best complete window |
| VolDur.AnalyzeVolDurLegacy | functions.py:475-511 | By whole WY: the year table with the 50-day limit; by days: the table of each WY's best window over the whole-series rolling mean |
| DataRules.HasNegative | src/data_functions.py:370-371 | There is a day to clean exactly when some present value is below zero |
| DataRules.Centered3 | src/data_functions.py:372 | The centred 3-day mean exists only away from both ends with all three days present, and then is their mean |
| DataRules.FloorPass | src/data_functions.py:364-367 | Every value below the user's number becomes that number, tagged with it; every other day is untouched; afterwards no value is below it |
| DataRules.AveragePass | src/data_functions.py:370-374 | Every negative day takes its centred 3-day mean and the pass's tag; every other day is untouched |
| DataRules.ZeroPass | src/data_functions.py:384-387 | Every negative day becomes 0 tagged "set to zero"; every other day is untouched; afterwards nothing is negative |
| DataRules.CleanAverage | src/data_functions.py:368-387 | After the averaging passes nothing is negative, untouched days keep value and tag, cleaned days carry an averaging or zero tag, and a negative first or last day becomes missing |
| DataRules.Clean | src/data_functions.py:359-387 | `zero=False` leaves the series alone; `zero=True` counts as the number 1; a number floors at itself; otherwise nothing is negative afterwards; a missing day stays missing |
| DataRules.RoundColumn | src/data_functions.py:389 | Every present value is rounded half to even at `decimal` places, missing days stay missing |
| DataRules.RoundKeepsNonNegative | src/data_functions.py:389 | Rounding a cleaned column leaves it free of negative values |
| DataRules.WaterYear | src/data_functions.py:394-397 | Definition of a day's water year; stated by WaterYearMembers, WaterYearCountsMonths and WaterYearMonotone |
| DataRules.LabelWaterYears | src/data_functions.py:394-397 | Every day gets the water year of its year and month |
| DataRules.WaterYearMembers | src/data_functions.py:395-397 | Water year y holds October to December of y - 1 and January to September of y; a calendar-year division labels by year |
| DataRules.WaterYearCountsMonths | src/data_functions.py:395-397 | The water year and its month position count months three ahead of the calendar |
| DataRules.WaterYearMonotone | src/data_functions.py:395-397 | A later month never has an earlier water year |
| DataRules.Largest | src/data_functions.py:508 | `max(season_idx)` is an element no smaller than any other |
| DataRules.SeasonSubset | src/data_functions.py:499-516 | An empty season fails (`max` of nothing); months keep only the listed months; a two-entry day range keeps the days of year inside it; any other shape leaves the data alone |
| TextRules.Split | src/functions.py:102 | `str.split(c)` gives at least one piece |
| TextRules.RemoveSpaces | src/functions.py:100 | `replace(" ", "")` leaves no space |
| TextRules.ShowNat | src/functions.py:83-88 | `str` of a non-negative integer is all digits |
| TextRules.ParseShowNat | src/functions.py:104 | `int` reads back what `str` wrote |
| TextRules.ParseToken | src/functions.py:103-106 | A piece becomes an integer exactly when it is all digits (`isdigit`), otherwise text |
| TextRules.Cleaned | src/functions.py:100 | Definition of the cleaned cell text, brackets stripped and spaces removed; stated by StripBrackets and RemoveSpacesJoin |
| TextRules.ListOf | src/functions.py:96-108 | A missing cell gives None (`pd.isna`); otherwise one entry per comma-separated piece of the cleaned text |
| TextRules.GetList | src/functions.py:96-108 | The piece-by-piece loop builds exactly that list |
| TextRules.Digits | src/functions.py:83-88 | One decimal string per number, in order |
| TextRules.GetListRoundTrip | src/functions.py:83-108 | A season list of non-negative integers saved with `str` reads back as the same integers |
| TextRules.GetListEmpty | src/functions.py:100-106 | The saved empty list reads back as one empty text entry, not an empty list |
| TextRules.NegativeStaysText | src/functions.py:103-106 | A negative number fails `isdigit` and stays text |
| TextRules.StripBrackets | src/functions.py:100 | Stripping the brackets of a saved list gives back its body |
| TextRules.RemoveSpacesJoin | src/functions.py:100 | Removing spaces turns the ", " separators of `str` into "," |
| TextRules.SplitJoin | src/functions.py:102 | Splitting a joined list at a separator that none of the pieces contains gives back the pieces |
| TextRules.VarLabel | src/functions.py:136-149 | Definition of the label of a variable name; stated by VarLabelCases and VarLabelIdempotent |
| TextRules.VarLabelOf | src/functions.py:127-149 | A name gets its label; a frame gets the label of its first column, and a frame with no columns has none (IndexError) |
| TextRules.VarLabelCases | src/functions.py:136-147 | Each list of names gets its own label, and any other name is its own label |
| TextRules.PeakNotEarlier | src/functions.py:136-138 | No peak name is caught by the flow branch first |
| TextRules.StageNotEarlier | src/functions.py:136-140 | No stage name is caught by an earlier branch |
| TextRules.SweNotEarlier | src/functions.py:136-142 | No SWE name is caught by an earlier branch |
| TextRules.PrecipNotEarlier | src/functions.py:136-144 | No precipitation name is caught by an earlier branch |
| TextRules.ListedHaveNoParen | src/functions.py:136-144 | No listed name contains a parenthesis, unlike every label |
| TextRules.VarLabelIdempotent | src/functions.py:136-147 | Labelling a label gives the label back |
| TextRules.SiteName | src/functions.py:32 | A site name from a path has no slash and no dot |
| TextRules.SplitPieceFree | src/functions.py:32 | Splitting at c leaves no c in any piece, nor a character absent from the text |
| TextRules.SplitLast | src/functions.py:32 | The last piece of a split is the text after the last separator |
| TextRules.SiteNameOfFile | src/functions.py:32 | The site name of "dir/name.ext" is name |
| TextRules.GetSites | src/functions.py:22-33 | For a list of sources, the sources are kept and each gets a name: the first item of a list entry or the file name without extension of a path; an empty list entry fails (IndexError) |
| TextRules.SettingLine | src/functions.py:63-68 | Definition of one `key = setting` line, a string setting in double quotes |
| TextRules.CloneText | src/functions.py:58-68 | Definition of the clone's lines; stated by CloneLength, CloneNoSettings and CloneAppend |
| TextRules.SettingLines | src/functions.py:62-68 | One `key = setting` line per setting, in order |
| TextRules.CloneAppend | src/functions.py:58-68 | Cloning two runs of lines is cloning each one after the other |
| TextRules.CloneLength | src/functions.py:58-68 | The clone has every line plus one setting block per marker line |
| TextRules.CloneNoSettings | src/functions.py:58-68 | With no settings the clone is the script itself |
| TextRules.CloneLines | src/functions.py:58-68 | The line loop writes exactly the specified clone |
| TextRules.CloneStep | src/functions.py:58-68 | One line step writes the line and, after a marker line, the settings block |

Behaviour of the code worth noting, which the model follows:

- An event still open when the series ends keeps its row, with only its start and month set: the loop ends without closing it (src/crit_functions.py:26-46).
- A missing day neither opens nor closes an event, since both comparisons with the threshold are false for NaN, and inside an event it still counts toward the duration (src/crit_functions.py:27, 36, 41-42).
- `interp` does not sort its known points (src/functions.py:178-204); its results for a known x and for interior x are stated for strictly ascending points.
- The routing floor correction compares with the same day's inflow and outflow, and overwrites that day's outflow (src/crit_functions.py:301-303).
- The older `calculate_ep` has no `dropna`: missing days are ranked after every present value, as `sort_values` places NaN last, and n counts them (functions.py:191-194).
- The cleaning pass the code labels "Average: 5-day" is a centred 3-day mean, `rolling(3, center=True)` (src/data_functions.py:379-381).
- `zero=True` passes the `isinstance(zero, int)` test and floors the series at 1 (src/data_functions.py:360-367).

## Left out

- Data acquisition and file access: the NWIS, SNOTEL and Hydromet importers, the csv importers, `check_dir`, and the file reads and writes of `save_seasons`, `get_seasons`, `createclone` and every `to_csv`/`read_csv`. `TextRules.CloneLines` models only the lines written.
- Plotting: every matplotlib function, and the plotting halves of `analyze_volwindow_duration`, `analyze_cvhs_duration` and `analyze_critdur`.
- SciPy and statsmodels statistics, and the log, skew and standard-deviation summaries of the multiplot script: these are foreign numerics.
- The geometric mean of the critical-duration statistics (src/crit_functions.py:100, functions.py:313): a real n-th root.
- `summarize_daily`: pandas floating-point aggregates.
- The CVHS driver beyond extraction and scaling: proxy-curve assembly, reading the rating file, the result array and saving.
- The top-level scripts: orchestration, batch cloning through subprocesses and hard-coded paths.
- Verbose and progress printing.
- The csv-file and single-string branches of `getsites`: they read a file or need no logic.
- The calendar-year branch of the monthly plot axis: only the water-year positions are modelled.
- Floating point: all arithmetic is on exact reals and `round` is ties-to-even on exact reals. Where floats would round differently, the model does not follow.
- Windows are ranked by their sums, not by the floating-point mean. `Rolling.MeanPeakEndIsMean` and `VolDur.LegacyBestEndIsMean` prove that this picks the same window on exact reals.
- A division by zero, and a pandas call that raises, become `None` or an error result instead of an exception, `inf` or NaN.
- Routing.Route: inflows are present values (`real`). A missing inflow is not modelled: on a day after day 0 it makes the storage NaN, and `interp` then raises on an empty selection (src/crit_functions.py:294, src/functions.py:196-197); on day 0 the row carries NaN as its inflow and no correction is applied (src/crit_functions.py:302). The same holds for Routing.DayRow and Routing.RouteSpec.
- VolDur.YearRowMeets: a water year whose every day is missing but is not skipped gives `Err(AllMissing)`, where pandas `idxmax` would raise or return NaN depending on the version.
- DataRules.AveragePass: pandas assigns the whole rolling frame to the masked cells. The model takes that column's centred mean, which is what the assignment aligns to.
- TextRules.ParseToken: `str.isdigit` is modelled on ASCII digits only.
- FlowDur.AnalyzeDur: requires the month-range keys to be distinct, which a Python dictionary guarantees.
- VolDur.BlocksPartition: requires water-year labels in date order, which a gap-free daily series labelled by water year has; the methods do not require it.

## Findings

| source | as written | input that shows it | evidently intended | confidence | as-written member | corrected member |
|---|---|---|---|---|---|---|
| src/crit_functions.py:370-372 | The label slice `hydro_vol_max-dur+1:hydro_vol_max+1` includes both ends, so it scales dur + 1 days when dur > 1, the day after the peak window included | A hydrograph with dur = 2, a present non-zero day right after the peak window, and a proxy flow different from the window mean: that day is also multiplied | Scale only the dur days of the peak window | not executed | Cvhs.ScaledAsWrittenExtraDay | Cvhs.ScaledMeets |
