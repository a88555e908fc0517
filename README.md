# Cat weight tracker — a Dafny model of the growth-chart logic

The web application keeps weighings of two kittens, Simba and Nala, in a
`weights` table. Its index page draws one growth chart per cat. Each chart has
three parts:

- the cat's weights plotted against its age in fractional calendar months since
  its birth date (2025-08-30);
- a shaded reference band, interpolated from a small table of lower and upper
  weights per age (one table for males, one for females);
- an x-axis window that runs from one week before the first weighing of either
  cat to one week after the last.

This project models that logic in five modules:

- `Calendar` (`calendar.dfy`): proleptic Gregorian dates, day numbers,
  `timedelta(days=k)` steps, and `pd.DateOffset(months=n)` with its clamping
  to the end of shorter months.
- `AgeCalculator` (`age.dfy`): `calculate_age_months`. It includes the whole
  months and days that `relativedelta` reports, and the length of the month
  that the fraction is taken over.
- `ReferenceBand` (`band.dfy`): the `MALE_REF` and `FEMALE_REF` tables,
  `np.linspace`, `np.interp`, and the band built on a 300-point grid.
- `Records` (`records.dfy`): the cleaning on the index page. It drops rows
  whose weight or date did not parse and adds the age column. It also builds
  one cat's series, filtered and sorted by date.
- `Chart` (`chart.dfy`): the view window, `create_interactive_plot`, and the
  index page's decision to draw the charts at all.

The modelled lines of `app.py` (15-57 and 128-145) are pure computation once
the rows of the table are given. The model is therefore written as datatypes,
functions and lemmas. The database reads and writes, the clock and the HTTP
handlers are left out.

Ages are exact rationals (`real`). Timestamps have minute resolution, which is
what `date_str` ("YYYY-MM-DD HH:MM") holds. pandas sorts timestamps by their
integer value. The model sorts by an equivalent key: the day number times 1440,
plus the minute of the day.

## Model

| member | source | states |
|---|---|---|
| Calendar.DaysInMonth | app.py:19-21 | a calendar month has 28 to 31 days, and fewer than 30 only in February |
| Calendar.Ordinal | app.py:21 | day numbers count from 0001-01-01 as day 1, as `date.toordinal` does, and never fall below the day of the month; differences of day numbers are the `.days` of line 21 |
| Calendar.BeforeIffOrdinalLess | app.py:16 | comparing dates field by field agrees with comparing their day numbers; equal dates have equal day numbers and no others do |
| Calendar.StampKeyOrder | app.py:41 | the sort key orders timestamps chronologically, and two timestamps share a key only when they are the same instant |
| Calendar.AddDays | app.py:47 | adding k days gives a valid date exactly k day numbers later |
| Calendar.SubDays | app.py:46 | subtracting k days gives a valid date exactly k day numbers earlier |
| Calendar.AddMonths | app.py:19-20 | `birth + DateOffset(months=n)` lands n calendar months later, on the same day clamped to the length of the target month |
| Calendar.AddMonthsStrictlyIncreasing | app.py:19-20 | month offsets of a date are strictly increasing in n, in both directions |
| Calendar.MonthOffsetSpan | app.py:19-21 | two consecutive month offsets of a date are 28 to 31 days apart, clamping included |
| AgeCalculator.FullMonths | app.py:17-18 | the full months are an offset not later than the current date whose next offset is later |
| AgeCalculator.FullMonthsIsLargest | app.py:17-18 | offset m is not later than the current date exactly when m is at most the full months |
| AgeCalculator.RelativeDelta | app.py:17-22 | the leftover days are fewer than the days of the month that follows the last full month, and offset plus days lands on the current date |
| AgeCalculator.MonthSpan | app.py:19-22 | `days_in_month` lies between 28 and 31, so the `days_in_month > 0` guard always holds |
| AgeCalculator.MonthFraction | app.py:22 | the fraction is non-negative, below 1 when days < month length, and 0 exactly when the days or the guard are 0 |
| AgeCalculator.AgeMonths | app.py:15-23 | the age is never negative |
| AgeCalculator.AgeZeroIff | app.py:16-23 | the age is 0 exactly when the current date is on or before the birth date |
| AgeCalculator.AgeBetweenWholeMonths | app.py:18-23 | from the birth date on, full_months <= age < full_months + 1, so the age's floor is the full months |
| AgeCalculator.AgeAtMonthOffset | app.py:17-23 | at any time of day on the date n months after birth, the age is exactly n |
| AgeCalculator.AgeWithinMonth | app.py:19-23 | between offsets n and n+1, the age is n plus the elapsed days over that month's length |
| AgeCalculator.AgeMonotone | app.py:15-23 | a later timestamp never has a smaller age |
| AgeCalculator.ExampleOneMonth | app.py:15-23 | from 30 August to 30 September is exactly one month, an age of 1.0 |
| AgeCalculator.ExampleFirstMonth | app.py:15-23 | 16 days into the 31-day first month after a 30 August birth gives 16/31 |
| AgeCalculator.ExampleMidMonth | app.py:15-23 | 15 days into a 30-day month after a one-month birthday gives 1.5 |
| AgeCalculator.ExampleClampedToFebruary | app.py:19-20 | a 30 August birthday reaches 6 months on 28 February of a common year |
| AgeCalculator.ExampleAfterFebruary | app.py:19-22 | one day after that clamped offset, the fraction is taken over the 30 days to 30 March |
| ReferenceBand.Ages | app.py:50 | `ref_months` has one entry per table row, the row's age |
| ReferenceBand.Lowers | app.py:51 | `ref_min` has one entry per table row, the row's lower weight |
| ReferenceBand.Uppers | app.py:52 | `ref_max` has one entry per table row, the row's upper weight |
| ReferenceBand.MaxOf | app.py:54 | `max` returns an element of the list that no element exceeds |
| ReferenceBand.MaleRefWellFormed | app.py:26-30 | the male table's ages strictly increase, each lower weight is at most its upper weight, and the last age is 10 |
| ReferenceBand.FemaleRefWellFormed | app.py:31-35 | the same for the female table |
| ReferenceBand.Linspace | app.py:55 | the grid has `num` points, starts at `start` and ends exactly at `stop` |
| ReferenceBand.LinspaceEvenlySpaced | app.py:55 | consecutive grid points are `(stop - start) / (num - 1)` apart |
| ReferenceBand.LinspacePoint | app.py:55 | point i is `start + i * step` |
| ReferenceBand.LinspaceNonDecreasing | app.py:55 | when start <= stop, the grid never decreases |
| ReferenceBand.LinspaceWithin | app.py:55 | every grid point lies between start and stop |
| ReferenceBand.Interp | app.py:56-57 | `np.interp` returns the first value left of the first knot and the last value right of the last knot |
| ReferenceBand.InterpAtKnot | app.py:56-57 | at a knot, the interpolant equals the table value |
| ReferenceBand.InterpOnSegment | app.py:56-57 | between knots k and k+1, the interpolant is the straight line through those two points |
| ReferenceBand.InterpBetween | app.py:56-57 | between knots k and k+1, the interpolant lies between the two neighbouring values |
| ReferenceBand.InterpWithinRange | app.py:56-57 | the interpolant never leaves the range of the table values |
| ReferenceBand.InterpOrdered | app.py:56-57 | when lower values are pointwise at most upper values, so are their interpolants at every x |
| ReferenceBand.InterpAll | app.py:56-57 | `np.interp` on an array interpolates each grid point on its own, keeping the grid's length and order |
| ReferenceBand.BuildBand | app.py:50-57 | the band has 300 points, and its grid runs from 0 to max(end_view, last table age) |
| ReferenceBand.BandOrdered | app.py:56-57 | the lower bound of the band never exceeds the upper bound |
| ReferenceBand.BandCoversTable | app.py:54-55 | the grid reaches every age in the table |
| ReferenceBand.BandAfterTable | app.py:56-57 | beyond the last table age, the band is flat at the last row's bounds |
| ReferenceBand.BandBeforeTable | app.py:56-57 | at or before the first table age, the band is at the first row's bounds |
| Records.DropNa | app.py:133 | `dropna(subset=[c])` keeps exactly the rows holding a value in column c, and never adds any |
| Records.DropNaAppend | app.py:133-136 | dropping keeps the table's order: the rows kept from a concatenation are the parts' kept rows, one after the other |
| Records.DropNaCommute | app.py:133-136 | the two `dropna` calls give the same frame in either order |
| Records.DropNaKeepsAll | app.py:133 | nothing is dropped exactly when every row holds a value |
| Records.ToRecord | app.py:138 | a cleaned row keeps its id, name, text, weight and timestamp, and its age column is the age at that timestamp |
| Records.WithAges | app.py:138 | the age column is added row by row, one record per row, in order |
| Records.CleanRows | app.py:132-138 | cleaning never adds rows, and it keeps every row exactly when every row's weight and date parsed |
| Records.CleanKeepsAll | app.py:133-136 | the two `dropna` calls together drop nothing exactly when every row parsed |
| Records.CleanRowsMembership | app.py:132-138 | a record survives cleaning exactly when it comes from a row whose weight and date both parsed |
| Records.CleanRowsAppend | app.py:132-138 | cleaning a concatenation cleans each part, so records keep the table's order |
| Records.CleanRowsConsistent | app.py:136-138 | cleaned records have valid timestamps, and each age column holds the age at its timestamp |
| Records.SelectCat | app.py:41 | the mask keeps exactly the named cat's records, each exactly as often as in the frame, and no other record |
| Records.SortByDate | app.py:41 | the sorted series is a permutation of its input and is ordered by timestamp |
| Records.InsertSorted | app.py:41 | inserting a record into a date-ordered list keeps it date-ordered |
| Records.CatSeries | app.py:41 | the cat's series is ordered by timestamp |
| Records.CatSeriesContents | app.py:41 | the cat's series holds exactly that cat's records, each exactly as often as in the frame |
| Records.CatSeriesAgesNonDecreasing | app.py:41 | along a cat's series, the age column never decreases |
| Chart.BirthDateFirstMonth | app.py:129 | with the page's birth date 2025-08-30, a weighing on 2025-09-15 is 16/31 months old |
| Chart.Earliest | app.py:44 | `df['date'].min()` is the timestamp of some record, and no record is earlier |
| Chart.Latest | app.py:45 | `df['date'].max()` is the timestamp of some record, and no record is later |
| Chart.WeekBefore | app.py:46 | subtracting seven days keeps the time of day and lands 7 day numbers earlier |
| Chart.WeekAfter | app.py:47 | adding seven days keeps the time of day and lands 7 day numbers later |
| Chart.ViewWindow | app.py:44-47 | the window's left edge is never a negative age |
| Chart.ViewWindowOrdered | app.py:46-47 | start_view <= end_view |
| Chart.ViewWindowCovers | app.py:44-47 | every weighing of either cat has its age inside the window |
| Chart.CreatePlot | app.py:37-57 | the band is the one built from the given table up to the window's right edge, with its grid ending at max(end_view, last table age); the grid starts at or before the window and ends at or after it; the trace holds exactly the cat's records, each as often as in the frame, ordered by timestamp |
| Chart.PlotSeriesInView | app.py:41-47 | the trace's ages never decrease and stay inside the window |
| Chart.AsWrittenGuardAdmitsEmptyFrame | app.py:128-141 | some non-empty table leaves no record after cleaning, yet the line 128 test still lets the charts be built |
| Chart.TableOf | app.py:145 | the table under the charts lists the id, name, date text and weight of each cleaned row, in order |
| Chart.IndexPage | app.py:128-145 | with the test made on the cleaned records, both charts exist exactly when some row parsed; Simba's chart is built from the male table and Nala's from the female table, both over all cleaned records; the table lists the cleaned rows |

## Left out

- Flask routing, the `/add` and `/delete` handlers, sqlite access and the
  template are I/O. The rows the query returns are an input. The
  `ORDER BY date_str DESC` order is kept as the input order.
- Plotly figure construction, colours, layout and hover text are
  presentation. A chart is modelled by its band, its series and its x-axis
  window.
- `datetime.now()` and `datetime.today()` are clock reads. The `date_str`
  composition in `/add` (app.py:164-168) belongs to the write path and is not
  part of this model.
- `pd.to_numeric` and `pd.to_datetime` parsing is taken as already done. Each
  row carries `Option` values, and `None` stands for `NaN`/`NaT`.
- Parsed timestamps are assumed to lie in years 1677 to 2262. pandas' exact
  bounds (1677-09-21 to 2262-04-11) are not modelled, and neither is the
  overflow of adding seven days at the upper bound.
- Seconds and time zones are not modelled. `date_str` holds minutes, and
  timestamps are naive.
- `ReferenceBand.Interp`, `ReferenceBand.Linspace`,
  `AgeCalculator.MonthFraction`: the model computes in exact rationals. It
  does not model IEEE-754 rounding of the division, of `7/30.44`, or of the
  linspace step.
- `Records.SortByDate`: this is an insertion sort. Its contract (ordered by
  date, a permutation of the input) is all that pandas' default quicksort
  promises. The model does not fix the relative order of records with equal
  timestamps.
- `AgeCalculator.AgeMonths`: the birth date is a calendar day at midnight, as
  `pd.Timestamp("2025-08-30")` is. The case of a birth timestamp with a time
  of day is not modelled.
- `Chart.CreatePlot`: when the cat has no records, the trace is an empty
  series rather than an absent trace.

## Findings

| source | as written | input that shows it | evidently intended | confidence | as-written member | corrected member |
|---|---|---|---|---|---|---|
| app.py:128-142 | The charts are built when the raw frame has rows (`not df.empty`). The test is made before the rows with an unparsable weight or date are dropped. | A table with one row whose weight is `"abc"`. Cleaning leaves an empty frame, `df['date'].min()` is `NaT`, and computing the age of `NaT` fails instead of rendering a page. | Draw the charts only when some row survived cleaning; otherwise render the page without charts and with an empty table. | medium, not executed | Chart.AsWrittenGuardAdmitsEmptyFrame | Chart.IndexPage |
