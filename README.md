# discord-scatter-heatmap: the message-density pass, in Dafny

The script reads the message timestamps of a chat-export data dump. It sorts
them and splits each one into a calendar date and a time of day, which are the
two axes of a scatter plot. When heat-mapping is on, it also gives each message
a density. The density is the number of messages strictly within `windowSize`
seconds of it, itself included, and it stops growing once it is no longer below
`windowSize / timeGap`. This project models that processing pass and the CSV
row filter that feeds it, and proves what they compute.

- `timestamps.dfy` (module `Timestamps`): timestamps as whole microseconds
  since 1970-01-01, the resolution of Python's `datetime`. It also holds the
  date-only coordinate `DateOnly`, the midnight of the day computed as
  `t - t % MicrosPerDay`, and the time-only coordinate `TimeOnly`, built from
  the hour, minute and second fields.
- `sorting.dfy` (module `Sorting`): `dates = sorted(dates)` as an insertion
  sort. It comes with a proof that an ascending permutation is unique, so it
  gives the same list as any other correct sort.
- `csv_ingest.dfy` (module `CsvIngest`): the row filter of `messages.csv`. Rows
  whose second field is the header label `"Timestamp"` are skipped. A row
  without a second field is an error, which is the script's `IndexError`.
  ISO-8601 parsing is a function parameter `parse`.
- `density.dfy` (module `Density`): the reference count `Within`, the cap
  test `BelowCap` and the cap `Cap`, and `WindowDensity`, the closed form of
  the density. The lemmas connect the two scans to it.
- `date_pass.dfy` (module `DatePass`): lines 50-67 as imperative code.
  `ProcessDates` appends to `days`, `times` and `messageDensity` once per
  timestamp. `AppendDensity` is lines 59-67: it appends 1 and increments the
  new entry through the forward and the backward `while` loops. Both
  are proved against `WindowDensity`.

The float test `messageDensity[i] < maxDensity` with
`maxDensity = windowSize/timeGap` is decided exactly on integers. When
`timeGap > 0` it becomes `count * timeGap < windowSize`; when `timeGap < 0`
the inequality flips. `Cap` is the least count from 1 upward that fails this
test, which is `max(1, ⌈windowSize/timeGap⌉)`.

## Behaviour the proofs pin down

- The density of position `i` is `min(1 + F + B, Cap)`, where F counts the
  later and B the earlier timestamps strictly within the window. The cap is
  shared by the two scans, but on a sorted list this loses nothing. With a
  positive window the density is the clipped size of the full window
  population (`DensityIsClippedPopulation`). It depends only on which
  timestamps were collected, not on the order in which they were read
  (`DensityIgnoresArrivalOrder`). So sharing the cap between the two scans
  does not make the density depend on order.
- The cap is `⌈windowSize/timeGap⌉`, not `windowSize/timeGap`. When the ratio
  is not a whole number a density can exceed `maxDensity`, for example 3 when
  the ratio is 2.5. When the ratio is below 1 every density is 1.
- Messages at 12:00:00, 12:00:10 and 12:20:01 with a 20-minute window get
  densities 2, 3 and 2. The third is 1201 s after the first but only 1191 s
  after the second (`ThreeMessageDensities`).

## Model

| member | source | states |
|---|---|---|
| `Timestamps.Seconds` | discord-scatter-plot.py:61 | `timedelta(seconds=n)` is a whole number of seconds: `n` seconds and no sub-second part |
| `Timestamps.Hour` | discord-scatter-plot.py:56 | the `hour` field lies in [0, 24) |
| `Timestamps.Minute` | discord-scatter-plot.py:56 | the `minute` field lies in [0, 60) |
| `Timestamps.Second` | discord-scatter-plot.py:56 | the `second` field lies in [0, 60) |
| `Timestamps.DateOnly` | discord-scatter-plot.py:54 | the date-only value is a midnight (zero time of day) and the timestamp lies in the 24 hours starting there |
| `Timestamps.TimeOnly` | discord-scatter-plot.py:56 | the time-only value lies in [0, 86400) seconds on 1970-01-01, is a whole number of seconds, and is the timestamp's second of the day |
| `Timestamps.HmsIsSecondOfDay` | discord-scatter-plot.py:56 | hour, minute and second fields put back together give the second of the day |
| `Timestamps.DateTimeRoundTrip` | discord-scatter-plot.py:54-57 | day part + time of day + the dropped microseconds reproduce the original timestamp |
| `Timestamps.SplitOfCombined` | discord-scatter-plot.py:54-57 | the split is unique: from midnight + whole-second time of day + sub-second rest, DateOnly and TimeOnly recover exactly the day and the time |
| `Timestamps.SplitMonotone` | discord-scatter-plot.py:51-57 | for sorted timestamps the days never go backwards, and within one day the times never go backwards |
| `Sorting.SortAscending` | discord-scatter-plot.py:51 | the sorted list is ascending and a permutation of the collected timestamps |
| `Sorting.AscendingPermutationUnique` | discord-scatter-plot.py:51 | two ascending permutations of the same timestamps are equal, so the model's sort and `sorted` give the same list |
| `Sorting.AdjacentAscendingIff` | discord-scatter-plot.py:51 | ascending over all pairs iff every adjacent pair is in order |
| `CsvIngest.ReadRow` | discord-scatter-plot.py:40-41 | a row adds nothing iff its second field is `"Timestamp"`, otherwise exactly the parsed second field; a row without a second field is an error |
| `CsvIngest.ReadRows` | discord-scatter-plot.py:39-41 | reading succeeds iff every row has a second field; otherwise the error names the first row without one; at most one timestamp per row |
| `CsvIngest.ReadRowsAppend` | discord-scatter-plot.py:39-41 | reading rows a then b gives a's timestamps followed by b's (row order is kept) |
| `CsvIngest.DataFields` | discord-scatter-plot.py:40 | the kept fields are at most one per row and none of them is the header label |
| `CsvIngest.DataFieldsMembership` | discord-scatter-plot.py:40 | a field is kept iff some row holds it in the timestamp column and it is not `"Timestamp"` |
| `CsvIngest.ReadRowsParsesDataFields` | discord-scatter-plot.py:39-41 | on success the result has one entry per kept field, in row order, each the parse of that field |
| `Density.Within` | discord-scatter-plot.py:61-66 | the reference window count (`InWindow`: strictly after `c - windowSize` and strictly before `c + windowSize`, as the two loop guards test) never exceeds the number of timestamps looked at |
| `Density.WithinPermutation` | discord-scatter-plot.py:51 | the window count of a point does not depend on the order of the collection |
| `Density.CeilDiv` | discord-scatter-plot.py:52 | the result is the ceiling of a / b: (q-1)·b < a ≤ q·b |
| `Density.BelowCap` | discord-scatter-plot.py:52-65 | the guard `count < windowSize/timeGap` decided exactly on integers, with the inequality flipped for a negative `timeGap`: it holds iff count < the quotient when the division is exact and count ≤ its floor otherwise |
| `Density.Cap` | discord-scatter-plot.py:52 | the cap is at least 1, fails the test `count < windowSize/timeGap`, and is the least such count from 1 upward |
| `Density.BelowCapIff` | discord-scatter-plot.py:61-65 | for every count ≥ 1 the loop guard `count < maxDensity` holds iff count < Cap |
| `Density.BelowCapDownward` | discord-scatter-plot.py:52 | a count below the cap stays below it when made smaller |
| `Density.WindowDensity` | discord-scatter-plot.py:59-67 | every density lies between 1 and the cap |
| `Density.ForwardRun` | discord-scatter-plot.py:61-63 | after j-1 steps of the forward scan there are at least j-1 later neighbours, and exactly j-1 once the scan hits the end of the list or a timestamp at or past `date + windowSize` |
| `Density.BackwardRun` | discord-scatter-plot.py:65-67 | the same for the backward scan, with the boundary `date - windowSize` |
| `Density.ForwardScanStops` | discord-scatter-plot.py:60-63 | when the forward loop exits, the count is 1 + the later neighbours, clipped at the cap |
| `Density.BackwardScanStops` | discord-scatter-plot.py:64-67 | when the backward loop exits, the count is the full density min(1 + F + B, Cap) |
| `Density.DensityIsClippedPopulation` | discord-scatter-plot.py:59-67 | with a positive window, density = min(number of timestamps strictly within the window around the point, Cap) |
| `Density.DensityIgnoresArrivalOrder` | discord-scatter-plot.py:51-67 | the density of each sorted position is min(window population in the unsorted collection, Cap) |
| `Density.IsolatedDensityIsOne` | discord-scatter-plot.py:59-67 | a point with no other timestamp strictly within the window has density exactly 1 |
| `Density.WindowBoundaryExcluded` | discord-scatter-plot.py:61-65 | two timestamps exactly `windowSize` apart do not count each other: both have density 1 |
| `Density.ThreeMessageDensities` | discord-scatter-plot.py:59-67 | 12:00:00, 12:00:10, 12:20:01 with windowSize 1200 and timeGap 20 get densities 2, 3, 2 |
| `DatePass.AppendDensity` | discord-scatter-plot.py:59-67 | appending 1 and running both loops adds exactly `WindowDensity(dates, i)` after the existing densities |
| `DatePass.ProcessDates` | discord-scatter-plot.py:50-67 | `dates` is the ascending permutation of the input; `days`, `times` and (when heat-mapping) `messageDensity` each have one entry per timestamp, index-aligned, holding DateOnly, TimeOnly and WindowDensity; with heat-mapping off `messageDensity` stays empty |

## Left out

- Directory walking, the choice between `messages.csv` and `messages.json`, and file reading (lines 26-37, 42) are I/O. The JSON branch (lines 31-35) would add one timestamp per record with no filter.
- ISO-8601 parsing (`datetime.fromisoformat`, lines 34 and 41) is the `parse` parameter of `CsvIngest.ReadRows`. Malformed text, which raises in the script, is not modelled.
- Time zones are not modelled: every timestamp is taken in one zone. Dates are midnights in microseconds rather than (year, month, day) triples, because the calendar conversion is library code.
- `datetime` range limits are not modelled: `date ± timedelta` raises `OverflowError` near years 1 and 9999, and the model's integers are unbounded.
- `maxDensity` is a float in the script and `BelowCap` compares exactly. The two differ only if `windowSize/timeGap` is so large that rounding it to a double changes which integers lie below it.
- `timeGap == 0` raises `ZeroDivisionError` at line 52, so `ProcessDates`, `AppendDensity` and the density functions require `timeGap != 0`.
- The progress output (lines 44, 50, 68-69) is output only.
- All rendering and file output (lines 71-128) are plotting-library calls and float layout. This includes the `min`/`max` of an empty `days` list at line 81, which raises on an empty dump.
- `dates` is modelled as an immutable sequence, because the script never changes the list after sorting it. `sorted` returns a new list, so it is modelled by the function `SortAscending`. `messageDensity` is modelled as a value: a `seq` reassigned with `updated[i := updated[i] + 1]` rather than a list changed in place. Nothing else refers to the list in the script, so no aliasing is lost.
