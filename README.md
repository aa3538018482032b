# Time to merge of closed pull requests

This project models the time-to-merge report of `time_to_merge.py`. It has two parts.

- **The calculator** (`measure_time_to_merge`). Given a pull request and an optional
  ready-for-review timestamp, it answers "not merged" when the pull request has no merge
  timestamp. Otherwise it answers the merge time minus the ready-for-review time, or
  minus the creation time when no ready-for-review time is given.
- **The aggregation loop** of `main`. For each closed pull request, in the order given,
  it picks the ready-for-review time: creation time for a non-draft, last-update time
  for a draft. It measures the duration and, when the duration is truthy, appends a
  metric row, adds the duration to a running total and counts it. At the end it takes
  the average, or zero when nothing was counted.

Timestamps and durations are whole microseconds (`Timedelta.Timestamp`,
`Timedelta.Duration`), the resolution of Python's `datetime` and `timedelta`. So
subtraction is exact and negative durations pass through unchanged.

Files:

- `timedelta.dfy` (module `Timedelta`): `Option`, the truth test on an optional
  `timedelta`, and `timedelta / int` as round-half-to-even division.
- `time_to_merge.dfy` (module `TimeToMerge`): the records, the calculator, the
  ready-for-review choice, the specification of the loop (`MetricFor`, `Metrics`,
  `TotalTime`, `AverageTimeToMerge`) and the loop itself as the method `CollectMetrics`.
- `time_to_merge_properties.dfy` (module `TimeToMergeProperties`): the properties.
  `TotalOverAllMerges` and `CountExcludesInstantMerges` are stated against reference
  tallies (`MergedTotal`, `MergedCount`, `InstantMergeCount`) that do not go through
  the truth test.

Points where the code's behaviour is easy to misread:

- **Zero durations are dropped.** The loop tests `if time_to_merge:`, and a zero
  `timedelta` is falsy. A pull request merged exactly at its ready-for-review time
  therefore gets no row, adds nothing to the total and is not counted. One might
  expect every merged record to be averaged; it is not. `TotalOverAllMerges` shows that the
  total is still the sum over all merged records. `CountExcludesInstantMerges` shows that
  the count, the denominator of the average, leaves those records out.
- **Negative durations are kept.** A negative `timedelta` is truthy, so nothing clamps it
  (`NegativeDurationKept`).
- **A supplied ready-for-review time is always used.** The calculator tests
  `if ready_for_review_at:`, but a `datetime` is never falsy. So the test means "is
  supplied". The loop always supplies one, so it never takes the creation-time fallback.
- **The average is rounded.** `timedelta / int` rounds to the nearest microsecond, and a
  tie goes to the even neighbour. `Timedelta.DivideAndRound` follows that floor-`divmod`
  rounding step by step. Its contract is the definition of round-half-to-even, and
  `RoundingIsUnique` shows that this contract fixes the result.
- The report's "Total Closed PRs" line prints `count`. That is the number of rows, not
  the number of closed pull requests.

## Model

| member | source | states |
|---|---|---|
| `TimeToMerge.MeasureTimeToMerge` | time_to_merge.py:22-45 | the result is "not merged" exactly when the record has no merge timestamp; otherwise adding it to the start of the wait (the supplied timestamp, else the creation time) gives the merge timestamp |
| `TimeToMergeProperties.NotMergedWhateverReady` | time_to_merge.py:36-37 | a record with no merge timestamp is "not merged" whatever ready-for-review value is passed |
| `TimeToMergeProperties.MeasuredFromReady` | time_to_merge.py:41-42 | with a merge timestamp and a supplied ready-for-review time, the result is exactly their difference; it is negative exactly when the merge came first, and nothing clamps it |
| `TimeToMergeProperties.MeasuredFromCreation` | time_to_merge.py:44-45 | with a merge timestamp and no ready-for-review time, the result is the merge time minus the creation time |
| `TimeToMerge.ReadyForReviewAt` | time_to_merge.py:79 | the ready-for-review time is the creation time for a non-draft and the last-update time for a draft |
| `Timedelta.IsTruthy` | time_to_merge.py:81 | the truth test on the measured duration: "not merged" (`None`) and a zero duration are falsy, a negative or a positive duration is truthy |
| `TimeToMergeProperties.LoopDurationByDraftState` | time_to_merge.py:79-80 | in the loop, a merged non-draft is measured from its creation time and a merged draft from its last-update time |
| `TimeToMerge.MetricFor` | time_to_merge.py:79-87 | a record yields a row if and only if it is merged at a moment other than its ready-for-review time; the row carries that record's number, ready-for-review time and merge time, and a non-zero duration that spans the two |
| `TimeToMergeProperties.InstantMergeSkipped` | time_to_merge.py:80-81 | a merge at exactly the ready-for-review time measures a zero duration and yields no row |
| `TimeToMergeProperties.NegativeDurationKept` | time_to_merge.py:80-87 | a merge before the ready-for-review time yields a row with that negative duration |
| `TimeToMerge.Emitted` | time_to_merge.py:81-87 | one record contributes at most one row, any row it contributes is that record's own row, and a record that has a row always contributes it |
| `TimeToMerge.Metrics` | time_to_merge.py:78-87 | the loop appends at most one row per record, and no row has a zero duration |
| `TimeToMerge.LoopStep` | time_to_merge.py:78-88 | one pass appends the record's row and adds its duration to the total when its duration is truthy, and leaves the rows and the total as they were otherwise |
| `TimeToMerge.TotalTime` | time_to_merge.py:75 | the running total starts at zero: no rows add up to zero |
| `TimeToMerge.TotalOfConcat` | time_to_merge.py:75-88 | the total is additive over concatenation: the total of two runs of rows one after the other is the sum of their totals |
| `TimeToMerge.TotalOfLonger` | time_to_merge.py:88 | appending a row adds exactly its duration to the running total |
| `TimeToMergeProperties.SkippedRecordChangesNothing` | time_to_merge.py:81-89 | a record without a row changes neither the rows nor the total nor the count |
| `TimeToMergeProperties.CountedRecordAppends` | time_to_merge.py:81-89 | a record with a row appends exactly its own row at the end and adds its duration to the total |
| `TimeToMergeProperties.RowPositions` | time_to_merge.py:78-81 | the positions of the records that produce rows lie within the input and strictly increase |
| `TimeToMergeProperties.MetricsAtRowPositions` | time_to_merge.py:78-87 | the rows correspond one to one, in input order, to the records at those positions, and each row is built from its own record alone |
| `TimeToMergeProperties.RowPositionsComplete` | time_to_merge.py:78-87 | every record that produces a row is among those positions, so no row is lost |
| `TimeToMergeProperties.TotalOverAllMerges` | time_to_merge.py:81-88 | the total equals the sum of merge time minus ready-for-review time over every merged record, zero durations included |
| `TimeToMergeProperties.CountExcludesInstantMerges` | time_to_merge.py:81-89 | the count plus the number of records merged at their ready-for-review time equals the number of merged records |
| `TimeToMerge.AverageTimeToMerge` | time_to_merge.py:91 | the average is zero when nothing was counted; otherwise it is the total divided by the count, rounded to the nearest microsecond with ties to even, so there is no division by zero |
| `Timedelta.DivideAndRound` | time_to_merge.py:91 | `timedelta / n` for n > 0 is within half a microsecond of the exact quotient, and an exact tie gives the even neighbour |
| `Timedelta.RoundingIsUnique` | time_to_merge.py:91 | the round-half-to-even contract allows exactly one result, the one `DivideAndRound` returns |
| `Timedelta.RoundedNeighbours` | time_to_merge.py:91 | two integers that both meet the round-half-to-even contract are equal |
| `Timedelta.ExactQuotient` | time_to_merge.py:91 | when the count divides the total, the average is the exact quotient |
| `Timedelta.RoundedWithin` | time_to_merge.py:91 | rounding keeps the quotient inside any integer range that holds the exact quotient |
| `TimeToMergeProperties.TotalWithin` | time_to_merge.py:88 | if every row's duration lies in [lo, hi], the total lies in [lo * count, hi * count] |
| `TimeToMergeProperties.AverageWithinRowRange` | time_to_merge.py:91 | the average lies between the shortest and the longest counted duration, rounding included, and is zero when there are no rows |
| `TimeToMergeProperties.AverageOfTwoAndFourDays` | time_to_merge.py:74-91 | two non-draft records merged two and four days after creation give two rows and an average of three days |
| `TimeToMerge.CollectMetrics` | time_to_merge.py:74-91 | the loop returns exactly `Metrics` of its input as the rows, their duration sum as the total, their number as the count, and `AverageTimeToMerge` of those as the average |

## Left out

- GitHub access is not modelled: `github3.login`, `gh.repository`, `fetch_pull_requests` and `repo.pull_requests(...)` (time_to_merge.py:49-50, 70-72). They are network and authentication calls into a library. `CollectMetrics` takes the closed pull requests as a sequence of records in the order the library returns them.
- The open pull request count from the iterator's `.count` attribute (time_to_merge.py:92) is not modelled. Its meaning is defined by the library.
- Writing the report file and printing the confirmation (time_to_merge.py:53-63) are not modelled. They are file and console output, and they use Python's default text form of `datetime` and `timedelta`. The report writes one table row per element of `rows`, in order.
- Reading `GITHUB_TOKEN` and the fixed repository name (time_to_merge.py:67-68) are configuration, so they are not modelled.
- The assignment `merged_at = None` (time_to_merge.py:35) has no observable effect, so it is not modelled.
- `timedelta` range limits are not modelled. Durations are unbounded integers. Python raises `OverflowError` when a total passes 999,999,999 days, which no real repository reaches.
- Attribute access on the library's pull request object is modelled as plain record fields. `createdAt` and `updatedAt` are always present, because the hosting service always reports them.
