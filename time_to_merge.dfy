/**
 Time to merge of closed pull requests: the per-record calculator and the loop
 that turns a list of closed pull requests into metric rows, a total, a count
 and an average.
 */
module TimeToMerge {
  import opened Timedelta

  /** A closed pull request as the hosting service reports it. */
  datatype PullRequest = PullRequest(
    number: int,
    createdAt: Timestamp,
    updatedAt: Timestamp,
    mergedAt: Option<Timestamp>,   // None: closed without being merged
    isDraft: bool)

  /** One row of the report: the record's number, both timestamps and the duration. */
  datatype PrMetric = PrMetric(
    pr: int,
    readyForReviewAt: Timestamp,
    mergedAt: Timestamp,
    timeToMerge: Duration)

  /** Where the waiting time starts: the supplied timestamp, else the creation time. */
  function WaitStart(pr: PullRequest, readyForReviewAt: Option<Timestamp>): Timestamp
  {
    match readyForReviewAt
    case Some(t) => t
    case None => pr.createdAt
  }

  /**
   The calculator. "Not merged" when the record has no merge timestamp;
   otherwise the signed time from the start of the wait to the merge. A
   supplied timestamp is always used: a `datetime` is never falsy in Python.
   */
  function MeasureTimeToMerge(pr: PullRequest, readyForReviewAt: Option<Timestamp>): (d: Option<Duration>)
    ensures d.None? <==> pr.mergedAt.None?
    ensures d.Some? ==> WaitStart(pr, readyForReviewAt) + d.value == pr.mergedAt.value
  {
    if pr.mergedAt.None? then None
    else
      var mergedAt := pr.mergedAt.value;
      if readyForReviewAt.Some? then Some(mergedAt - readyForReviewAt.value)
      else Some(mergedAt - pr.createdAt)
  }

  /** The loop's choice of ready-for-review time: creation for a non-draft, last update for a draft. */
  function ReadyForReviewAt(pr: PullRequest): (t: Timestamp)
    ensures !pr.isDraft ==> t == pr.createdAt
    ensures pr.isDraft ==> t == pr.updatedAt
  {
    if !pr.isDraft then pr.createdAt else pr.updatedAt
  }

  /**
   What one pass of the loop contributes: a row when the measured duration is
   truthy, nothing otherwise. A row appears exactly when the record was merged
   at a moment other than its ready-for-review time, and then carries that
   record's own number and timestamps.
   */
  function MetricFor(pr: PullRequest): (m: Option<PrMetric>)
    ensures m.Some? <==> pr.mergedAt.Some? && pr.mergedAt.value != ReadyForReviewAt(pr)
    ensures m.Some? ==>
      && m.value.pr == pr.number
      && m.value.readyForReviewAt == ReadyForReviewAt(pr)
      && m.value.mergedAt == pr.mergedAt.value
      && m.value.readyForReviewAt + m.value.timeToMerge == m.value.mergedAt
      && m.value.timeToMerge != 0
  {
    var ready := ReadyForReviewAt(pr);
    var timeToMerge := MeasureTimeToMerge(pr, Some(ready));
    if IsTruthy(timeToMerge) then
      Some(PrMetric(pr.number, ready, pr.mergedAt.value, timeToMerge.value))
    else
      None
  }

  /** The rows the loop has appended after the given records, in their order. */
  function Metrics(pulls: seq<PullRequest>): (rows: seq<PrMetric>)
    ensures |rows| <= |pulls|
    ensures forall k :: 0 <= k < |rows| ==> rows[k].timeToMerge != 0
  {
    if pulls == [] then []
    else Metrics(pulls[..|pulls| - 1]) + Emitted(pulls[|pulls| - 1])
  }

  /** The rows one record contributes: its row if it has one, else none. */
  function Emitted(pr: PullRequest): (rows: seq<PrMetric>)
    ensures |rows| <= 1
    ensures forall k :: 0 <= k < |rows| ==> MetricFor(pr) == Some(rows[k])
    ensures MetricFor(pr).Some? ==> rows == [MetricFor(pr).value]
  {
    match MetricFor(pr)
    case Some(m) => [m]
    case None => []
  }

  /** The sum of the rows' durations (the running `total_time_to_merge`). */
  function TotalTime(rows: seq<PrMetric>): (total: Duration)
    ensures rows == [] ==> total == 0
  {
    if rows == [] then 0
    else TotalTime(rows[..|rows| - 1]) + rows[|rows| - 1].timeToMerge
  }

  /** The reported average: the rounded quotient when something was counted, zero otherwise. */
  function AverageTimeToMerge(total: Duration, count: nat): (avg: Duration)
    ensures count == 0 ==> avg == 0
    ensures count > 0 ==> -(count as int) <= 2 * (total - avg * count) <= count
    ensures count > 0 && (2 * (total - avg * count) == count || 2 * (total - avg * count) == -(count as int))
            ==> avg % 2 == 0
  {
    if count > 0 then DivideAndRound(total, count) else 0
  }

  /**
   The aggregation loop: walks the closed pull requests in the order given,
   appends a row, adds to the total and counts for each record whose duration
   is truthy, and finally takes the average.
   */
  method CollectMetrics(pulls: seq<PullRequest>)
    returns (rows: seq<PrMetric>, total: Duration, count: nat, average: Duration)
    ensures rows == Metrics(pulls)
    ensures total == TotalTime(rows)
    ensures count == |rows|
    ensures average == AverageTimeToMerge(total, count)
  {
    rows := [];
    total := 0;
    count := 0;
    var i := 0;
    while i < |pulls|
      invariant 0 <= i <= |pulls|
      invariant rows == Metrics(pulls[..i])
      invariant total == TotalTime(rows)
      invariant count == |rows|
    {
      var pr := pulls[i];
      var ready := ReadyForReviewAt(pr);
      var timeToMerge := MeasureTimeToMerge(pr, Some(ready));
      LoopStep(pulls, i, rows, total);
      if IsTruthy(timeToMerge) {
        rows := rows + [PrMetric(pr.number, ready, pr.mergedAt.value, timeToMerge.value)];
        total := total + timeToMerge.value;
        count := count + 1;
      }
      i := i + 1;
    }
    assert pulls[..i] == pulls;
    average := AverageTimeToMerge(total, count);
  }

  /**
   One pass of the loop: record i appends its row and adds its duration to the
   total when its duration is truthy, and leaves both as they were otherwise.
   */
  lemma LoopStep(pulls: seq<PullRequest>, i: nat, rows: seq<PrMetric>, total: Duration)
    requires i < |pulls|
    requires rows == Metrics(pulls[..i]) && total == TotalTime(rows)
    ensures var pr := pulls[i];
            var ready := ReadyForReviewAt(pr);
            var timeToMerge := MeasureTimeToMerge(pr, Some(ready));
            if IsTruthy(timeToMerge) then
              var row := PrMetric(pr.number, ready, pr.mergedAt.value, timeToMerge.value);
              Metrics(pulls[..i + 1]) == rows + [row] && TotalTime(rows + [row]) == total + timeToMerge.value
            else
              Metrics(pulls[..i + 1]) == rows
  {
    assert pulls[..i + 1][..i] == pulls[..i];
    assert Metrics(pulls[..i + 1]) == rows + Emitted(pulls[i]);
    if MetricFor(pulls[i]).Some? {
      TotalOfLonger(rows, MetricFor(pulls[i]).value);
    }
  }

  /** The total of two runs of rows one after the other is the sum of their totals. */
  lemma {:induction false} TotalOfConcat(front: seq<PrMetric>, back: seq<PrMetric>)
    ensures TotalTime(front + back) == TotalTime(front) + TotalTime(back)
  {
    if back == [] {
      assert front + back == front;
    } else {
      var n := |back| - 1;
      var whole := front + back;
      assert whole[..|whole| - 1] == front + back[..n];
      assert whole[|whole| - 1] == back[n];
      TotalOfConcat(front, back[..n]);
    }
  }

  /** One more row adds its duration to the total. */
  lemma TotalOfLonger(rows: seq<PrMetric>, row: PrMetric)
    ensures TotalTime(rows + [row]) == TotalTime(rows) + row.timeToMerge
  {
    assert (rows + [row])[..|rows|] == rows;
  }
}
