/**
 What the calculator and the aggregation loop promise. TotalOverAllMerges and
 CountExcludesInstantMerges are stated against reference tallies (MergedTotal,
 MergedCount, InstantMergeCount) that do not go through the loop's truth test.
 */
module TimeToMergeProperties {
  import opened Timedelta
  import opened TimeToMerge

  // ---------------------------------------------------------------------------
  // The calculator
  // ---------------------------------------------------------------------------

  /** A record without a merge timestamp is "not merged", whatever ready-for-review time is passed. */
  lemma NotMergedWhateverReady(pr: PullRequest, ready1: Option<Timestamp>, ready2: Option<Timestamp>)
    requires pr.mergedAt.None?
    ensures MeasureTimeToMerge(pr, ready1) == MeasureTimeToMerge(pr, ready2) == None
  {
  }

  /**
   With a merge timestamp and a supplied ready-for-review time the result is
   exactly their difference; it is negative exactly when the merge came first,
   and nothing clamps it.
   */
  lemma MeasuredFromReady(pr: PullRequest, ready: Timestamp)
    requires pr.mergedAt.Some?
    ensures MeasureTimeToMerge(pr, Some(ready)) == Some(pr.mergedAt.value - ready)
    ensures MeasureTimeToMerge(pr, Some(ready)).value < 0 <==> pr.mergedAt.value < ready
  {
  }

  /** With a merge timestamp and no ready-for-review time the result is the time since creation. */
  lemma MeasuredFromCreation(pr: PullRequest)
    requires pr.mergedAt.Some?
    ensures MeasureTimeToMerge(pr, None) == Some(pr.mergedAt.value - pr.createdAt)
  {
  }

  /**
   The loop always supplies a ready-for-review time, so for a merged record the
   duration runs from creation (non-draft) or from the last update (draft).
   */
  lemma LoopDurationByDraftState(pr: PullRequest)
    requires pr.mergedAt.Some?
    ensures !pr.isDraft ==> MeasureTimeToMerge(pr, Some(ReadyForReviewAt(pr))) == Some(pr.mergedAt.value - pr.createdAt)
    ensures pr.isDraft ==> MeasureTimeToMerge(pr, Some(ReadyForReviewAt(pr))) == Some(pr.mergedAt.value - pr.updatedAt)
  {
  }

  /** A merge at exactly the ready-for-review time gives a falsy zero duration: no row. */
  lemma InstantMergeSkipped(pr: PullRequest)
    requires pr.mergedAt == Some(ReadyForReviewAt(pr))
    ensures MeasureTimeToMerge(pr, Some(ReadyForReviewAt(pr))) == Some(0)
    ensures MetricFor(pr) == None
  {
  }

  /** A merge before the ready-for-review time is kept, with its negative duration. */
  lemma NegativeDurationKept(pr: PullRequest)
    requires pr.mergedAt.Some? && pr.mergedAt.value < ReadyForReviewAt(pr)
    ensures MetricFor(pr).Some?
    ensures MetricFor(pr).value.timeToMerge == pr.mergedAt.value - ReadyForReviewAt(pr) < 0
  {
  }

  // ---------------------------------------------------------------------------
  // The rows
  // ---------------------------------------------------------------------------

  /** A skipped record leaves the rows, and so the total and the count, as they were. */
  lemma SkippedRecordChangesNothing(pulls: seq<PullRequest>, pr: PullRequest)
    requires MetricFor(pr).None?
    ensures Metrics(pulls + [pr]) == Metrics(pulls)
    ensures TotalTime(Metrics(pulls + [pr])) == TotalTime(Metrics(pulls))
  {
    assert (pulls + [pr])[..|pulls|] == pulls;
  }

  /** A counted record appends its own row at the end and adds its duration to the total. */
  lemma CountedRecordAppends(pulls: seq<PullRequest>, pr: PullRequest)
    requires MetricFor(pr).Some?
    ensures Metrics(pulls + [pr]) == Metrics(pulls) + [MetricFor(pr).value]
    ensures TotalTime(Metrics(pulls + [pr])) == TotalTime(Metrics(pulls)) + MetricFor(pr).value.timeToMerge
  {
    assert (pulls + [pr])[..|pulls|] == pulls;
    TotalOfLonger(Metrics(pulls), MetricFor(pr).value);
  }

  /**
   The positions, in increasing order, of the records that have a row: the
   positions the loop appends a row at.
   */
  function RowPositions(pulls: seq<PullRequest>): (idx: seq<nat>)
    ensures forall k :: 0 <= k < |idx| ==> idx[k] < |pulls|
    ensures forall k, l :: 0 <= k < l < |idx| ==> idx[k] < idx[l]
  {
    if pulls == [] then []
    else
      var n := |pulls| - 1;
      RowPositions(pulls[..n]) + (if MetricFor(pulls[n]).Some? then [n] else [])
  }

  /**
   The rows are exactly the rows of the records at RowPositions, in that order:
   row k is built from record RowPositions(pulls)[k] alone.
   */
  lemma {:induction false} MetricsAtRowPositions(pulls: seq<PullRequest>)
    ensures |RowPositions(pulls)| == |Metrics(pulls)|
    ensures forall k :: 0 <= k < |Metrics(pulls)| ==>
              MetricFor(pulls[RowPositions(pulls)[k]]) == Some(Metrics(pulls)[k])
  {
    if pulls != [] {
      var n := |pulls| - 1;
      var init := pulls[..n];
      MetricsAtRowPositions(init);
      var idx, rows := RowPositions(pulls), Metrics(pulls);
      assert rows == Metrics(init) + Emitted(pulls[n]);
      assert |Emitted(pulls[n])| == if MetricFor(pulls[n]).Some? then 1 else 0;
      forall k | 0 <= k < |rows|
        ensures MetricFor(pulls[idx[k]]) == Some(rows[k])
      {
        if k < |Metrics(init)| {
          assert idx[k] == RowPositions(init)[k] && rows[k] == Metrics(init)[k];
          assert init[idx[k]] == pulls[idx[k]];
        } else {
          assert idx[k] == n && rows[k] == Emitted(pulls[n])[0];
        }
      }
    }
  }

  /** Every record that has a row is at one of the RowPositions: nothing is dropped. */
  lemma {:induction false} RowPositionsComplete(pulls: seq<PullRequest>)
    ensures forall i :: 0 <= i < |pulls| && MetricFor(pulls[i]).Some? ==> i in RowPositions(pulls)
  {
    if pulls != [] {
      var n := |pulls| - 1;
      var init := pulls[..n];
      RowPositionsComplete(init);
      forall i | 0 <= i < |pulls| && MetricFor(pulls[i]).Some?
        ensures i in RowPositions(pulls)
      {
        if i < n {
          assert init[i] == pulls[i];
          assert i in RowPositions(init);
        }
      }
    }
  }

  // ---------------------------------------------------------------------------
  // Reference tallies over every merged record, with no truth test
  // ---------------------------------------------------------------------------

  /** The number of records that carry a merge timestamp. */
  function MergedCount(pulls: seq<PullRequest>): nat
  {
    if pulls == [] then 0
    else MergedCount(pulls[..|pulls| - 1]) + (if pulls[|pulls| - 1].mergedAt.Some? then 1 else 0)
  }

  /** The number of records merged exactly at their ready-for-review time. */
  function InstantMergeCount(pulls: seq<PullRequest>): nat
  {
    if pulls == [] then 0
    else
      var last := pulls[|pulls| - 1];
      InstantMergeCount(pulls[..|pulls| - 1]) + (if last.mergedAt == Some(ReadyForReviewAt(last)) then 1 else 0)
  }

  /** The sum of merge time minus ready-for-review time over every merged record. */
  function MergedTotal(pulls: seq<PullRequest>): Duration
  {
    if pulls == [] then 0
    else
      var last := pulls[|pulls| - 1];
      MergedTotal(pulls[..|pulls| - 1]) + (if last.mergedAt.Some? then last.mergedAt.value - ReadyForReviewAt(last) else 0)
  }

  /**
   Leaving zero durations out does not change the total: it is the sum over
   every merged record. Unmerged records add nothing.
   */
  lemma {:induction false} TotalOverAllMerges(pulls: seq<PullRequest>)
    ensures TotalTime(Metrics(pulls)) == MergedTotal(pulls)
  {
    if pulls != [] {
      var n := |pulls| - 1;
      var init, last := pulls[..n], pulls[n];
      TotalOverAllMerges(init);
      assert Metrics(pulls) == Metrics(init) + Emitted(last);
      if MetricFor(last).Some? {
        assert Emitted(last) == [MetricFor(last).value];
        TotalOfLonger(Metrics(init), MetricFor(last).value);
      } else {
        assert Emitted(last) == [];
        assert Metrics(pulls) == Metrics(init);
      }
    }
  }

  /**
   The count, however, is smaller than the number of merged records by the
   number of records merged at their ready-for-review time: the average is
   taken over the merged records minus those.
   */
  lemma {:induction false} CountExcludesInstantMerges(pulls: seq<PullRequest>)
    ensures |Metrics(pulls)| + InstantMergeCount(pulls) == MergedCount(pulls)
  {
    if pulls != [] {
      CountExcludesInstantMerges(pulls[..|pulls| - 1]);
    }
  }

  // ---------------------------------------------------------------------------
  // The average
  // ---------------------------------------------------------------------------

  /** A bound on every row's duration bounds the total by the count times it. */
  lemma {:induction false} TotalWithin(rows: seq<PrMetric>, lo: Duration, hi: Duration)
    requires forall k :: 0 <= k < |rows| ==> lo <= rows[k].timeToMerge <= hi
    ensures lo * |rows| <= TotalTime(rows) <= hi * |rows|
  {
    if rows != [] {
      var n := |rows| - 1;
      assert forall k :: 0 <= k < n ==> rows[..n][k] == rows[k];
      TotalWithin(rows[..n], lo, hi);
      assert lo * |rows| == lo * n + lo && hi * |rows| == hi * n + hi;
    }
  }

  /**
   The reported average lies between the shortest and the longest counted
   duration, rounding included; with no rows it is zero.
   */
  lemma AverageWithinRowRange(pulls: seq<PullRequest>, lo: Duration, hi: Duration)
    requires forall k :: 0 <= k < |Metrics(pulls)| ==> lo <= Metrics(pulls)[k].timeToMerge <= hi
    ensures Metrics(pulls) == [] ==> AverageTimeToMerge(TotalTime(Metrics(pulls)), |Metrics(pulls)|) == 0
    ensures Metrics(pulls) != [] ==> lo <= AverageTimeToMerge(TotalTime(Metrics(pulls)), |Metrics(pulls)|) <= hi
  {
    var rows := Metrics(pulls);
    if rows != [] {
      TotalWithin(rows, lo, hi);
      RoundedWithin(TotalTime(rows), |rows|, lo, hi);
    }
  }

  /** Microseconds in a day. */
  const Day: Duration := 86_400_000_000

  /** Two non-draft records merged two and four days after creation average three days. */
  lemma AverageOfTwoAndFourDays(created1: Timestamp, created2: Timestamp)
    ensures
      var pulls := [PullRequest(1, created1, created1, Some(created1 + 2 * Day), false),
                    PullRequest(2, created2, created2, Some(created2 + 4 * Day), false)];
      && |Metrics(pulls)| == 2
      && AverageTimeToMerge(TotalTime(Metrics(pulls)), |Metrics(pulls)|) == 3 * Day
  {
    var pulls := [PullRequest(1, created1, created1, Some(created1 + 2 * Day), false),
                  PullRequest(2, created2, created2, Some(created2 + 4 * Day), false)];
    var m1, m2 := MetricFor(pulls[0]).value, MetricFor(pulls[1]).value;
    assert pulls[..0] == [] && pulls[..2] == pulls;
    LoopStep(pulls, 0, [], 0);
    LoopStep(pulls, 1, [m1], m1.timeToMerge);
    assert [m1] + [m2] == [m1, m2];
    ExactQuotient(6 * Day, 2, 3 * Day);
  }
}
