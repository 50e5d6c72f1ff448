/** What `updateProgress` and `calculateProgressPercentage` promise to the
    player that calls them after every reported span. */
module ProgressProperties {
  import opened Video
  import opened ProgressTracker
  import opened MergeProperties

  /** A record as the tracker keeps it: canonical spans and a total that is
      the sum of their lengths. */
  predicate Consistent(progress: VideoProgress) {
    Canonical(progress.intervals)
    && progress.totalWatched == CalculateTotalWatched(progress.intervals)
  }

  /** The record after the player has reported `spans`, one `updateProgress`
      call per span, in order. */
  function ApplyUpdates(progress: VideoProgress, spans: seq<VideoInterval>): VideoProgress
    decreases |spans|
  {
    if spans == [] then progress
    else UpdateProgress(ApplyUpdates(progress, spans[..|spans| - 1]), spans[|spans| - 1])
  }

  /** Whatever record it starts from, an update with well-formed spans yields
      a consistent record. */
  lemma UpdateKeepsConsistent(progress: VideoProgress, newInterval: VideoInterval)
    requires AllWellFormed(progress.intervals) && WellFormed(newInterval)
    ensures Consistent(UpdateProgress(progress, newInterval))
  {
    MergeCanonical(progress.intervals + [newInterval]);
  }

  /** After an update, a point counts as watched exactly when it did before
      or the new span covers it. */
  lemma UpdateCoverage(progress: VideoProgress, newInterval: VideoInterval)
    ensures forall x :: Covers(UpdateProgress(progress, newInterval).intervals, x)
                    <==> Covers(progress.intervals, x) || Contains(newInterval, x)
  {
    MergeCoverage(progress.intervals + [newInterval]);
    forall x ensures Covers(progress.intervals + [newInterval], x)
                 <==> Covers(progress.intervals, x) || Contains(newInterval, x) {
      CoversConcat(progress.intervals, [newInterval], x);
      CoversSingleton(newInterval, x);
    }
  }

  /** An update from well-formed spans credits at least the new span and
      adds at most its length: re-watched seconds are not counted twice.
      From canonical intervals it also never lowers the total. */
  lemma UpdateTotalBounds(progress: VideoProgress, newInterval: VideoInterval)
    requires AllWellFormed(progress.intervals) && WellFormed(newInterval)
    ensures var r := UpdateProgress(progress, newInterval);
      Length(newInterval) <= r.totalWatched
      && r.totalWatched <= CalculateTotalWatched(progress.intervals) + Length(newInterval)
    ensures Canonical(progress.intervals) ==>
      CalculateTotalWatched(progress.intervals) <= UpdateProgress(progress, newInterval).totalWatched
  {
    var r := UpdateProgress(progress, newInterval);
    var all := progress.intervals + [newInterval];
    MergeCanonical(all);
    UpdateCoverage(progress, newInterval);
    if Canonical(progress.intervals) {
      CanonicalTotalMonotone(progress.intervals, r.intervals);
    }
    forall x | Covers([newInterval], x) ensures Covers(r.intervals, x) {
      CoversSingleton(newInterval, x);
    }
    CanonicalTotalMonotone([newInterval], r.intervals);
    TotalSnoc([], newInterval);
    MergeTotalAtMostSum(all);
    TotalSnoc(progress.intervals, newInterval);
  }

  /** Re-watching a part that is already covered changes neither the
      intervals nor the total. */
  lemma RewatchAddsNothing(progress: VideoProgress, newInterval: VideoInterval)
    requires Canonical(progress.intervals) && WellFormed(newInterval)
    requires forall x :: Contains(newInterval, x) ==> Covers(progress.intervals, x)
    ensures UpdateProgress(progress, newInterval).intervals == progress.intervals
    ensures UpdateProgress(progress, newInterval).totalWatched == CalculateTotalWatched(progress.intervals)
    ensures Consistent(progress) ==> UpdateProgress(progress, newInterval).totalWatched == progress.totalWatched
  {
    var all := progress.intervals + [newInterval];
    forall x ensures Covers(all, x) <==> Covers(progress.intervals, x) {
      CoversConcat(progress.intervals, [newInterval], x);
      CoversSingleton(newInterval, x);
    }
    MergeDeterminedByCoverage(all, progress.intervals);
    MergeOfCanonical(progress.intervals);
  }

  /** Merging an already merged history together with one more span gives
      the merge of the whole history. */
  lemma MergeAfterAppend(history: seq<VideoInterval>, span: VideoInterval)
    requires AllWellFormed(history) && WellFormed(span)
    ensures Merge(Merge(history) + [span]) == Merge(history + [span])
  {
    MergeCanonical(history);
    MergeCoverage(history);
    forall x ensures Covers(Merge(history) + [span], x) <==> Covers(history + [span], x) {
      CoversConcat(Merge(history), [span], x);
      CoversConcat(history, [span], x);
    }
    MergeDeterminedByCoverage(Merge(history) + [span], history + [span]);
  }

  /** The intervals after one or more updates are the merge of the whole
      history; after none they are the merge only when already canonical. */
  lemma {:induction false} HistoryIntervals(progress: VideoProgress, spans: seq<VideoInterval>)
    requires AllWellFormed(progress.intervals) && AllWellFormed(spans)
    requires spans == [] ==> Canonical(progress.intervals)
    ensures ApplyUpdates(progress, spans).intervals == Merge(progress.intervals + spans)
    decreases |spans|
  {
    if spans == [] {
      assert progress.intervals + spans == progress.intervals;
      MergeOfCanonical(progress.intervals);
    } else {
      var earlier := spans[..|spans| - 1];
      var span := spans[|spans| - 1];
      assert spans == earlier + [span];
      assert progress.intervals + spans == progress.intervals + earlier + [span];
      if earlier == [] {
        assert ApplyUpdates(progress, earlier) == progress;
      } else {
        forall iv | iv in earlier ensures WellFormed(iv) {
          assert iv in spans;
        }
        HistoryIntervals(progress, earlier);
        var before := progress.intervals + earlier;
        assert span in spans;
        forall iv | iv in before ensures WellFormed(iv) {
          assert iv in progress.intervals || iv in earlier;
        }
        MergeAfterAppend(before, span);
      }
    }
  }

  lemma {:induction false} HistoryDuration(progress: VideoProgress, spans: seq<VideoInterval>)
    ensures ApplyUpdates(progress, spans).videoDuration == progress.videoDuration
    decreases |spans|
  {
    if spans != [] {
      HistoryDuration(progress, spans[..|spans| - 1]);
    }
  }

  /** Updating span by span ends where merging the whole history at once
      ends: the total is that of the union of everything reported. */
  lemma IncrementalIsBatchMerge(progress: VideoProgress, spans: seq<VideoInterval>)
    requires AllWellFormed(progress.intervals) && AllWellFormed(spans)
    requires spans == [] ==> Canonical(progress.intervals)
    ensures ApplyUpdates(progress, spans).intervals == Merge(progress.intervals + spans)
    ensures spans != [] ==>
      ApplyUpdates(progress, spans).totalWatched == CalculateTotalWatched(Merge(progress.intervals + spans))
      && ApplyUpdates(progress, spans).lastPosition == spans[|spans| - 1].end
    ensures ApplyUpdates(progress, spans).videoDuration == progress.videoDuration
  {
    HistoryIntervals(progress, spans);
    HistoryDuration(progress, spans);
  }

  /** However many well-formed spans are reported, the record stays
      consistent and its total never goes down. */
  lemma {:induction false} UpdatesNeverLowerTotal(progress: VideoProgress, spans: seq<VideoInterval>)
    requires Consistent(progress) && AllWellFormed(spans)
    ensures Consistent(ApplyUpdates(progress, spans))
    ensures ApplyUpdates(progress, spans).totalWatched >= progress.totalWatched
    decreases |spans|
  {
    if spans != [] {
      var earlier := spans[..|spans| - 1];
      var span := spans[|spans| - 1];
      forall iv | iv in earlier ensures WellFormed(iv) {
        assert iv in spans;
      }
      assert span in spans;
      UpdatesNeverLowerTotal(progress, earlier);
      var mid := ApplyUpdates(progress, earlier);
      UpdateKeepsConsistent(mid, span);
      UpdateTotalBounds(mid, span);
    }
  }

  /** For a consistent record with a known or pending duration the
      percentage lies in 0..100, even when more than the duration has been
      recorded. */
  lemma PercentageInRange(progress: VideoProgress)
    requires Consistent(progress) && progress.videoDuration >= 0.0
    ensures 0 <= CalculateProgressPercentage(progress) <= 100
  {
  }

  /** Watching 0-20 and then 10-30 of a 100-second video counts 30 seconds,
      not 40, and shows 30%. */
  lemma RewatchExample()
    ensures var r := UpdateProgress(VideoProgress([VideoInterval(0.0, 20.0)], 20.0, 100.0, 20.0),
                                    VideoInterval(10.0, 30.0));
      r == VideoProgress([VideoInterval(0.0, 30.0)], 30.0, 100.0, 30.0)
      && CalculateProgressPercentage(r) == 30
  {
    var first, second := VideoInterval(0.0, 20.0), VideoInterval(10.0, 30.0);
    var s := [first] + [second];
    assert s[1..] == [second];
    assert SortByStart(s) == s by {
      assert SortByStart([second]) == [second] by {
        assert [second][1..] == [];
      }
    }
    var merged := [VideoInterval(0.0, 30.0)];
    assert Merge(s) == merged by {
      assert Sweep(s, 1) == [first];
      assert [first][..0] == [];
    }
    assert CalculateTotalWatched(merged) == 30.0 by {
      TotalSnoc([], VideoInterval(0.0, 30.0));
    }
    assert Round(30.0) == 30;
  }
}
