/** The interval-coverage engine of src/utils/progressTracker.ts: merging
    watched spans, totalling them, folding in a new span and deriving the
    completion percentage. */
module ProgressTracker {
  import opened Video

  /** `Math.max`: the larger of the two. */
  function Max(a: real, b: real): (r: real)
    ensures a <= r && b <= r
    ensures r == a || r == b
  {
    if a >= b then a else b
  }

  /** `Math.min`: the smaller of the two. */
  function Min(a: int, b: int): (r: int)
    ensures r <= a && r <= b
    ensures r == a || r == b
  {
    if a <= b then a else b
  }

  /** Places `iv` in front of the first span of `sorted` that starts at or
      after it, so spans with equal starts keep their original order. */
  function Insert(iv: VideoInterval, sorted: seq<VideoInterval>): (r: seq<VideoInterval>)
    ensures |r| == |sorted| + 1
    ensures multiset(r) == multiset(sorted) + multiset{iv}
    ensures sorted != [] ==> r[0] == iv || r[0] == sorted[0]
  {
    if sorted == [] || iv.start <= sorted[0].start then
      [iv] + sorted
    else
      assert sorted == [sorted[0]] + sorted[1..];
      [sorted[0]] + Insert(iv, sorted[1..])
  }

  /** Inserting into a list sorted by start keeps it sorted. */
  lemma {:induction false} InsertSorted(iv: VideoInterval, sorted: seq<VideoInterval>)
    requires SortedByStart(sorted)
    ensures SortedByStart(Insert(iv, sorted))
    decreases |sorted|
  {
    if sorted != [] && sorted[0].start < iv.start {
      InsertSorted(iv, sorted[1..]);
    }
  }

  /** The stable sort by start time that `mergeIntervals` applies to its copy
      of the input: sorted, and a permutation of the input. */
  function SortByStart(s: seq<VideoInterval>): (r: seq<VideoInterval>)
    ensures |r| == |s|
    ensures multiset(r) == multiset(s)
    ensures SortedByStart(r)
  {
    if s == [] then []
    else
      assert s == [s[0]] + s[1..];
      InsertSorted(s[0], SortByStart(s[1..]));
      Insert(s[0], SortByStart(s[1..]))
  }

  /** One iteration of the sweep: `current` either extends the last merged
      span (it starts at or before that span's end) or is appended. */
  function Absorb(merged: seq<VideoInterval>, current: VideoInterval): (r: seq<VideoInterval>)
    requires merged != []
    ensures |merged| <= |r| <= |merged| + 1
  {
    var last := merged[|merged| - 1];
    if current.start <= last.end then
      merged[..|merged| - 1] + [VideoInterval(last.start, Max(last.end, current.end))]
    else
      merged + [current]
  }

  /** The merged list after the sweep has looked at the first `i` spans of
      `sorted`: the state of `result` in `mergeIntervals` when its loop
      counter is `i`. */
  function Sweep(sorted: seq<VideoInterval>, i: nat): (r: seq<VideoInterval>)
    requires 1 <= i <= |sorted|
    ensures 1 <= |r| <= i
    decreases i
  {
    if i == 1 then [sorted[0]] else Absorb(Sweep(sorted, i - 1), sorted[i - 1])
  }

  /** The value `mergeIntervals` returns. */
  function Merge(intervals: seq<VideoInterval>): (r: seq<VideoInterval>)
    ensures |intervals| <= 1 ==> r == intervals
    ensures intervals != [] ==> 1 <= |r| <= |intervals|
  {
    if |intervals| <= 1 then intervals
    else
      var sorted := SortByStart(intervals);
      Sweep(sorted, |sorted|)
  }

  /** `mergeIntervals`: sort a copy, then sweep left to right, extending the
      last merged span when the next one starts at or before its end. */
  method MergeIntervals(intervals: seq<VideoInterval>) returns (result: seq<VideoInterval>)
    ensures result == Merge(intervals)
  {
    if |intervals| <= 1 {
      return intervals;
    }
    var sortedIntervals := SortByStart(intervals);
    result := [sortedIntervals[0]];
    for i := 1 to |sortedIntervals|
      invariant result == Sweep(sortedIntervals, i)
    {
      var current := sortedIntervals[i];
      var lastMerged := result[|result| - 1];
      if current.start <= lastMerged.end {
        result := result[..|result| - 1]
          + [VideoInterval(lastMerged.start, Max(lastMerged.end, current.end))];
      } else {
        result := result + [current];
      }
    }
  }

  /** `calculateTotalWatched`: the `reduce` that adds `end - start` of each
      span, left to right, starting from 0. */
  function CalculateTotalWatched(intervals: seq<VideoInterval>): (total: real)
    ensures AllWellFormed(intervals) ==> total >= 0.0
    ensures intervals == [] ==> total == 0.0
  {
    if intervals == [] then 0.0
    else
      var last := intervals[|intervals| - 1];
      assert last in intervals;
      assert forall iv :: iv in intervals[..|intervals| - 1] ==> iv in intervals;
      CalculateTotalWatched(intervals[..|intervals| - 1]) + (last.end - last.start)
  }

  /** `updateProgress`: append the new span, re-merge, recompute the total,
      keep the duration and resume from the end of the new span. */
  function UpdateProgress(progress: VideoProgress, newInterval: VideoInterval): (r: VideoProgress)
    ensures r.videoDuration == progress.videoDuration
    ensures r.lastPosition == newInterval.end
    ensures r.intervals == Merge(progress.intervals + [newInterval])
    ensures r.totalWatched == CalculateTotalWatched(r.intervals)
  {
    var updatedIntervals := Merge(progress.intervals + [newInterval]);
    VideoProgress(
      updatedIntervals,
      CalculateTotalWatched(updatedIntervals),
      progress.videoDuration,
      newInterval.end)
  }

  /** `Math.round`: the nearest integer, halves rounded up. */
  function Round(x: real): (r: int)
    ensures r as real - 0.5 <= x < r as real + 0.5
  {
    (x + 0.5).Floor
  }

  /** `calculateProgressPercentage`: 0 while the duration is unknown,
      otherwise the rounded share of the duration watched, capped at 100. */
  function CalculateProgressPercentage(progress: VideoProgress): (r: int)
    ensures progress.videoDuration == 0.0 ==> r == 0
    ensures r <= 100
    ensures progress.videoDuration != 0.0 ==>
      var share := progress.totalWatched / progress.videoDuration * 100.0;
      (r == 100 && share >= 99.5) || (r < 100 && r as real - 0.5 <= share < r as real + 0.5)
    ensures progress.videoDuration > 0.0 && progress.totalWatched >= 0.0 ==> r >= 0
    ensures progress.videoDuration > 0.0 && progress.totalWatched >= progress.videoDuration ==> r == 100
  {
    if progress.videoDuration == 0.0 then 0
    else
      var ratio := progress.totalWatched / progress.videoDuration;
      assert ratio * progress.videoDuration == progress.totalWatched;
      assert progress.videoDuration > 0.0 && progress.totalWatched >= progress.videoDuration ==> ratio >= 1.0;
      Min(100, Round(ratio * 100.0))
  }
}
