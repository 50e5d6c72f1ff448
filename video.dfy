/** The data shapes of the progress tracker (src/types/video.ts) and the
    vocabulary used to state what the tracker promises about them. */
module Video {

  /** One contiguous span of the video that was watched, in seconds. */
  datatype VideoInterval = VideoInterval(start: real, end: real)

  /** What is kept per video: the watched spans, the cached total, the known
      duration (0 while unknown) and the position to resume from. */
  datatype VideoProgress = VideoProgress(
    intervals: seq<VideoInterval>,
    totalWatched: real,
    videoDuration: real,
    lastPosition: real)

  /** A span whose end is not before its start. The tracker never checks this;
      its callers are expected to report spans this way. */
  predicate WellFormed(iv: VideoInterval) {
    iv.start <= iv.end
  }

  predicate AllWellFormed(s: seq<VideoInterval>) {
    forall iv :: iv in s ==> WellFormed(iv)
  }

  function Length(iv: VideoInterval): real {
    iv.end - iv.start
  }

  /** Point `x` of the timeline lies in the closed span `iv`. */
  predicate Contains(iv: VideoInterval, x: real) {
    iv.start <= x <= iv.end
  }

  /** Point `x` has been watched according to the spans in `s`. */
  predicate Covers(s: seq<VideoInterval>, x: real) {
    exists iv :: iv in s && Contains(iv, x)
  }

  predicate SortedByStart(s: seq<VideoInterval>) {
    forall i, j :: 0 <= i < j < |s| ==> s[i].start <= s[j].start
  }

  /** Every span ends strictly before any later span starts: no two spans
      overlap or even touch. */
  predicate Separated(s: seq<VideoInterval>) {
    forall i, j :: 0 <= i < j < |s| ==> s[i].end < s[j].start
  }

  /** The shape the merge produces: well-formed spans, pairwise strictly
      separated (and therefore sorted by start). */
  predicate Canonical(s: seq<VideoInterval>) {
    AllWellFormed(s) && Separated(s)
  }
}
