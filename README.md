# Video progress tracker: interval-coverage engine in Dafny

This project models the progress tracker of a video-learning page
(`src/utils/progressTracker.ts`). The tracker records which seconds of a
video a viewer has actually watched. Each reported span is a
`VideoInterval {start, end}`; a `VideoProgress` record keeps the spans, the
cached `totalWatched`, the `videoDuration` (0 while unknown) and the
`lastPosition` to resume from (`src/types/video.ts`).

- `mergeIntervals` sorts a copy of the spans by start time and sweeps left
  to right, extending the last merged span whenever the next one starts at or
  before its end (`<=`, so spans that only touch are merged too).
- `calculateTotalWatched` adds up `end - start` over the spans.
- `updateProgress` appends a new span, re-merges, recomputes the total, keeps
  the duration and resumes from the new span's end.
- `calculateProgressPercentage` gives 0 while the duration is unknown and
  otherwise `min(100, Math.round(totalWatched / videoDuration * 100))`.
- `saveProgress` / `loadProgress` store and fetch records under the key
  `"video-progress-" + videoId`, with a fresh empty record when none exists.

Timestamps are Dafny `real`s (seconds). The code uses only comparison,
`max`, `+`, `-`, one division and one rounding, so exact reals stand in for
JavaScript numbers. `Math.round` is modelled as `floor(x + 0.5)`, which
rounds halves up as JavaScript does.

Files:

- `video.dfy` (module `Video`): the two records and the vocabulary of the
  proofs. A span *contains* the points of the closed range `[start, end]`.
  A list *covers* a point when one of its spans contains it. A list is
  *canonical* when every span is well-formed (`start <= end`) and every span
  ends strictly before any later one starts.
- `progress_tracker.dfy` (module `ProgressTracker`): the operations. The
  sort is a stable insertion sort (`Array.prototype.sort` is stable). The
  sweep is the function `Sweep(sorted, i)`, the value of `result` when the
  loop counter is `i`. The method `MergeIntervals` runs the source's `for`
  loop and is proved to return `Merge(intervals)`. The other functions use
  `Merge`.
- `merge_properties.dfy` (module `MergeProperties`): what the merge
  promises. Its output is canonical and covers exactly the points the input
  covers. Two canonical lists that cover the same points are equal. From
  that follow idempotence, order independence, "a canonical list merges to
  itself", and "spans that overlap or touch end in the same output span".
  The total of a canonical list grows with the set of points it covers, and
  merging never raises the total above the plain sum of the lengths.
- `progress_properties.dfy` (module `ProgressProperties`): what
  `updateProgress` and the percentage promise. Records stay consistent, the
  total never goes down, and re-watched seconds are not counted twice. Span
  by span updating ends in the same record as merging the whole history at
  once. The percentage lies in 0..100.
- `progress_storage.dfy` (module `ProgressStorage`): the store as a class
  over `map<string, VideoProgress>`, with save-then-load and other-keys
  lemmas.

The model follows the code as written on three points where one might
expect otherwise:

- Rounding is `Math.round` (halves up), not half-to-even.
- No span is rejected: `end < start` and `start < 0` pass unchecked.
  Well-formedness is therefore a precondition of the lemmas, not an error
  path of the operations.
- The touch test is fixed at `<=`; it is not configurable.

## Model

| member | source | states |
|---|---|---|
| ProgressTracker.Insert | src/utils/progressTracker.ts:11 | inserting a span gives a list one longer holding exactly the old spans plus the new one (as a multiset), headed by the new span or the old head |
| ProgressTracker.InsertSorted | src/utils/progressTracker.ts:11 | inserting into a list sorted by start keeps it sorted by start |
| ProgressTracker.SortByStart | src/utils/progressTracker.ts:11 | the sorted copy has the same length, is a permutation of the input and is sorted by start |
| ProgressTracker.Max | src/utils/progressTracker.ts:21 | `Math.max` returns one of its arguments and is at least both |
| ProgressTracker.Absorb | src/utils/progressTracker.ts:15-25 | one loop iteration either extends the last merged span or appends one, so the result grows by at most one span |
| ProgressTracker.Sweep | src/utils/progressTracker.ts:12-26 | after looking at `i` sorted spans the result is non-empty and holds at most `i` spans |
| ProgressTracker.Merge | src/utils/progressTracker.ts:7-29 | 0 or 1 spans come back unchanged; otherwise the result is non-empty and no longer than the input |
| ProgressTracker.MergeIntervals | src/utils/progressTracker.ts:7-29 | the loop over the sorted copy returns exactly `Merge(intervals)` |
| ProgressTracker.CalculateTotalWatched | src/utils/progressTracker.ts:34-38 | the sum of `end - start` is 0 for no spans and never negative when every span is well-formed |
| ProgressTracker.UpdateProgress | src/utils/progressTracker.ts:43-56 | keeps the duration, resumes at the new span's end, stores the merge of old spans plus the new one, and caches their total |
| ProgressTracker.Round | src/utils/progressTracker.ts:63 | `Math.round` gives the integer within one half of its argument, halves going up |
| ProgressTracker.Min | src/utils/progressTracker.ts:63 | `Math.min` returns one of its arguments and is at most both |
| ProgressTracker.CalculateProgressPercentage | src/utils/progressTracker.ts:61-64 | 0 when the duration is 0; never above 100; 100 exactly when the rounded share reaches 100, else the nearest integer to the share; at least 0 for a non-negative total and positive duration; 100 once the total reaches the duration |
| MergeProperties.CoveredNotBeforeFirst | src/utils/progressTracker.ts:28 | canonical-form helper: nothing before the first span of a canonical list is covered |
| MergeProperties.CoversCanonicalTail | src/utils/progressTracker.ts:28 | canonical-form helper: in a canonical list, the spans after the first cover only points after the first span ends |
| MergeProperties.NotCoveredInGap | src/utils/progressTracker.ts:28 | canonical-form helper: a point strictly between two consecutive canonical spans, or after the last, is not covered |
| MergeProperties.ContainedInOne | src/utils/progressTracker.ts:28 | canonical-form helper: a span whose points are all covered by a canonical list lies inside one span of that list |
| MergeProperties.ExtendLastCanonical | src/utils/progressTracker.ts:19-21 | extending the last merged span to a later end keeps the result canonical |
| MergeProperties.AppendCanonical | src/utils/progressTracker.ts:22-25 | appending a span that starts after the last merged span ends keeps the result canonical |
| MergeProperties.SharedPointSameSpan | src/utils/progressTracker.ts:28 | canonical-form helper: two spans of a canonical list that share a point are the same span |
| MergeProperties.SweepCanonical | src/utils/progressTracker.ts:14-26 | the sweep's result is canonical: well-formed spans, each ending strictly before the next starts |
| MergeProperties.AbsorbCoverage | src/utils/progressTracker.ts:19-25 | one iteration covers exactly what the result covered plus the current span, when that span does not start before the last merged one |
| MergeProperties.SweepCoverage | src/utils/progressTracker.ts:14-26 | on sorted input the sweep covers exactly the points of the spans it has looked at |
| MergeProperties.TotalConcat | src/utils/progressTracker.ts:34-38 | the total of two lists joined is the sum of their totals |
| MergeProperties.InsertTotal | src/utils/progressTracker.ts:11 | inserting a span into a list adds exactly its length to the total |
| MergeProperties.SortTotal | src/utils/progressTracker.ts:11 | sorting does not change the total |
| MergeProperties.AbsorbTotal | src/utils/progressTracker.ts:19-25 | one loop iteration adds at most the current span's length to the total |
| MergeProperties.SweepTotal | src/utils/progressTracker.ts:19-24 | the sweep's total is at most the sum of the lengths it has looked at |
| MergeProperties.MergeCanonical | src/utils/progressTracker.ts:7-29 | for well-formed input the merge is well-formed, sorted by start and strictly separated: touching or overlapping spans never survive as separate entries |
| MergeProperties.MergeCoverage | src/utils/progressTracker.ts:7-29 | a point is covered by the merge if and only if some input span covers it |
| MergeProperties.MergeTotalAtMostSum | src/utils/progressTracker.ts:7-38 | the merged total is at most the plain sum of the input lengths |
| MergeProperties.FirstEndNotBelow | src/utils/progressTracker.ts:28 | canonical-form helper: for two canonical lists covering the same points with equal first starts, the first end of the second is not above that of the first (applied both ways it gives equal first ends) |
| MergeProperties.CanonicalUnique | src/utils/progressTracker.ts:28 | canonical-form helper: two canonical lists that cover the same points are equal |
| MergeProperties.MergeDeterminedByCoverage | src/utils/progressTracker.ts:7-29 | two well-formed inputs that cover the same points merge to the same list |
| MergeProperties.InputCoveredByMerge | src/utils/progressTracker.ts:7-29 | every point of an input span is covered by the merge |
| MergeProperties.MergeOfCanonical | src/utils/progressTracker.ts:19-25 | a list that is already canonical merges to itself |
| MergeProperties.MergeIdempotent | src/utils/progressTracker.ts:7-29 | merging twice gives the same as merging once |
| MergeProperties.MergeOrderIndependent | src/utils/progressTracker.ts:11 | any reordering of the input merges to the same list |
| MergeProperties.TouchingSpansMergeTogether | src/utils/progressTracker.ts:19-21 | two input spans that overlap or touch lie inside one and the same merged span |
| MergeProperties.CanonicalTotalMonotone | src/utils/progressTracker.ts:34-38 | if canonical `b` covers every point of canonical `a`, the total of `a` is at most that of `b` |
| ProgressProperties.UpdateKeepsConsistent | src/utils/progressTracker.ts:43-56 | after an update with well-formed spans the intervals are canonical and the total is their sum |
| ProgressProperties.UpdateCoverage | src/utils/progressTracker.ts:47 | after an update a point is covered if and only if it was covered before or the new span contains it |
| ProgressProperties.UpdateTotalBounds | src/utils/progressTracker.ts:47-48 | from well-formed spans the new total is at least the new span's length and at most the old total plus that length; from canonical intervals it is also at least the old total |
| ProgressProperties.RewatchAddsNothing | src/pages/Index.tsx:34 | re-watching an already covered span leaves canonical intervals unchanged and the total at their sum, which for a consistent record is the old `totalWatched` |
| ProgressProperties.MergeAfterAppend | src/utils/progressTracker.ts:47 | merging an already merged history plus one span equals merging the raw history plus that span |
| ProgressProperties.HistoryIntervals | src/utils/progressTracker.ts:47 | after one or more updates from well-formed spans (or none, from canonical ones) the intervals are the merge of the whole history |
| ProgressProperties.HistoryDuration | src/utils/progressTracker.ts:53 | no sequence of updates changes the duration |
| ProgressProperties.IncrementalIsBatchMerge | src/utils/progressTracker.ts:43-56 | one or more updates from well-formed spans (or none, from canonical ones) yield the merge of the whole history, its total, the last span's end and the original duration |
| ProgressProperties.UpdatesNeverLowerTotal | src/utils/progressTracker.ts:43-56 | any sequence of well-formed updates keeps a consistent record consistent and never lowers its total |
| ProgressProperties.PercentageInRange | src/utils/progressTracker.ts:61-64 | a consistent record with non-negative duration shows a percentage in 0..100 |
| ProgressProperties.RewatchExample | src/pages/Index.tsx:34 | watching 0-20 then 10-30 of 100 seconds gives one span 0-30, 30 seconds, resume at 30 and 30% |
| ProgressStorage.StorageKey | src/utils/progressTracker.ts:70-77 | the key is `video-progress-` followed by exactly the video id |
| ProgressStorage.StorageKeyInjective | src/utils/progressTracker.ts:69-77 | different video ids never share a storage key |
| ProgressStorage.FreshProgress | src/utils/progressTracker.ts:83-88 | the fallback record has no spans, total 0, resume at 0 and the given duration; it is consistent and shows 0% |
| ProgressStorage.LoadedFrom | src/utils/progressTracker.ts:76-89 | what a load returns is a stored record or the fresh record, and always the fresh one when the video's key is absent |
| ProgressStorage.LoadAfterSave | src/utils/progressTracker.ts:69-81 | loading right after saving returns the saved record, whatever duration the load passes |
| ProgressStorage.SaveLeavesOtherVideos | src/utils/progressTracker.ts:69-71 | saving one video's record does not change what loading another video returns |
| ProgressStorage.ProgressStore.SaveProgress | src/utils/progressTracker.ts:69-71 | writes the record under the video's key and leaves every other key as it was |
| ProgressStorage.ProgressStore.LoadProgress | src/utils/progressTracker.ts:76-89 | returns the stored record under the video's key, or the fresh record with the given duration when there is none |

## Left out

- JSON serialisation and the `localStorage` calls (lines 70, 77, 80): the store holds decoded records, and `ProgressStore.SaveProgress` and `ProgressStore.LoadProgress` always succeed. Not modelled: `localStorage.setItem` throwing (for example when storage is full), `JSON.parse` throwing a `SyntaxError` on stored text that is not JSON (uncaught, so `loadProgress` throws), and the `as VideoProgress` cast accepting well-formed JSON of any shape unchecked.
- Object aliasing: line 21 updates `lastMerged.end` on a span object shared with the caller, and line 8 returns the caller's own array. The model works on values, so it says nothing about the caller's spans being changed.
- Floating point: timestamps are exact reals, so rounding error, `NaN` and infinities are not modelled.
- Comparator edge cases of `Array.prototype.sort` (a comparator returning `NaN`) are not modelled; the sort is a stable sort by `start`.
- The player's span-recording policy, rendering and styling (`src/components/VideoPlayer.tsx`, `src/components/ProgressBar.tsx`, `src/pages/Index.tsx`, `src/lib/utils.ts`) are not part of this model.
- Concurrent load-modify-save from two tabs (last write wins) is not modelled; the store is used by one caller at a time.
- MergeProperties.CanonicalTotalMonotone: the total of the merge is shown to be fixed by the covered points, monotone in them and at most the plain sum; a Lebesgue measure of the union is not defined separately.
- ProgressProperties.UpdateTotalBounds: the bound "never below the old total" is stated only for records whose intervals are already canonical, which is every record the tracker itself produces; for other records the old sum can exceed the merged total.
