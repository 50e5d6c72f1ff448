/** `saveProgress` and `loadProgress`: the key/value adapter over the
    browser's local storage, with the storage modelled as a map from keys to
    records (serialisation left out). */
module ProgressStorage {
  import opened Video
  import opened ProgressTracker
  import opened ProgressProperties

  const KeyPrefix: string := "video-progress-"

  /** The storage key of a video: its id behind a fixed prefix. */
  function StorageKey(videoId: string): (key: string)
    ensures |key| == |KeyPrefix| + |videoId|
    ensures key[..|KeyPrefix|] == KeyPrefix && key[|KeyPrefix|..] == videoId
  {
    KeyPrefix + videoId
  }

  /** Different videos never share a storage key. */
  lemma StorageKeyInjective(a: string, b: string)
    ensures StorageKey(a) == StorageKey(b) ==> a == b
  {
    if StorageKey(a) == StorageKey(b) {
      assert a == StorageKey(a)[|KeyPrefix|..];
    }
  }

  /** The record `loadProgress` returns when nothing is stored: no spans, no
      time watched, the given duration, resume from the start. It is a
      consistent record at 0%. */
  function FreshProgress(videoDuration: real): (p: VideoProgress)
    ensures p.intervals == [] && p.totalWatched == 0.0 && p.lastPosition == 0.0
    ensures p.videoDuration == videoDuration
    ensures Consistent(p)
    ensures videoDuration >= 0.0 ==> CalculateProgressPercentage(p) == 0
  {
    VideoProgress([], 0.0, videoDuration, 0.0)
  }

  /** The specification of `ProgressStore.LoadProgress`: what `loadProgress`
      returns from the stored `entries` (a stored record, or the fresh one). */
  function LoadedFrom(entries: map<string, VideoProgress>, videoId: string, videoDuration: real): (progress: VideoProgress)
    ensures progress in entries.Values || progress == FreshProgress(videoDuration)
    ensures StorageKey(videoId) !in entries ==> progress == FreshProgress(videoDuration)
  {
    var key := StorageKey(videoId);
    if key in entries then entries[key] else FreshProgress(videoDuration)
  }

  /** Loading right after saving gives back the saved record; the duration
      passed to the load is then ignored. */
  lemma LoadAfterSave(entries: map<string, VideoProgress>, videoId: string, progress: VideoProgress, videoDuration: real)
    ensures LoadedFrom(entries[StorageKey(videoId) := progress], videoId, videoDuration) == progress
  {
  }

  /** Saving one video's record does not change what loading any other
      video gives. */
  lemma SaveLeavesOtherVideos(entries: map<string, VideoProgress>, videoId: string, progress: VideoProgress,
                              otherId: string, videoDuration: real)
    requires otherId != videoId
    ensures LoadedFrom(entries[StorageKey(videoId) := progress], otherId, videoDuration)
         == LoadedFrom(entries, otherId, videoDuration)
  {
    StorageKeyInjective(videoId, otherId);
  }

  /** The local storage of one browser profile, holding decoded records. */
  class ProgressStore {
    var entries: map<string, VideoProgress>

    constructor ()
      ensures entries == map[]
    {
      entries := map[];
    }

    /** `saveProgress`: writes the record under the video's key, replacing
        any earlier one and leaving every other key as it was. */
    method SaveProgress(videoId: string, progress: VideoProgress)
      modifies this
      ensures entries == old(entries)[StorageKey(videoId) := progress]
      ensures forall key :: key != StorageKey(videoId) && key in old(entries) ==>
                key in entries && entries[key] == old(entries)[key]
    {
      entries := entries[StorageKey(videoId) := progress];
    }

    /** `loadProgress`: the stored record, or a fresh one with the given
        duration when the video has none. */
    method LoadProgress(videoId: string, videoDuration: real) returns (progress: VideoProgress)
      ensures progress == LoadedFrom(entries, videoId, videoDuration)
      ensures StorageKey(videoId) !in entries ==> progress == FreshProgress(videoDuration)
    {
      var key := StorageKey(videoId);
      if key in entries {
        progress := entries[key];
      } else {
        progress := FreshProgress(videoDuration);
      }
    }
  }
}
