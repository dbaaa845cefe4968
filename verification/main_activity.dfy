/**
 * The two jobs of the main screen: analysing the videos (sampling frames
 * and storing one hash record per frame) and comparing the stored
 * records to report videos that may duplicate one another.
 *
 * Video URIs are compared as strings.  The frame extractor, the media
 * metadata and the database are not modelled as such: what they yield
 * comes in as parameters, and what is written to the database comes out
 * as the sequence of records written.
 */
module MainActivity {
  import opened ULongBits
  import ImageTool

  datatype Option<T> = None | Some(value: T)

  /** One stored row: the two hashes of one sampled frame of one video. */
  datatype VideoFrameHashEntity = VideoFrameHashEntity(
    id: int,
    videoUri: string,
    frameMs: Long,
    aHash: Long,
    dHash: Long)

  /** A video, and the other videos with a frame similar to one of its frames. */
  datatype DuplicateVideoData = DuplicateVideoData(videoUri: string, maybeDuplicateUriList: seq<string>)

  // ---------------------------------------------------------------------
  // Sequence operations used by the screen (Kotlin's filter, distinct)

  ghost predicate IsSubsequence<T>(a: seq<T>, b: seq<T>)
    decreases |b|
  {
    a == [] || (b != [] && ((a[0] == b[0] && IsSubsequence(a[1..], b[1..])) || IsSubsequence(a, b[1..])))
  }

  ghost predicate NoDuplicates<T>(s: seq<T>)
  {
    forall i, j :: 0 <= i < j < |s| ==> s[i] != s[j]
  }

  ghost function Elements<T>(s: seq<T>): set<T>
  {
    set x | x in s
  }

  /** Kotlin's `filter`: the elements satisfying `p`, in their original order. */
  function Filter<T(!new)>(s: seq<T>, p: T -> bool): (r: seq<T>)
    ensures |r| <= |s|
    ensures forall x :: x in r <==> x in s && p(x)
  {
    if s == [] then []
    else if p(s[0]) then [s[0]] + Filter(s[1..], p)
    else Filter(s[1..], p)
  }

  /** Kotlin's `distinct`, continued after the elements of `seen`: keeps the first occurrence of each new element. */
  function DistinctFrom<T(==,!new)>(s: seq<T>, seen: set<T>): (r: seq<T>)
    ensures forall x :: x in r <==> x in s && x !in seen
    ensures NoDuplicates(r)
  {
    if s == [] then []
    else if s[0] in seen then DistinctFrom(s[1..], seen)
    else [s[0]] + DistinctFrom(s[1..], seen + {s[0]})
  }

  function Distinct<T(==,!new)>(s: seq<T>): (r: seq<T>)
    ensures forall x :: x in r <==> x in s
    ensures NoDuplicates(r)
  {
    DistinctFrom(s, {})
  }

  /** `filter` keeps the order of the elements it keeps. */
  lemma {:induction false} FilterIsSubsequence<T(!new)>(s: seq<T>, p: T -> bool)
    ensures IsSubsequence(Filter(s, p), s)
  {
    if s != [] {
      FilterIsSubsequence(s[1..], p);
    }
  }

  /** `filter` keeps every occurrence of an element satisfying `p`, and no occurrence of any other. */
  lemma {:induction false} FilterKeepsEveryCopy<T(!new)>(s: seq<T>, p: T -> bool)
    ensures forall x :: multiset(Filter(s, p))[x] == if p(x) then multiset(s)[x] else 0
  {
    if s != [] {
      FilterKeepsEveryCopy(s[1..], p);
      assert s == [s[0]] + s[1..];
    }
  }

  /** `distinct` picks its elements out of `s` without reordering them. */
  lemma {:induction false} DistinctFromIsSubsequence<T(!new)>(s: seq<T>, seen: set<T>)
    ensures IsSubsequence(DistinctFrom(s, seen), s)
  {
    if s != [] {
      DistinctFromIsSubsequence(s[1..], seen + {s[0]});
      DistinctFromIsSubsequence(s[1..], seen);
    }
  }

  /** Position of the first occurrence of `x` in `s`. */
  ghost function FirstIndex<T>(s: seq<T>, x: T): (k: nat)
    requires x in s
    ensures k < |s| && s[k] == x && x !in s[..k]
  {
    if s[0] == x then 0
    else
      var k := 1 + FirstIndex(s[1..], x);
      assert s[..k] == [s[0]] + s[1..][..k - 1];
      k
  }

  /** Each element of `r` occurs in `s` before any occurrence of the elements listed after it. */
  ghost predicate InFirstOccurrenceOrder<T>(r: seq<T>, s: seq<T>)
  {
    forall i, j :: 0 <= i < j < |r| ==> r[i] in s && r[j] in s && FirstIndex(s, r[i]) < FirstIndex(s, r[j])
  }

  /** `distinct` lists its elements in the order in which they first occur. */
  lemma {:induction false} DistinctFromFirstOccurrences<T(!new)>(s: seq<T>, seen: set<T>)
    ensures InFirstOccurrenceOrder(DistinctFrom(s, seen), s)
  {
    if s != [] {
      var r := DistinctFrom(s, seen);
      var seen' := if s[0] in seen then seen else seen + {s[0]};
      var tail := DistinctFrom(s[1..], seen');
      DistinctFromFirstOccurrences(s[1..], seen');
      var d := if s[0] in seen then 0 else 1;
      assert r == if s[0] in seen then tail else [s[0]] + tail;
      forall i, j | 0 <= i < j < |r|
        ensures r[i] in s && r[j] in s && FirstIndex(s, r[i]) < FirstIndex(s, r[j])
      {
        var y := tail[j - d];
        assert y in tail && y !in seen';
        if i < d {
          assert r[i] == s[0];
        } else {
          var x := tail[i - d];
          assert x in tail && x !in seen';
          assert FirstIndex(s[1..], x) < FirstIndex(s[1..], y);
        }
      }
    }
  }

  /** Taking the distinct elements of `a + b` is taking those of `a`, then those of `b` not already in `a`. */
  lemma {:induction false} DistinctFromAppend<T(!new)>(a: seq<T>, b: seq<T>, seen: set<T>)
    ensures DistinctFrom(a + b, seen) == DistinctFrom(a, seen) + DistinctFrom(b, seen + Elements(a))
  {
    if a == [] {
      assert a + b == b;
      assert seen + Elements(a) == seen;
    } else {
      assert (a + b)[0] == a[0];
      assert (a + b)[1..] == a[1..] + b;
      if a[0] in seen {
        DistinctFromAppend(a[1..], b, seen);
        assert seen + Elements(a[1..]) == seen + Elements(a);
      } else {
        DistinctFromAppend(a[1..], b, seen + {a[0]});
        assert seen + {a[0]} + Elements(a[1..]) == seen + Elements(a);
      }
    }
  }

  /** `map { it.videoUri }`. */
  function Uris(list: seq<VideoFrameHashEntity>): seq<string>
  {
    seq(|list|, i requires 0 <= i < |list| => list[i].videoUri)
  }

  /** The videos that have a record in `list`. */
  ghost function VideosOf(list: seq<VideoFrameHashEntity>): set<string>
  {
    set it | it in list :: it.videoUri
  }

  lemma UrisAreVideos(list: seq<VideoFrameHashEntity>)
    ensures Elements(Uris(list)) == VideosOf(list)
  {
    var uris := Uris(list);
    forall u | u in VideosOf(list)
      ensures u in uris
    {
      var it :| it in list && it.videoUri == u;
      var i :| 0 <= i < |list| && list[i] == it;
      assert uris[i] == u;
    }
  }

  // ---------------------------------------------------------------------
  // analyze()

  const MAX_DURATION_MS: int := 10_000
  const FRAME_INTERVAL_MS: int := 1_000

  /**
   * The part of the video that is sampled: `minOf(10_000, duration)`,
   * or nothing when the duration could not be read, in which case the
   * video is skipped.
   */
  function VideoDurationMs(metadataDurationMs: Option<Long>): (d: Option<Long>)
    ensures d.Some? <==> metadataDurationMs.Some?
    ensures d.Some? ==>
      d.value <= MAX_DURATION_MS && d.value <= metadataDurationMs.value &&
      (d.value == MAX_DURATION_MS || d.value == metadataDurationMs.value)
  {
    match metadataDurationMs
    case None => None
    case Some(duration) => Some(if MAX_DURATION_MS <= duration then MAX_DURATION_MS else duration)
  }

  /** `(start until durationMs step 1_000).toList()`. */
  function FrameMsFrom(start: Long, durationMs: Long): (frameMsList: seq<Long>)
    ensures forall i :: 0 <= i < |frameMsList| ==> frameMsList[i] == start + FRAME_INTERVAL_MS * i
    ensures forall t :: t in frameMsList <==> start <= t < durationMs && (t - start) % FRAME_INTERVAL_MS == 0
    decreases durationMs - start
  {
    if durationMs <= start then []
    else if durationMs <= start + FRAME_INTERVAL_MS then [start]
    else
      var rest := FrameMsFrom(start + FRAME_INTERVAL_MS, durationMs);
      assert forall t :: t in rest ==> t - start >= FRAME_INTERVAL_MS;
      [start] + rest
  }

  /**
   * The sampled frame times, `0 until videoDurationMs step 1_000`: every
   * whole second before the end of the sampled part, in increasing order.
   */
  function FrameMsList(videoDurationMs: Long): (frameMsList: seq<Long>)
    ensures forall i :: 0 <= i < |frameMsList| ==> frameMsList[i] == FRAME_INTERVAL_MS * i
    ensures forall t :: t in frameMsList <==> 0 <= t < videoDurationMs && t % FRAME_INTERVAL_MS == 0
  {
    FrameMsFrom(0, videoDurationMs)
  }

  /** At most ten frames of a video are sampled, and none when its duration is not positive. */
  lemma {:induction false} AtMostTenFrames(metadataDurationMs: Long)
    ensures var d := VideoDurationMs(Some(metadataDurationMs)).value;
      |FrameMsList(d)| <= 10 && (d <= 0 ==> FrameMsList(d) == [])
  {
    var d := VideoDurationMs(Some(metadataDurationMs)).value;
    var frames := FrameMsList(d);
    if frames != [] {
      assert frames[|frames| - 1] in frames;
    }
  }

  /** The videos still to analyse: those with no stored record, in their original order. */
  function UnAnalyzeUriList(videoUriList: seq<string>, stored: seq<VideoFrameHashEntity>): (r: seq<string>)
    ensures forall u :: u in r <==> u in videoUriList && u !in Uris(stored)
    ensures forall u :: multiset(r)[u] == if u in Uris(stored) then 0 else multiset(videoUriList)[u]
    ensures IsSubsequence(r, videoUriList)
  {
    var alreadyAnalyzeUriList := Uris(stored);
    FilterKeepsEveryCopy(videoUriList, (uri: string) => uri !in alreadyAnalyzeUriList);
    FilterIsSubsequence(videoUriList, (uri: string) => uri !in alreadyAnalyzeUriList);
    Filter(videoUriList, (uri: string) => uri !in alreadyAnalyzeUriList)
  }

  /** The record stored for one frame: the two hashes reinterpreted as `Long`. */
  function NewRecord(uri: string, frameMs: Long, aHash: ULong, dHash: ULong): (e: VideoFrameHashEntity)
    ensures e.id == 0 && e.videoUri == uri && e.frameMs == frameMs
    ensures ToULong(e.aHash) == aHash && ToULong(e.dHash) == dHash
  {
    ToULongOfToLong(aHash);
    ToULongOfToLong(dHash);
    VideoFrameHashEntity(0, uri, frameMs, ToLong(aHash), ToLong(dHash))
  }

  /**
   * What the frame extractor yields for a requested time: the frame's
   * average and difference hashes, no frame, or a decoder failure, which
   * ends the analysis of the video.
   */
  datatype FrameResult = Hashed(aHash: ULong, dHash: ULong) | NoFrame | DecoderError

  ghost predicate StrictlyIncreasing(s: seq<Long>)
  {
    forall i, j :: 0 <= i < j < |s| ==> s[i] < s[j]
  }

  /** The records written for one video, frame by frame, until the decoder fails. */
  function FrameRecords(uri: string, frameMsList: seq<Long>, extract: Long -> FrameResult): (records: seq<VideoFrameHashEntity>)
    ensures |records| <= |frameMsList|
    ensures forall e :: e in records ==>
      e.id == 0 && e.videoUri == uri && e.frameMs in frameMsList &&
      extract(e.frameMs) == Hashed(ToULong(e.aHash), ToULong(e.dHash))
  {
    if frameMsList == [] then []
    else
      var rest := frameMsList[1..];
      assert forall t :: t in rest ==> t in frameMsList;
      match extract(frameMsList[0])
      case DecoderError => []
      case NoFrame => FrameRecords(uri, rest, extract)
      case Hashed(aHash, dHash) => [NewRecord(uri, frameMsList[0], aHash, dHash)] + FrameRecords(uri, rest, extract)
  }

  /** Records whose frame times strictly increase. */
  ghost predicate InTimeOrder(records: seq<VideoFrameHashEntity>)
  {
    forall i, j :: 0 <= i < j < |records| ==> records[i].frameMs < records[j].frameMs
  }

  /** Frames sampled in increasing time order are recorded in increasing time order. */
  lemma {:induction false} FrameRecordsIncreasing(uri: string, frameMsList: seq<Long>, extract: Long -> FrameResult)
    requires StrictlyIncreasing(frameMsList)
    ensures InTimeOrder(FrameRecords(uri, frameMsList, extract))
  {
    if frameMsList != [] {
      var rest := frameMsList[1..];
      assert StrictlyIncreasing(rest);
      FrameRecordsIncreasing(uri, rest, extract);
      var later := FrameRecords(uri, rest, extract);
      match extract(frameMsList[0]) {
        case DecoderError =>
        case NoFrame =>
          assert FrameRecords(uri, frameMsList, extract) == later;
        case Hashed(aHash, dHash) =>
          var first := NewRecord(uri, frameMsList[0], aHash, dHash);
          assert forall t :: t in rest ==> frameMsList[0] < t;
          PrependEarlier(first, later);
          assert FrameRecords(uri, frameMsList, extract) == [first] + later;
      }
    }
  }

  lemma PrependEarlier(first: VideoFrameHashEntity, later: seq<VideoFrameHashEntity>)
    requires InTimeOrder(later)
    requires forall e :: e in later ==> first.frameMs < e.frameMs
    ensures InTimeOrder([first] + later)
  {
    var records := [first] + later;
    forall i, j | 0 <= i < j < |records|
      ensures records[i].frameMs < records[j].frameMs
    {
      assert records[j] == later[j - 1];
      if i > 0 {
        assert records[i] == later[i - 1];
      } else {
        assert later[j - 1] in later;
      }
    }
  }

  /**
   * Every frame that hashes gets its record, provided the decoder has not
   * failed at or before its time: a frame that cannot be extracted is
   * skipped and sampling goes on past it.
   */
  lemma {:induction false} FrameRecordsComplete(uri: string, frameMsList: seq<Long>, extract: Long -> FrameResult, i: nat)
    requires i < |frameMsList|
    requires forall j :: 0 <= j <= i ==> extract(frameMsList[j]) != DecoderError
    requires extract(frameMsList[i]).Hashed?
    ensures var h := extract(frameMsList[i]);
      NewRecord(uri, frameMsList[i], h.aHash, h.dHash) in FrameRecords(uri, frameMsList, extract)
  {
    assert extract(frameMsList[0]) != DecoderError;
    if i > 0 {
      var rest := frameMsList[1..];
      forall j | 0 <= j <= i - 1
        ensures extract(rest[j]) != DecoderError
      {
        assert rest[j] == frameMsList[j + 1];
      }
      FrameRecordsComplete(uri, rest, extract, i - 1);
      assert rest[i - 1] == frameMsList[i];
    }
  }

  /**
   * A decoder failure ends the sampling: the frames from the failing one
   * on add no record, so every record is for a frame sampled before it.
   */
  lemma {:induction false} FrameRecordsStop(uri: string, frameMsList: seq<Long>, extract: Long -> FrameResult, k: nat)
    requires k < |frameMsList| && extract(frameMsList[k]) == DecoderError
    ensures FrameRecords(uri, frameMsList, extract) == FrameRecords(uri, frameMsList[..k], extract)
    ensures forall e :: e in FrameRecords(uri, frameMsList, extract) ==> e.frameMs in frameMsList[..k]
  {
    if k > 0 {
      var rest := frameMsList[1..];
      FrameRecordsStop(uri, rest, extract, k - 1);
      assert frameMsList[..k][1..] == rest[..k - 1];
      assert frameMsList[..k][0] == frameMsList[0];
    }
  }

  /**
   * `frameMsList.forEach { ... insertAll(...) }` with its decoder-error
   * handler: returns the records inserted, in insertion order.
   */
  method InsertFrames(uri: string, frameMsList: seq<Long>, extract: Long -> FrameResult)
    returns (inserted: seq<VideoFrameHashEntity>)
    ensures inserted == FrameRecords(uri, frameMsList, extract)
  {
    inserted := [];
    var i := 0;
    while i < |frameMsList|
      invariant 0 <= i <= |frameMsList|
      invariant inserted + FrameRecords(uri, frameMsList[i..], extract) == FrameRecords(uri, frameMsList, extract)
    {
      var frameMs := frameMsList[i];
      assert frameMsList[i..][1..] == frameMsList[i + 1..];
      match extract(frameMs) {
        case DecoderError =>
          return;
        case NoFrame =>
        case Hashed(aHash, dHash) =>
          inserted := inserted + [NewRecord(uri, frameMs, aHash, dHash)];
      }
      i := i + 1;
    }
  }

  /** Everything the analysis of one video writes. */
  function AnalyzeVideo(uri: string, metadataDurationMs: Option<Long>, extract: Long -> FrameResult): (records: seq<VideoFrameHashEntity>)
  {
    match VideoDurationMs(metadataDurationMs)
    case None => []
    case Some(videoDurationMs) => FrameRecords(uri, FrameMsList(videoDurationMs), extract)
  }

  /**
   * A video yields at most ten records, all for that video, at distinct
   * whole seconds below ten seconds in increasing order, each holding the
   * hashes the extractor produced for that time; an unreadable duration
   * yields none.
   */
  lemma AnalyzeVideoRecords(uri: string, metadataDurationMs: Option<Long>, extract: Long -> FrameResult)
    ensures var records := AnalyzeVideo(uri, metadataDurationMs, extract);
      |records| <= 10 &&
      (metadataDurationMs.None? ==> records == []) &&
      (forall e :: e in records ==>
        e.videoUri == uri && 0 <= e.frameMs < MAX_DURATION_MS && e.frameMs % FRAME_INTERVAL_MS == 0 &&
        extract(e.frameMs) == Hashed(ToULong(e.aHash), ToULong(e.dHash))) &&
      InTimeOrder(records)
  {
    if metadataDurationMs.Some? {
      AtMostTenFrames(metadataDurationMs.value);
      var d := VideoDurationMs(metadataDurationMs).value;
      assert StrictlyIncreasing(FrameMsList(d));
      FrameRecordsIncreasing(uri, FrameMsList(d), extract);
    }
  }

  /**
   * Every whole second sampled whose frame hashes gets its record, as long
   * as the decoder did not fail at that second or an earlier one; seconds
   * whose frame is missing do not stop the later ones.
   */
  lemma AnalyzeVideoComplete(uri: string, metadataDurationMs: Option<Long>, extract: Long -> FrameResult, t: Long)
    requires metadataDurationMs.Some?
    requires 0 <= t < VideoDurationMs(metadataDurationMs).value && t % FRAME_INTERVAL_MS == 0
    requires forall s: Long :: 0 <= s <= t && s % FRAME_INTERVAL_MS == 0 ==> extract(s) != DecoderError
    requires extract(t).Hashed?
    ensures NewRecord(uri, t, extract(t).aHash, extract(t).dHash) in AnalyzeVideo(uri, metadataDurationMs, extract)
  {
    var frames := FrameMsList(VideoDurationMs(metadataDurationMs).value);
    assert t in frames;
    var i :| 0 <= i < |frames| && frames[i] == t;
    forall j | 0 <= j <= i
      ensures extract(frames[j]) != DecoderError
    {
      assert frames[j] in frames;
    }
    FrameRecordsComplete(uri, frames, extract, i);
  }

  /** Once the decoder fails at a sampled second, no record is written for that second or any later one. */
  lemma AnalyzeVideoStops(uri: string, metadataDurationMs: Option<Long>, extract: Long -> FrameResult, t: Long)
    requires metadataDurationMs.Some?
    requires 0 <= t < VideoDurationMs(metadataDurationMs).value && t % FRAME_INTERVAL_MS == 0
    requires extract(t) == DecoderError
    ensures forall e :: e in AnalyzeVideo(uri, metadataDurationMs, extract) ==> e.frameMs < t
  {
    var frames := FrameMsList(VideoDurationMs(metadataDurationMs).value);
    assert t in frames;
    var k :| 0 <= k < |frames| && frames[k] == t;
    FrameRecordsStop(uri, frames, extract, k);
    forall e | e in AnalyzeVideo(uri, metadataDurationMs, extract)
      ensures e.frameMs < t
    {
      var j :| 0 <= j < k && frames[..k][j] == e.frameMs;
      assert frames[j] == e.frameMs;
    }
  }

  // ---------------------------------------------------------------------
  // compare()

  /** `0.95f`: the `Float` nearest 0.95 is exactly 15938355 / 2^24. */
  const THRESHOLD_NUMERATOR: int := 15938355
  const THRESHOLD_DENOMINATOR: int := 0x100_0000

  /**
   * `threshold < ImageTool.compare(a, b)`.  The score is
   * `agree / 64` for `agree = ImageTool.Compare(a, b)`, which a `Float`
   * holds exactly, so the comparison is decided on integers.
   */
  predicate IsSimilar(a: ULong, b: ULong)
  {
    THRESHOLD_NUMERATOR * 64 < ImageTool.Compare(a, b) * THRESHOLD_DENOMINATOR
  }

  /** Two hashes are similar exactly when they differ in at most 3 of their 64 bits. */
  lemma SimilarIffAtMostThreeBitsDiffer(a: ULong, b: ULong)
    ensures IsSimilar(a, b) <==> PopCount(Xor(a, b)) <= 3
    ensures IsSimilar(a, b) <==> ImageTool.Compare(a, b) >= 61
  {
  }

  /** Identical hashes are similar. */
  lemma SameHashIsSimilar(h: ULong)
    ensures IsSimilar(h, h)
  {
    ImageTool.CompareSelf(h);
  }

  predicate MatchesByAHash(it: VideoFrameHashEntity, current: VideoFrameHashEntity)
  {
    IsSimilar(ToULong(it.aHash), ToULong(current.aHash))
  }

  predicate MatchesByDHash(it: VideoFrameHashEntity, current: VideoFrameHashEntity)
  {
    IsSimilar(ToULong(it.dHash), ToULong(current.dHash))
  }

  /** The records of videos other than `uri`: both `withoutTargetList` and the list after `removeAll`. */
  function WithoutVideo(list: seq<VideoFrameHashEntity>, uri: string): (r: seq<VideoFrameHashEntity>)
    ensures |r| <= |list|
    ensures forall it :: it in r <==> it in list && it.videoUri != uri
    ensures VideosOf(r) == VideosOf(list) - {uri}
  {
    Filter(list, (it: VideoFrameHashEntity) => it.videoUri != uri)
  }

  /** Dropping a video's records keeps every copy of every other video's record. */
  lemma WithoutVideoKeepsEveryCopy(list: seq<VideoFrameHashEntity>, uri: string)
    ensures var r := WithoutVideo(list, uri);
      forall it :: multiset(r)[it] == if it.videoUri == uri then 0 else multiset(list)[it]
  {
    FilterKeepsEveryCopy(list, (it: VideoFrameHashEntity) => it.videoUri != uri);
  }

  /** The videos of the records of `list` that satisfy `p`. */
  lemma UrisOfFilter(list: seq<VideoFrameHashEntity>, p: VideoFrameHashEntity -> bool)
    ensures forall u :: u in Uris(Filter(list, p)) <==> exists it :: it in list && p(it) && it.videoUri == u
  {
    var r := Filter(list, p);
    UrisAreVideos(r);
    assert forall u :: u in Uris(r) <==> u in Elements(Uris(r));
  }

  /** `maybeFromAHash`: records of other videos similar to `current` by average hash. */
  function MaybeFromAHash(current: VideoFrameHashEntity, list: seq<VideoFrameHashEntity>): (r: seq<VideoFrameHashEntity>)
    ensures forall u :: u in Uris(r) <==>
      u != current.videoUri && exists it :: it in list && it.videoUri == u && MatchesByAHash(it, current)
  {
    var p := (it: VideoFrameHashEntity) => MatchesByAHash(it, current);
    var withoutTargetList := WithoutVideo(list, current.videoUri);
    UrisOfFilter(withoutTargetList, p);
    Filter(withoutTargetList, p)
  }

  /** `maybeFromDHash`: records of other videos similar to `current` by difference hash. */
  function MaybeFromDHash(current: VideoFrameHashEntity, list: seq<VideoFrameHashEntity>): (r: seq<VideoFrameHashEntity>)
    ensures forall u :: u in Uris(r) <==>
      u != current.videoUri && exists it :: it in list && it.videoUri == u && MatchesByDHash(it, current)
  {
    var p := (it: VideoFrameHashEntity) => MatchesByDHash(it, current);
    var withoutTargetList := WithoutVideo(list, current.videoUri);
    UrisOfFilter(withoutTargetList, p);
    Filter(withoutTargetList, p)
  }

  /** Some record of `list` of video `u`, other than the current record's, is similar to it by either hash. */
  ghost predicate HasSimilarRecord(current: VideoFrameHashEntity, list: seq<VideoFrameHashEntity>, u: string)
  {
    u != current.videoUri &&
    exists it :: it in list && it.videoUri == u && (MatchesByAHash(it, current) || MatchesByDHash(it, current))
  }

  /**
   * `totalResult`: the distinct videos, other than the current record's,
   * with a record similar to it by average hash or by difference hash.
   */
  function MaybeDuplicateUris(current: VideoFrameHashEntity, list: seq<VideoFrameHashEntity>): (totalResult: seq<string>)
    ensures forall u :: u in totalResult <==> HasSimilarRecord(current, list, u)
    ensures NoDuplicates(totalResult)
  {
    Distinct(Uris(MaybeFromAHash(current, list)) + Uris(MaybeFromDHash(current, list)))
  }

  /**
   * Videos found by the average hash come first, in record order; those
   * found only by the difference hash follow.
   */
  lemma AHashCandidatesFirst(current: VideoFrameHashEntity, list: seq<VideoFrameHashEntity>)
    ensures var fromA := Uris(MaybeFromAHash(current, list));
      var totalResult := MaybeDuplicateUris(current, list);
      var n := |Distinct(fromA)|;
      n <= |totalResult| && totalResult[..n] == Distinct(fromA) &&
      totalResult[n..] == DistinctFrom(Uris(MaybeFromDHash(current, list)), Elements(fromA)) &&
      forall i :: n <= i < |totalResult| ==> totalResult[i] !in fromA
  {
    var fromA := Uris(MaybeFromAHash(current, list));
    var fromD := Uris(MaybeFromDHash(current, list));
    DistinctFromAppend(fromA, fromD, {});
    assert {} + Elements(fromA) == Elements(fromA);
    var tail := DistinctFrom(fromD, Elements(fromA));
    assert forall i :: 0 <= i < |tail| ==> tail[i] in tail;
  }

  /** A reported group: at least one other video, each listed once, never the group's own video. */
  ghost predicate IsGroup(g: DuplicateVideoData)
  {
    g.maybeDuplicateUriList != [] && g.videoUri !in g.maybeDuplicateUriList &&
    NoDuplicates(g.maybeDuplicateUriList)
  }

  /** Every video `groups` names, as a group or as a candidate, is in `videos`. */
  ghost predicate NamesOnly(groups: seq<DuplicateVideoData>, videos: set<string>)
  {
    forall g :: g in groups ==> g.videoUri in videos && Elements(g.maybeDuplicateUriList) <= videos
  }

  /** No video heads two groups, and no video is a candidate in a group after the one it heads. */
  ghost predicate AnchorsNotRepeated(groups: seq<DuplicateVideoData>)
  {
    forall i, j :: 0 <= i < j < |groups| ==>
      groups[i].videoUri != groups[j].videoUri && groups[i].videoUri !in groups[j].maybeDuplicateUriList
  }

  /**
   * The groups `compare()` reports for the records `list`, in order: the
   * first record's video with its candidates when there are any, then
   * the groups for the records of the other videos.
   */
  function Clusters(list: seq<VideoFrameHashEntity>): seq<DuplicateVideoData>
    decreases |list|
  {
    if list == [] then []
    else
      var current := list[0];
      var totalResult := MaybeDuplicateUris(current, list[1..]);
      var rest := Clusters(WithoutVideo(list[1..], current.videoUri));
      if totalResult != [] then [DuplicateVideoData(current.videoUri, totalResult)] + rest else rest
  }

  /**
   * Every reported group lists at least one other video, each once and
   * never the group's own; every video named is one with a stored record;
   * no video heads two groups, and none is listed as a candidate after
   * the group it heads.
   */
  lemma {:induction false} ClustersWellFormed(list: seq<VideoFrameHashEntity>)
    ensures forall g :: g in Clusters(list) ==> IsGroup(g)
    ensures NamesOnly(Clusters(list), VideosOf(list))
    ensures AnchorsNotRepeated(Clusters(list))
    decreases |list|
  {
    if list != [] {
      var rest := Clusters(WithoutVideo(list[1..], list[0].videoUri));
      ClustersWellFormed(WithoutVideo(list[1..], list[0].videoUri));
      ClustersStep(list, rest);
    }
  }

  lemma {:induction false} ClustersStep(list: seq<VideoFrameHashEntity>, rest: seq<DuplicateVideoData>)
    requires list != []
    requires forall g :: g in rest ==> IsGroup(g)
    requires NamesOnly(rest, VideosOf(WithoutVideo(list[1..], list[0].videoUri)))
    requires AnchorsNotRepeated(rest)
    ensures NamesOnly(rest, VideosOf(list))
    ensures var group := DuplicateVideoData(list[0].videoUri, MaybeDuplicateUris(list[0], list[1..]));
      group.maybeDuplicateUriList != [] ==>
        IsGroup(group) && NamesOnly([group] + rest, VideosOf(list)) && AnchorsNotRepeated([group] + rest)
  {
    var current := list[0];
    var group := DuplicateVideoData(current.videoUri, MaybeDuplicateUris(current, list[1..]));
    LaterVideos(list);
    CandidateVideos(list);
    NamesOnlyPrepend(group, rest, VideosOf(WithoutVideo(list[1..], current.videoUri)), VideosOf(list));
    assert forall g :: g in rest ==> g.videoUri != current.videoUri && current.videoUri !in g.maybeDuplicateUriList;
    PrependAnchor(group, rest);
  }

  lemma NamesOnlyPrepend(group: DuplicateVideoData, rest: seq<DuplicateVideoData>, later: set<string>, videos: set<string>)
    requires NamesOnly(rest, later) && later <= videos
    requires group.videoUri in videos && Elements(group.maybeDuplicateUriList) <= videos
    ensures NamesOnly(rest, videos) && NamesOnly([group] + rest, videos)
  {
  }

  /** The videos left after a round are the other videos of the list. */
  lemma LaterVideos(list: seq<VideoFrameHashEntity>)
    requires list != []
    ensures VideosOf(WithoutVideo(list[1..], list[0].videoUri)) <= VideosOf(list) - {list[0].videoUri}
  {
    assert forall it :: it in list[1..] ==> it in list;
  }

  /** The candidates of a round are videos of the list. */
  lemma CandidateVideos(list: seq<VideoFrameHashEntity>)
    requires list != []
    ensures Elements(MaybeDuplicateUris(list[0], list[1..])) <= VideosOf(list)
  {
    var totalResult := MaybeDuplicateUris(list[0], list[1..]);
    forall u | u in totalResult
      ensures u in VideosOf(list)
    {
      assert HasSimilarRecord(list[0], list[1..], u);
      var it :| it in list[1..] && it.videoUri == u;
      assert it in list;
    }
  }

  lemma PrependAnchor(group: DuplicateVideoData, rest: seq<DuplicateVideoData>)
    requires forall g :: g in rest ==> g.videoUri != group.videoUri && group.videoUri !in g.maybeDuplicateUriList
    requires AnchorsNotRepeated(rest)
    ensures AnchorsNotRepeated([group] + rest)
  {
    var groups := [group] + rest;
    forall i, j | 0 <= i < j < |groups|
      ensures groups[i].videoUri != groups[j].videoUri && groups[i].videoUri !in groups[j].maybeDuplicateUriList
    {
      assert groups[j] == rest[j - 1];
      if i > 0 {
        assert groups[i] == rest[i - 1];
      } else {
        assert rest[j - 1] in rest;
      }
    }
  }

  /**
   * A round leaves the working list without its head and without any
   * other record of the head's video; the records kept stay in order.
   */
  lemma NextWorkingList(list: seq<VideoFrameHashEntity>)
    requires list != []
    ensures var next := WithoutVideo(list[1..], list[0].videoUri);
      IsSubsequence(next, list[1..]) &&
      (forall it :: it in next <==> it in list[1..] && it.videoUri != list[0].videoUri) &&
      forall it :: multiset(next)[it] == if it.videoUri == list[0].videoUri then 0 else multiset(list[1..])[it]
  {
    var uri := list[0].videoUri;
    FilterIsSubsequence(list[1..], (it: VideoFrameHashEntity) => it.videoUri != uri);
    WithoutVideoKeepsEveryCopy(list[1..], uri);
  }

  /** One round of `compare()` extends the reported groups towards `Clusters` of the whole list. */
  lemma {:induction false} CompareRound(done: seq<DuplicateVideoData>, list: seq<VideoFrameHashEntity>)
    requires list != []
    ensures var totalResult := MaybeDuplicateUris(list[0], list[1..]);
      var next := if totalResult != [] then done + [DuplicateVideoData(list[0].videoUri, totalResult)] else done;
      next + Clusters(WithoutVideo(list[1..], list[0].videoUri)) == done + Clusters(list)
  {
    var totalResult := MaybeDuplicateUris(list[0], list[1..]);
    var later := Clusters(WithoutVideo(list[1..], list[0].videoUri));
    if totalResult != [] {
      var group := DuplicateVideoData(list[0].videoUri, totalResult);
      assert Clusters(list) == [group] + later;
      assert (done + [group]) + later == done + ([group] + later);
    } else {
      assert Clusters(list) == later;
    }
  }

  /**
   * `compare()`: takes records off the front of a copy of the stored
   * records, reports the current record's video when other videos have a
   * similar record, then drops every record of that video.
   */
  method Compare(alreadyAnalyzeUriList: seq<VideoFrameHashEntity>) returns (duplicateVideoList: seq<DuplicateVideoData>)
    ensures duplicateVideoList == Clusters(alreadyAnalyzeUriList)
  {
    duplicateVideoList := [];
    var maybeDuplicateDropFrameHashList := alreadyAnalyzeUriList;
    while maybeDuplicateDropFrameHashList != []
      invariant duplicateVideoList + Clusters(maybeDuplicateDropFrameHashList) == Clusters(alreadyAnalyzeUriList)
      decreases |maybeDuplicateDropFrameHashList|
    {
      CompareRound(duplicateVideoList, maybeDuplicateDropFrameHashList);
      var current := maybeDuplicateDropFrameHashList[0];
      maybeDuplicateDropFrameHashList := maybeDuplicateDropFrameHashList[1..];
      var totalResult := MaybeDuplicateUris(current, maybeDuplicateDropFrameHashList);
      if totalResult != [] {
        duplicateVideoList := duplicateVideoList + [DuplicateVideoData(current.videoUri, totalResult)];
      }
      maybeDuplicateDropFrameHashList := WithoutVideo(maybeDuplicateDropFrameHashList, current.videoUri);
    }
  }

  /** One round of `compare()`: the group for the first record, if any, then the rounds on the other videos' records. */
  lemma ClustersUnfold(list: seq<VideoFrameHashEntity>)
    requires list != []
    ensures Clusters(list) ==
      (if MaybeDuplicateUris(list[0], list[1..]) != []
       then [DuplicateVideoData(list[0].videoUri, MaybeDuplicateUris(list[0], list[1..]))]
       else []) +
      Clusters(WithoutVideo(list[1..], list[0].videoUri))
  {
  }

  /**
   * The first record's video is reported exactly when a record of another
   * video is similar to it by either hash.
   */
  lemma FirstVideoReported(list: seq<VideoFrameHashEntity>)
    requires list != []
    ensures (exists g :: g in Clusters(list) && g.videoUri == list[0].videoUri) <==>
      exists it :: it in list && it.videoUri != list[0].videoUri &&
        (MatchesByAHash(it, list[0]) || MatchesByDHash(it, list[0]))
  {
    ReportedIffCandidates(list);
    CandidatesIffSimilarRecord(list);
  }

  lemma ReportedIffCandidates(list: seq<VideoFrameHashEntity>)
    requires list != []
    ensures (exists g :: g in Clusters(list) && g.videoUri == list[0].videoUri) <==>
      MaybeDuplicateUris(list[0], list[1..]) != []
  {
    var current := list[0];
    var remaining := WithoutVideo(list[1..], current.videoUri);
    ClustersUnfold(list);
    ClustersWellFormed(remaining);
    assert current.videoUri !in VideosOf(remaining);
    var totalResult := MaybeDuplicateUris(current, list[1..]);
    if totalResult != [] {
      assert Clusters(list)[0] == DuplicateVideoData(current.videoUri, totalResult);
    }
  }

  lemma CandidatesIffSimilarRecord(list: seq<VideoFrameHashEntity>)
    requires list != []
    ensures MaybeDuplicateUris(list[0], list[1..]) != [] <==>
      exists it :: it in list && it.videoUri != list[0].videoUri &&
        (MatchesByAHash(it, list[0]) || MatchesByDHash(it, list[0]))
  {
    var current := list[0];
    var totalResult := MaybeDuplicateUris(current, list[1..]);
    if exists it :: it in list && it.videoUri != current.videoUri &&
        (MatchesByAHash(it, current) || MatchesByDHash(it, current)) {
      var it :| it in list && it.videoUri != current.videoUri &&
        (MatchesByAHash(it, current) || MatchesByDHash(it, current));
      assert it in list[1..];
      assert HasSimilarRecord(current, list[1..], it.videoUri);
    } else if totalResult != [] {
      assert HasSimilarRecord(current, list[1..], totalResult[0]);
      var it :| it in list[1..] && it.videoUri == totalResult[0] &&
        (MatchesByAHash(it, current) || MatchesByDHash(it, current));
    }
  }

  /**
   * Three single-record videos that are all similar to one another by
   * average hash are reported as two groups: the first video with the
   * other two, then the second video again with the third.
   */
  lemma {:induction false} ThreeSimilarVideos(a: VideoFrameHashEntity, b: VideoFrameHashEntity, c: VideoFrameHashEntity)
    requires a.videoUri != b.videoUri && a.videoUri != c.videoUri && b.videoUri != c.videoUri
    requires MatchesByAHash(b, a) && MatchesByAHash(c, a) && MatchesByAHash(c, b)
    ensures Clusters([a, b, c]) == [
      DuplicateVideoData(a.videoUri, [b.videoUri, c.videoUri]),
      DuplicateVideoData(b.videoUri, [c.videoUri])]
  {
    assert [a, b, c] == [a] + [b, c];
    AllSimilarRound(a, [b, c]);
    UrisOfPair(b, c);
    TwoSimilarVideos(b, c);
  }

  lemma UrisOfPair(b: VideoFrameHashEntity, c: VideoFrameHashEntity)
    ensures Uris([b, c]) == [b.videoUri, c.videoUri]
  {
  }

  /** Two single-record videos similar by average hash are reported as one group. */
  lemma {:induction false} TwoSimilarVideos(b: VideoFrameHashEntity, c: VideoFrameHashEntity)
    requires b.videoUri != c.videoUri
    requires MatchesByAHash(c, b)
    ensures Clusters([b, c]) == [DuplicateVideoData(b.videoUri, [c.videoUri])]
  {
    assert [b, c] == [b] + [c];
    AllSimilarRound(b, [c]);
    assert Uris([c]) == [c.videoUri];
    SingleRecord(c);
  }

  /**
   * A round whose every other record belongs to a different video, no two
   * to the same one, each similar by average hash: one group with all of
   * them, and those records go on to the next round.
   */
  lemma {:induction false} AllSimilarRound(current: VideoFrameHashEntity, list: seq<VideoFrameHashEntity>)
    requires list != []
    requires forall i :: 0 <= i < |list| ==> list[i].videoUri != current.videoUri && MatchesByAHash(list[i], current)
    requires forall i, j :: 0 <= i < j < |list| ==> list[i].videoUri != list[j].videoUri
    ensures Clusters([current] + list) == [DuplicateVideoData(current.videoUri, Uris(list))] + Clusters(list)
  {
    assert ([current] + list)[1..] == list;
    ClustersUnfold([current] + list);
    AllSimilarCandidates(current, list);
    WithoutOtherVideo(list, current.videoUri);
  }

  /** A lone record is never reported. */
  lemma {:induction false} SingleRecord(c: VideoFrameHashEntity)
    ensures Clusters([c]) == []
  {
    assert [c][1..] == [];
    ClustersUnfold([c]);
  }

  /**
   * When every record of `list` belongs to another video, no two to the
   * same one, and each is similar by average hash, the candidates are
   * exactly those videos in record order.
   */
  lemma AllSimilarCandidates(current: VideoFrameHashEntity, list: seq<VideoFrameHashEntity>)
    requires forall i :: 0 <= i < |list| ==> list[i].videoUri != current.videoUri && MatchesByAHash(list[i], current)
    requires forall i, j :: 0 <= i < j < |list| ==> list[i].videoUri != list[j].videoUri
    ensures MaybeDuplicateUris(current, list) == Uris(list)
  {
    var uris := Uris(list);
    WithoutOtherVideo(list, current.videoUri);
    AllKept(list, (it: VideoFrameHashEntity) => MatchesByAHash(it, current));
    assert MaybeFromAHash(current, list) == list;
    DistinctOfDistinct(uris);
    var fromD := Uris(MaybeFromDHash(current, list));
    UrisAreVideos(list);
    assert forall u :: u in fromD ==> u in Elements(uris);
    DistinctFromSeen(fromD, {} + Elements(uris));
    DistinctFromAppend(uris, fromD, {});
  }

  /** Nothing is left once every element has been seen. */
  lemma {:induction false} DistinctFromSeen<T(!new)>(s: seq<T>, seen: set<T>)
    requires forall x :: x in s ==> x in seen
    ensures DistinctFrom(s, seen) == []
  {
    if s != [] {
      assert s[0] in s;
      DistinctFromSeen(s[1..], seen);
    }
  }

  lemma {:induction false} AllKept<T(!new)>(s: seq<T>, p: T -> bool)
    requires forall i :: 0 <= i < |s| ==> p(s[i])
    ensures Filter(s, p) == s
  {
    if s != [] {
      AllKept(s[1..], p);
    }
  }

  lemma WithoutOtherVideo(list: seq<VideoFrameHashEntity>, uri: string)
    requires forall i :: 0 <= i < |list| ==> list[i].videoUri != uri
    ensures WithoutVideo(list, uri) == list
  {
    AllKept(list, (it: VideoFrameHashEntity) => it.videoUri != uri);
  }

  lemma {:induction false} DistinctOfDistinct<T(!new)>(s: seq<T>)
    requires forall i, j :: 0 <= i < j < |s| ==> s[i] != s[j]
    ensures Distinct(s) == s
  {
    DistinctFromUnseen(s, {});
  }

  lemma {:induction false} DistinctFromUnseen<T(!new)>(s: seq<T>, seen: set<T>)
    requires forall i, j :: 0 <= i < j < |s| ==> s[i] != s[j]
    requires forall i :: 0 <= i < |s| ==> s[i] !in seen
    ensures DistinctFrom(s, seen) == s
  {
    if s != [] {
      DistinctFromUnseen(s[1..], seen + {s[0]});
    }
  }
}
