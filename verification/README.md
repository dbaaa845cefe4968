# Duplicate-video detection: hashing and clustering core

This project models the core of the Android app AndroidDetectDuplicateVideoApp in Dafny and proves properties of that model. The app samples frames from every video on the device and stores two 64-bit perceptual hashes per frame. It then groups the videos whose frames look alike.

The model has three modules:

- `ULongBits` (`ulong_bits.dfy`) covers Kotlin's `ULong`.
  - A word is 64 bits. The operations the hashing code uses are modelled: `0UL`, `1UL shl c`, `or`, `xor` and `countOneBits`.
  - `inv` is not used by the hashing code. It is modelled only to state how `compare` scores a hash against its complement (`CompareInverse`).
  - The `toLong()`/`toULong()` reinterpretation used to store a hash is modelled too.
- `ImageTool` (`image_tool.dfy`) covers `ImageTool.kt`.
  - `calcDHash` and `calcAHash` are methods over a two-dimensional array of pixels indexed `[x, y]`. Their nested loops keep `resultBit`, `bitCount` and the channel totals.
  - Each method is proved equal to a specification function (`DHash`, `AHash`). Each also gets a bit-by-bit characterisation.
  - `compare` is a function. It returns the number of agreeing bits, which is the exact numerator of the `Float` score `agree / 64`.
- `MainActivity` (`main_activity.dfy`) covers the two jobs of the main screen.
  - From `analyze()`:
    - the sampled-duration rule and the frame-time list;
    - the filter for videos not yet analysed;
    - the per-video frame loop that writes one record per decoded frame.
  - From `compare()`: the clustering loop. It is a method whose result is proved equal to the function `Clusters`. Lemmas then state the properties of `Clusters`.

Pixels are opaque colours `(red, green, blue)` with 8-bit channels. They are compared by the signed `Int` that Android returns for an opaque pixel. That value orders pixels by red, then green, then blue. The resize and greyscale steps come before the hashing code and are not modelled: the hashing code receives the reduced grid as input.

The similarity threshold `0.95f` is the `Float` 15938355 / 2^24 exactly. `threshold < agree / 64` is decided on integers. It holds exactly when at most 3 of the 64 bits differ.

Three mutually similar videos do not end up in a single group. After each round `compare()` removes only the anchor's records (`MainActivity.kt:231`). Candidate videos therefore stay in the working list and can anchor later groups. `ThreeSimilarVideos` proves that three mutually similar single-record videos give two groups.

## Model

| member | source | states |
|---|---|---|
| ULongBits.PopCount | app/src/main/java/io/github/takusan23/androiddetectduplicatevideoapp/ImageTool.kt:115 | `countOneBits()` of a 64-bit word is at most 64 |
| ULongBits.MsbFirstBit | app/src/main/java/io/github/takusan23/androiddetectduplicatevideoapp/ImageTool.kt:55-67 | The word built by or-ing `1UL shl (63 - i)` for each true test `i` has bit `63 - i` set exactly when test `i` is true. It has no other bit set. |
| ULongBits.MsbFirstAllClear | app/src/main/java/io/github/takusan23/androiddetectduplicatevideoapp/ImageTool.kt:55-67 | When no test holds, the result stays `0UL` |
| ULongBits.ShlOneValue | app/src/main/java/io/github/takusan23/androiddetectduplicatevideoapp/ImageTool.kt:63 | `1UL shl c` denotes 2^c |
| ULongBits.ToULongOfToLong | app/src/main/java/io/github/takusan23/androiddetectduplicatevideoapp/MainActivity.kt:170-171 | A hash stored with `toLong()` and read back with `toULong()` is unchanged |
| ULongBits.ToLongOfToULong | app/src/main/java/io/github/takusan23/androiddetectduplicatevideoapp/MainActivity.kt:219-220 | A stored `Long` read as `toULong()` and converted back with `toLong()` is unchanged |
| ImageTool.ColorIntOrder | app/src/main/java/io/github/takusan23/androiddetectduplicatevideoapp/ImageTool.kt:62 | `<` on packed pixel values orders pixels by red, then green, then blue. An opaque pixel's value is negative. |
| ImageTool.DHashBit | app/src/main/java/io/github/takusan23/androiddetectduplicatevideoapp/ImageTool.kt:57-66 | Bit `63 - (8y + x)` of the difference hash is set exactly when `grid[x, y] < grid[x + 1, y]`, strictly |
| ImageTool.DHashBits | app/src/main/java/io/github/takusan23/androiddetectduplicatevideoapp/ImageTool.kt:57-66 | The same, for all 64 cells at once |
| ImageTool.DHashOfFlatRows | app/src/main/java/io/github/takusan23/androiddetectduplicatevideoapp/ImageTool.kt:57-66 | A grid whose every row is one colour has difference hash `0UL`. The ninth column has no bit of its own. |
| ImageTool.CalcDHash | app/src/main/java/io/github/takusan23/androiddetectduplicatevideoapp/ImageTool.kt:43-69 | The loop over `y` and `x` with `bitCount` counting down from 63 returns `DHash` of the 9 x 8 grid. Each bit `63 - (8y + x)` is the strict right-neighbour test. |
| ImageTool.ChannelTotalBounds | app/src/main/java/io/github/takusan23/androiddetectduplicatevideoapp/ImageTool.kt:78-88 | A channel total of `n` values in `[lo, hi]` lies in `[n*lo, n*hi]` |
| ImageTool.SumChannels | app/src/main/java/io/github/takusan23/androiddetectduplicatevideoapp/ImageTool.kt:78-88 | The first loop of `calcAHash` leaves in `totalRed`, `totalGreen` and `totalBlue` the channel sums over the 64 cells |
| ImageTool.AverageChannel | app/src/main/java/io/github/takusan23/androiddetectduplicatevideoapp/ImageTool.kt:89 | `total / 64` is a valid channel value between the channel's smallest and largest value in the grid |
| ImageTool.AverageBetweenExtremes | app/src/main/java/io/github/takusan23/androiddetectduplicatevideoapp/ImageTool.kt:78-89 | The floor of a channel total divided by 64 is in 0..255 and is bounded by some cell below and some cell above |
| ImageTool.AHashBit | app/src/main/java/io/github/takusan23/androiddetectduplicatevideoapp/ImageTool.kt:97-108 | Bit `63 - (8y + x)` of the average hash is set exactly when the packed average colour is strictly less than the packed pixel |
| ImageTool.AHashBits | app/src/main/java/io/github/takusan23/androiddetectduplicatevideoapp/ImageTool.kt:97-108 | The same, for all 64 cells at once |
| ImageTool.AHashOfUniformFrame | app/src/main/java/io/github/takusan23/androiddetectduplicatevideoapp/ImageTool.kt:78-108 | A single-colour grid averages to that colour and has average hash `0UL` |
| ImageTool.CalcAHash | app/src/main/java/io/github/takusan23/androiddetectduplicatevideoapp/ImageTool.kt:72-110 | The two loops return `AHash` of the 8 x 8 grid. Each bit `63 - (8y + x)` compares the pixel with `Color.rgb(totalRed / 64, totalGreen / 64, totalBlue / 64)`. |
| ImageTool.XorCountsDisagreements | app/src/main/java/io/github/takusan23/androiddetectduplicatevideoapp/ImageTool.kt:114-115 | The set bits of `a xor b` plus the agreeing positions make up all 64 positions |
| ImageTool.Compare | app/src/main/java/io/github/takusan23/androiddetectduplicatevideoapp/ImageTool.kt:113-118 | The score numerator `64 - popcount(a xor b)` is the number of agreeing bit positions. It is at most 64, so the score lies in [0, 1]. |
| ImageTool.CompareSelf | app/src/main/java/io/github/takusan23/androiddetectduplicatevideoapp/ImageTool.kt:114-117 | `compare(h, h)` is 1 |
| ImageTool.CompareInverse | app/src/main/java/io/github/takusan23/androiddetectduplicatevideoapp/ImageTool.kt:114-117 | `compare(h, h.inv())` is 0 |
| ImageTool.CompareSymmetric | app/src/main/java/io/github/takusan23/androiddetectduplicatevideoapp/ImageTool.kt:114 | `compare(a, b) == compare(b, a)` |
| MainActivity.Filter | app/src/main/java/io/github/takusan23/androiddetectduplicatevideoapp/MainActivity.kt:218 | Kotlin `filter` keeps exactly the elements satisfying the predicate, and no more of them than the input has |
| MainActivity.FilterKeepsEveryCopy | app/src/main/java/io/github/takusan23/androiddetectduplicatevideoapp/MainActivity.kt:218 | `filter` keeps every occurrence of an element satisfying the predicate, and none of any other element |
| MainActivity.FilterIsSubsequence | app/src/main/java/io/github/takusan23/androiddetectduplicatevideoapp/MainActivity.kt:218 | `filter` keeps the elements in their original order |
| MainActivity.DistinctFrom | app/src/main/java/io/github/takusan23/androiddetectduplicatevideoapp/MainActivity.kt:222 | `distinct` continued after a set of seen elements keeps exactly the unseen elements, each once |
| MainActivity.Distinct | app/src/main/java/io/github/takusan23/androiddetectduplicatevideoapp/MainActivity.kt:222 | `distinct` keeps exactly the elements of its input, each once |
| MainActivity.DistinctFromIsSubsequence | app/src/main/java/io/github/takusan23/androiddetectduplicatevideoapp/MainActivity.kt:222 | `distinct` picks its elements out of the list without reordering them |
| MainActivity.DistinctFromFirstOccurrences | app/src/main/java/io/github/takusan23/androiddetectduplicatevideoapp/MainActivity.kt:222 | `distinct` lists its elements in the order of their first occurrences: each element listed occurs in the input before any occurrence of an element listed after it |
| MainActivity.DistinctFromAppend | app/src/main/java/io/github/takusan23/androiddetectduplicatevideoapp/MainActivity.kt:222 | `(a + b).distinct()` is the distinct elements of `a`, then those of `b` not already in `a` |
| MainActivity.UrisAreVideos | app/src/main/java/io/github/takusan23/androiddetectduplicatevideoapp/MainActivity.kt:222 | `map { it.videoUri }` names exactly the videos that have a record in the list |
| MainActivity.VideoDurationMs | app/src/main/java/io/github/takusan23/androiddetectduplicatevideoapp/MainActivity.kt:142-152 | The sampled duration is `minOf(10_000, duration)`. It is absent exactly when the metadata could not be read, and then the video is skipped. |
| MainActivity.FrameMsFrom | app/src/main/java/io/github/takusan23/androiddetectduplicatevideoapp/MainActivity.kt:155 | `(start until end step 1_000)` lists `start + 1000*i` at index `i`. It holds exactly the times in `[start, end)` that are whole seconds after `start`. |
| MainActivity.FrameMsList | app/src/main/java/io/github/takusan23/androiddetectduplicatevideoapp/MainActivity.kt:155 | The sampled times are 0, 1000, 2000, ... in increasing order: exactly the multiples of 1000 in `[0, duration)` |
| MainActivity.AtMostTenFrames | app/src/main/java/io/github/takusan23/androiddetectduplicatevideoapp/MainActivity.kt:142-155 | At most 10 frame times are sampled, and none when the duration is not positive |
| MainActivity.UnAnalyzeUriList | app/src/main/java/io/github/takusan23/androiddetectduplicatevideoapp/MainActivity.kt:127-130 | The videos to analyse are exactly the input URIs with no stored record, each as often as it occurs in the input, in their original order |
| MainActivity.NewRecord | app/src/main/java/io/github/takusan23/androiddetectduplicatevideoapp/MainActivity.kt:167-172 | The inserted entity carries the video, the frame time and both hashes. The hashes read back with `toULong()` unchanged. |
| MainActivity.FrameRecords | app/src/main/java/io/github/takusan23/androiddetectduplicatevideoapp/MainActivity.kt:159-176 | Every record written for a video has that video, a requested frame time, and the hashes the extractor produced for that time. There are no more records than requested frame times. One record per time holds for the sampled times, which increase (`FrameRecordsIncreasing`). |
| MainActivity.FrameRecordsIncreasing | app/src/main/java/io/github/takusan23/androiddetectduplicatevideoapp/MainActivity.kt:155-176 | Frames requested in increasing time order are recorded in increasing time order, so at most one record per requested time |
| MainActivity.FrameRecordsComplete | app/src/main/java/io/github/takusan23/androiddetectduplicatevideoapp/MainActivity.kt:159-176 | Every frame that hashes gets its record, when the decoder has not failed at or before its time: a missing frame is skipped and the loop goes on |
| MainActivity.FrameRecordsStop | app/src/main/java/io/github/takusan23/androiddetectduplicatevideoapp/MainActivity.kt:159-188 | A decoder error ends the loop: the records are those of the frames before the failing one, and each record's time is one of those frames |
| MainActivity.InsertFrames | app/src/main/java/io/github/takusan23/androiddetectduplicatevideoapp/MainActivity.kt:157-188 | The `forEach` over frame times, with its decoder-error handler, inserts exactly `FrameRecords`, so `FrameRecordsComplete` and `FrameRecordsStop` describe what it writes |
| MainActivity.AnalyzeVideoRecords | app/src/main/java/io/github/takusan23/androiddetectduplicatevideoapp/MainActivity.kt:142-188 | One video yields at most 10 records, none when its duration is unreadable. Each record is for that video, at a whole second below 10 s, with the extractor's hashes. The records are in increasing time order. |
| MainActivity.AnalyzeVideoComplete | app/src/main/java/io/github/takusan23/androiddetectduplicatevideoapp/MainActivity.kt:155-176 | Each sampled whole second whose frame hashes gets its record, when the decoder has not failed at that second or an earlier one |
| MainActivity.AnalyzeVideoStops | app/src/main/java/io/github/takusan23/androiddetectduplicatevideoapp/MainActivity.kt:155-188 | Once the decoder fails at a sampled second, no record is written for that second or a later one |
| MainActivity.SimilarIffAtMostThreeBitsDiffer | app/src/main/java/io/github/takusan23/androiddetectduplicatevideoapp/MainActivity.kt:209-220 | `0.95f < compare(a, b)` holds exactly when at most 3 bits differ, that is when at least 61 agree |
| MainActivity.SameHashIsSimilar | app/src/main/java/io/github/takusan23/androiddetectduplicatevideoapp/MainActivity.kt:219-220 | Identical hashes always match |
| MainActivity.WithoutVideo | app/src/main/java/io/github/takusan23/androiddetectduplicatevideoapp/MainActivity.kt:218 | `withoutTargetList` (and the list after `removeAll`) keeps exactly the records of other videos. Its videos are the old ones minus the anchor's. |
| MainActivity.WithoutVideoKeepsEveryCopy | app/src/main/java/io/github/takusan23/androiddetectduplicatevideoapp/MainActivity.kt:218 | Dropping the anchor's records keeps every copy of every other video's record |
| MainActivity.MaybeFromAHash | app/src/main/java/io/github/takusan23/androiddetectduplicatevideoapp/MainActivity.kt:219 | `maybeFromAHash` names exactly the other videos that have a record matching the anchor by average hash |
| MainActivity.MaybeFromDHash | app/src/main/java/io/github/takusan23/androiddetectduplicatevideoapp/MainActivity.kt:220 | `maybeFromDHash` names exactly the other videos that have a record matching the anchor by difference hash |
| MainActivity.MaybeDuplicateUris | app/src/main/java/io/github/takusan23/androiddetectduplicatevideoapp/MainActivity.kt:216-222 | `totalResult` names each video, other than the anchor's, with a later record matching by either hash, once each. It names no other video. |
| MainActivity.AHashCandidatesFirst | app/src/main/java/io/github/takusan23/androiddetectduplicatevideoapp/MainActivity.kt:222 | `totalResult` lists the distinct average-hash matches first, in list order, then the distinct difference-hash matches not matched by average hash, in their first-occurrence order |
| MainActivity.ClustersWellFormed | app/src/main/java/io/github/takusan23/androiddetectduplicatevideoapp/MainActivity.kt:213-232 | Every group has a non-empty candidate list without duplicates and without its anchor. Every video named has a record. No video anchors two groups, and no anchor is a candidate of a later group. |
| MainActivity.ClustersStep | app/src/main/java/io/github/takusan23/androiddetectduplicatevideoapp/MainActivity.kt:216-231 | One round: a non-empty `totalResult` is a well-formed group that can be put before the later rounds' groups |
| MainActivity.NextWorkingList | app/src/main/java/io/github/takusan23/androiddetectduplicatevideoapp/MainActivity.kt:216-231 | After a round, the working list is the old list without its head and without the anchor video's records. Every other record is kept, as many times as it occurred, and in its order. |
| MainActivity.Compare | app/src/main/java/io/github/takusan23/androiddetectduplicatevideoapp/MainActivity.kt:201-234 | The `while` loop, starting from an empty result and popping the head each round, returns `Clusters` of the stored records |
| MainActivity.FirstVideoReported | app/src/main/java/io/github/takusan23/androiddetectduplicatevideoapp/MainActivity.kt:216-229 | The first record's video anchors a group exactly when a record of another video matches it by either hash |
| MainActivity.AllSimilarCandidates | app/src/main/java/io/github/takusan23/androiddetectduplicatevideoapp/MainActivity.kt:218-222 | When every later record is of its own distinct other video and matches by average hash, `totalResult` is their videos in list order |
| MainActivity.AllSimilarRound | app/src/main/java/io/github/takusan23/androiddetectduplicatevideoapp/MainActivity.kt:216-231 | In that case, the round emits one group with all those videos, and all their records go on to the next round |
| MainActivity.SingleRecord | app/src/main/java/io/github/takusan23/androiddetectduplicatevideoapp/MainActivity.kt:216-224 | A lone record produces no group |
| MainActivity.TwoSimilarVideos | app/src/main/java/io/github/takusan23/androiddetectduplicatevideoapp/MainActivity.kt:213-232 | Two single-record videos matching by average hash give the single group `(first, [second])` |
| MainActivity.ThreeSimilarVideos | app/src/main/java/io/github/takusan23/androiddetectduplicatevideoapp/MainActivity.kt:213-232 | Three mutually matching single-record videos give `(a, [b, c])` and then `(b, [c])` |

## Left out

- `Bitmap.scale` and `toMonoChrome` (`ImageTool.kt:45-47, 74-76, 121-131`) are Android resampling and colour-matrix filtering with floating-point internals. The hashes take the already reduced grid of pixels as input.
- `loadBitmap` (`ImageTool.kt:30-37`) is content-resolver I/O and is not modelled.
- The `Float` division in `compare` is not modelled as floating point. The model keeps the exact numerator, `agree / 64`, which a `Float` holds exactly, and compares it with `0.95f` written out as the exact fraction 15938355 / 2^24.
- The coroutine machinery of `analyze()` is concurrency and cancellation plumbing. It has no effect on what is computed for a video when nothing is cancelled. On cancellation the `CancellationException` handler (`MainActivity.kt:177-182`) deletes the video's records. It is not modelled. This covers:
  - `launch`, `joinAll` and the dispatchers;
  - `Semaphore(16)`;
  - the `CancellationException` handler that deletes a video's partial records.
- The `isActive` check of `compare()` is not modelled. The loop runs until the working list is empty, as it does when nothing cancels it.
- `MediaMetadataRetriever` and `VideoFrameBitmapExtractor` are foreign calls, so they come in as parameters instead:
  - the duration is an `Option<Long>`, with `None` for any failure to read it;
  - the extractor is a function from frame time to `Hashed`, `NoFrame` or `DecoderError`.
- A failure of `prepareDecoder` is not modelled separately. It is treated as a `DecoderError` on the first frame, because both end the video's analysis with nothing written.
- The Room database (`DetectDuplicateVideoAppDb`, `VideoFrameHashDao`) is not modelled:
  - stored records are a sequence passed in;
  - written records are returned as a sequence;
  - the auto-generated `id` is left at its default 0.
- `VideoTool.kt` is MediaStore queries and URI construction; it is not part of this model.
- The Compose UI, permissions and intents are not part of this model.
- `Uri` values are modelled as their strings. `toUri()` and `toString()` are taken to be inverse.
- MainActivity.Compare: `duplicateVideoList.value` is modelled as the method's result sequence, not as observable Compose state updated after each round.
