# octoWatch detection core in Dafny

This project models the computational core of `detect_with_yolo.py`. That
script finds the octopus in each tank half of a video and writes a table of
keyframes. The model covers:

- **`compute_iou`**: intersection over union of two normalised boxes.
  `Geometry.Iou` follows the code as written, including the `max(0, …)`
  clamps and the `0` returned when the union is not positive.
- **`preprocess_keyframes`**:
  - `Keyframes` states the cleanup as an order-free table function, `Keyframes.Preprocessed`. For each side, a list with more than one detection becomes the single detection that best matches the most recent earlier single detection on that side. Best means the highest IoU, and the first one wins ties. Every other list is kept.
  - `Preprocess` is the imperative version of the code: a scan over the sorted frame numbers with a running reference detection and a fresh output table, proved equal to `Preprocessed`.
- **The tank geometry**:
  - How `find_tank_bbox` averages the collected tank boxes (truncated toward zero) and clamps them to the frame.
  - The `center_x` of the tank record, which uses floor division.
  - The two half-tank crops.
  - How `process_tank_half_batch` maps a detector box from crop pixels to full-frame normalised coordinates (`Tank`).
- **The frame loop of `detect_octopus_in_video`** (`VideoScan`):
  - The frame interval and the frame budget.
  - The keyframe test.
  - Buffering keyframes into detector batches, and the flush rule.
  - The record stored per keyframe and the running detection totals.
  - The exceptions raised on degenerate parameters.
  - The final statistics and the optional cleanup.
- **The four-digit video-code shortcut of `main`** (`Paths`).

Frame numbers are stored as integers. The source keys its tables by
`str(frame_num)` and sorts the keys by `int()`, so integer keys give the
same order and the same identity. Tables and keyframes are values. The
source builds a fresh output table, copies each keyframe before it changes
one (`kf.copy()`), and never changes a list in place, so the input table is
never altered, and the value model captures that by construction.

Three things outside the program are parameters:

- The video reader is the number of frames `available` that `cap.read()` delivers before it fails.
- The detector is an oracle `Env.yolo` that gives the crop-space boxes and confidences the model reports for a frame and a tank half.
- The frame size is `Env.width` and `Env.height`.

The degenerate parameters are modelled as the exceptions Python would raise:

- `hertz == 0` raises at `fps / hertz`.
- A zero frame interval (`fps` smaller in magnitude than `hertz`) raises at `frame_count % frame_interval` once a frame has been read.
- `fps == 0` raises at `frame_count / fps`.

## Model

| member | source | states |
|---|---|---|
| Geometry.Iou | detect_with_yolo.py:15-29 | the IoU is never negative and is 0 whenever the union is not positive, so it never divides by zero |
| Geometry.IouSymmetric | detect_with_yolo.py:17-27 | IoU does not depend on argument order |
| Geometry.IouDisjoint | detect_with_yolo.py:17-22 | boxes that do not overlap on the x axis or on the y axis have IoU 0 |
| Geometry.IntersectionWithinAreas | detect_with_yolo.py:22-27 | for well-formed boxes the intersection is at most each area, so the union is at least each area |
| Geometry.IouBounded | detect_with_yolo.py:17-29 | for boxes with min <= max on both axes the IoU lies in [0, 1] |
| Geometry.IouSelf | detect_with_yolo.py:24-29 | a box with positive width and height has IoU 1 with itself |
| Geometry.IouSelfInverted | detect_with_yolo.py:24-29 | a box inverted on both axes has positive area yet IoU 0 with itself |
| Geometry.IouPositiveIffOverlap | detect_with_yolo.py:22-29 | for well-formed boxes the IoU is positive exactly when the boxes overlap on both axes |
| Keyframes.FirstBestIndex | detect_with_yolo.py:50-56 | for a non-empty list, the index of the first detection with the greatest IoU against the reference |
| Keyframes.FirstBestUnique | detect_with_yolo.py:52-56 | the first best match under the strict `>` rule is unique |
| Keyframes.LastSingleExists | detect_with_yolo.py:41-47 | when some earlier frame has exactly one detection on a side, there is a most recent such frame |
| Keyframes.LastSingleUnique | detect_with_yolo.py:45-47 | the most recent earlier single-detection frame is unique |
| Keyframes.ShortListUnchanged | detect_with_yolo.py:45-48 | a list with 0 or 1 detections is kept as is |
| Keyframes.NoEarlierSingleUnchanged | detect_with_yolo.py:63-65 | a multi-detection list with no earlier single detection on its side is kept as is |
| Keyframes.ReducedToBestMatch | detect_with_yolo.py:48-62 | a multi-detection list after the single-detection frame j becomes the one-element list of its first best match against j's detection |
| Keyframes.ReducedIsFirstBest | detect_with_yolo.py:48-62 | a reduced list holds exactly one detection of the original list: one with maximal IoU against the reference, with every earlier one strictly worse |
| Keyframes.CleanedListShape | detect_with_yolo.py:45-65 | the cleaned list is non-empty exactly when the original is, is no longer, and draws only on the original's detections |
| Keyframes.CleanedList | detect_with_yolo.py:36-65 | defines, independently of the loop, one side's list after cleanup: a list of several detections with an earlier single-detection frame becomes the first best IoU match against the most recent such single; any other list is kept |
| Keyframes.Preprocessed | detect_with_yolo.py:32-71 | defines, independently of the loop, the whole cleaned table: every input frame with both lists cleaned; PreprocessKeyframes is proved to return exactly it |
| Keyframes.PreprocessedFrame | detect_with_yolo.py:58-69 | the output has exactly the input's frames; each keeps its timestamp and flags, and each of its lists is that side's cleaned list |
| Keyframes.PreprocessedKeepsSummaries | detect_with_yolo.py:59-65 | the flags are copied, not recomputed, yet a table whose flags matched its lists still matches after cleanup |
| Keyframes.SidesIndependent | detect_with_yolo.py:36-62 | a side's cleaned list depends only on that side's lists across the table |
| Keyframes.PreprocessIdempotent | detect_with_yolo.py:32-71 | cleaning an already cleaned table changes nothing |
| Keyframes.CleanedFixed | detect_with_yolo.py:45-62 | after cleaning, a side's list is its own cleaned list in the cleaned table |
| Keyframes.WithDets | detect_with_yolo.py:59-62 | replacing one side's list keeps the other side's list, the timestamp and both flags |
| Preprocess.SortedFrameIndices | detect_with_yolo.py:41 | the frame numbers in strictly ascending order, each exactly once |
| Preprocess.SelectBest | detect_with_yolo.py:49-56 | the argmax loop from `best_iou = -1` picks the first best match, and picks none only for an empty list |
| Preprocess.ScanReference | detect_with_yolo.py:41-47 | the reference detection the scan holds is that of the most recent single-detection frame before the current one |
| Preprocess.VisitKey | detect_with_yolo.py:42-65 | one visit keeps the remembered single detection equal to that of the latest single-detection frame so far and extends the table invariant to the visited frame |
| Preprocess.ReduceKey | detect_with_yolo.py:48-62 | a frame with several detections after a single one is stored with that side's list replaced by its best match, on top of any copy an earlier pass stored |
| Preprocess.KeepKey | detect_with_yolo.py:45-65 | a frame whose list is kept enters the table as a copy unless it holds exactly one detection, and an entry already there is left alone |
| Preprocess.CleanSide | detect_with_yolo.py:36-65 | one side's pass stores exactly the frames it visits that are not single, with that side's list cleaned and the earlier sides' work kept |
| Preprocess.CopyUntouched | detect_with_yolo.py:67-69 | the final copy completes the table to exactly the cleaned table |
| Preprocess.PreprocessKeyframes | detect_with_yolo.py:32-71 | the imperative cleanup returns exactly `Preprocessed` of its input |
| Tank.TruncDiv | detect_with_yolo.py:173-176 | `int(a / n)` rounds the quotient toward zero |
| Tank.AveragedTankBox | detect_with_yolo.py:169-180 | no box when nothing was collected; otherwise the box is clamped to x_min, y_min >= 0, x_max <= width and y_max <= height |
| Tank.AverageWithin | detect_with_yolo.py:173-176 | the average of values within [lo, hi] stays within [lo, hi] |
| Tank.AveragedInsideFrame | detect_with_yolo.py:173-180 | when every collected box is ordered and inside the frame, the clamp does nothing and the averaged box is ordered and inside the frame |
| Tank.MakeTankBox | detect_with_yolo.py:301-307 | `center_x` is the floor of the midpoint; for ordered edges it lies between them and the right half is as wide as the left or one pixel wider |
| Tank.CropRegion | detect_with_yolo.py:218-221 | the crop of a half: `(x_min, y_min, center_x, y_max)` on the left and `(center_x, y_min, x_max, y_max)` on the right; its properties are stated in CropHalvesCoverTank |
| Tank.CropHalvesCoverTank | detect_with_yolo.py:218-221 | the left crop spans [x_min, center_x] and the right crop [center_x, x_max], both over the tank's rows; they meet at the centre, and neither is inverted for a record built from ordered edges |
| Tank.ToFrameDetection | detect_with_yolo.py:238-256 | a converted detection keeps its confidence and is tagged with its side |
| Tank.CropRoundTrip | detect_with_yolo.py:242-252 | shifting by the crop origin and dividing by the frame size is undone by the inverse mapping |
| Tank.NormalisedWithinCrop | detect_with_yolo.py:242-252 | an ordered box inside the crop maps to a well-formed box within the crop's normalised extent, and within [0, 1] when the crop is inside the frame |
| VideoScan.Trunc | detect_with_yolo.py:338-341 | `int()` of a float truncates toward zero |
| VideoScan.Seconds | detect_with_yolo.py:403 | the timestamp `frame_num / fps` times fps gives back the frame number (also used at lines 436 and 454) |
| VideoScan.IsKeyframe | detect_with_yolo.py:387 | defines the keyframe test: the interval divides the frame number, or it is frame `max_frames-1` or `total_frames-1`; KeyframeNumbersSpec states it as an if-and-only-if over the frames read |
| VideoScan.FlushDue | detect_with_yolo.py:392 | defines the flush test: the buffer holds `batch_size` frames or the frame is within one interval of `max_frames`; BufferKeyframe, WellBatched and EarlyBatchesFull are stated with it |
| VideoScan.KeyframeNumbers | detect_with_yolo.py:381-389 | the keyframes among the frames read, in reading order; KeyframeNumbersSpec proves membership is exactly IsKeyframe and the order strictly ascending |
| VideoScan.FramesRead | detect_with_yolo.py:381-384 | the loop reads up to `max_frames` frames and stops early only when the reader fails |
| VideoScan.HalfDetections | detect_with_yolo.py:232-257 | one detection per detector box, in the detector's order, each tagged with its half and mapping back through the crop and the frame size to exactly the box the detector reported |
| VideoScan.HalfDetectionWithinCrop | detect_with_yolo.py:242-254 | a detector box with ordered edges inside its half becomes a well-formed detection inside that half, and inside the unit square when the tank lies in the frame |
| VideoScan.FrameRecord | detect_with_yolo.py:402-408 | timestamp times fps is the frame number; each flag is true exactly when its list is non-empty |
| VideoScan.ProcessTankHalfBatch | detect_with_yolo.py:206-259 | one detection list per frame of the batch, each the converted detector output for that frame and half |
| VideoScan.StoreBatch | detect_with_yolo.py:393-411 | the table gains a record for each frame of the batch and keeps every other entry; each total grows by the batch's detections on its side |
| VideoScan.StoreRecords | detect_with_yolo.py:397-411 | given the per-frame lists of both halves, the table gains each frame's record and keeps every other entry, and each total grows by that side's detections |
| VideoScan.BufferKeyframe | detect_with_yolo.py:387-419 | appending a keyframe to the buffer, and flushing it when full or near `max_frames`, keeps the table, the totals and the flush rule in step with the batches and loses or repeats no frame |
| VideoScan.FlushRemainder | detect_with_yolo.py:424-444 | the leftover buffer becomes the last batch, after which the table and the totals cover every keyframe and the batches are well formed |
| VideoScan.Summarise | detect_with_yolo.py:452-478 | the duration is frames over fps, the keyframe count is the table's size, the totals are carried, and the table is the cleaned one exactly when preprocessing is asked |
| VideoScan.Flush | detect_with_yolo.py:425-444 | flushing the remainder, like a flush in the loop, extends the table and the totals to the buffered frames |
| VideoScan.ScanFrames | detect_with_yolo.py:381-444 | fails exactly when the interval is zero and a frame is read; otherwise the table holds the records of the keyframes read, the totals count their detections, and the batches concatenate to the keyframes and obey the flush rule |
| VideoScan.DetectOctopusInVideo | detect_with_yolo.py:338-481 | the error cases; otherwise the frames processed, the duration, the keyframe count, the totals and the table (cleaned when asked), with the batches handed to the detector |
| VideoScan.DetectionTotalAppend | detect_with_yolo.py:410-411 | the running totals add up batch by batch |
| VideoScan.KeyframeNumbersSpec | detect_with_yolo.py:387 | a frame read is a keyframe exactly when the interval divides it or it is frame `max_frames-1` or `total_frames-1`; keyframes come strictly ascending |
| VideoScan.ScannedKeys | detect_with_yolo.py:387-402 | the table is keyed by exactly the keyframes read |
| VideoScan.ScannedRecords | detect_with_yolo.py:402-408 | every stored record has its timestamp, the converted lists of both halves and flags matching the lists |
| VideoScan.ScannedSize | detect_with_yolo.py:461 | `total_keyframes` equals the number of keyframes read |
| VideoScan.EndpointsSampled | detect_with_yolo.py:387 | frame 0, frame `max_frames-1` and frame `total_frames-1` are keyframes whenever they are read |
| VideoScan.SamplingGap | detect_with_yolo.py:387 | with a positive interval every frame read is less than one interval after a keyframe |
| VideoScan.BatchesBounded | detect_with_yolo.py:392 | with a positive batch size every batch is non-empty and no longer than the batch size |
| VideoScan.EarlyBatchesFull | detect_with_yolo.py:392-420 | every batch but the last is full or ends within one interval of `max_frames` |
| Paths.IsVideoCode | detect_with_yolo.py:539 | defines the shortcut test: four characters, each a digit (ASCII digits, see Left out) |
| Paths.ResolveVideoArgument | detect_with_yolo.py:538-543 | a four-digit code sets the output path; anything else leaves the video and output arguments unchanged |
| Paths.CodeRoundTrip | detect_with_yolo.py:539-542 | the code can be read back from the proxy video path and from the keyframes output path |
| Paths.CodesDistinct | detect_with_yolo.py:539-542 | different codes give different video paths and different output paths |
| Paths.ResolveIdempotent | detect_with_yolo.py:538-543 | a resolved path is not a code, so resolving it again changes nothing |

## Left out

- Preprocess.PreprocessKeyframes / Keyframes.Preprocessed: the key order of the returned table, and so the order of the keys in the written JSON, is not modelled. A Python dict keeps insertion order: the cleanup inserts first the frames the left pass stores, then those only the right pass stores, then the frames with one detection on both sides, so after cleanup the order is in general not ascending (frame 0 with one left and no right detection and frame 1 with none come out as "1", "0"). A `map` has no order.
- `cursed.py`, `detection_manager.py` and `app.py` are not part of this model. They hold a numerical simulation with plotting, a background thread that watches a child process, and web routes. The only logic `app.py` adds is a copy of the four-digit video-code check.
- The sampling loop of `find_tank_bbox` (which frames moondream sees, the stop after five boxes, the rescan near the first hit) is not modelled. It is governed by the vision model's answers. The model starts from the list of collected boxes.
- Loading and running YOLO and moondream, `cv2` video I/O, `torch` device selection, argparse, and JSON reading and writing are outside the model. The detector is the `Env.yolo` oracle; its confidence threshold is applied inside the oracle.
- The cropping of frame pixels (`frame[y_min:y_max, x_min:x_max]`) is not modelled. The oracle receives the frame number and the side, and the model fixes only the coordinate arithmetic around it.
- The clock is not modelled: `processing_time`, `real_time_ratio` (including a division by zero when no time elapses) and all progress printing.
- The metadata echoed into `keyframe_data` is not modelled: the filename, fps, frame size, tank record and detection parameters.
- Floating point is modelled by exact reals: timestamps, IoU, normalisation, `fps / hertz` and `fps * duration`. Truncation by `int()` is modelled exactly. The sums of collected tank boxes are integers, which floats hold exactly at pixel scale.
- `VideoScan.DetectOctopusInVideo` requires a positive frame width and height. Frames delivered by the reader are never empty, so the division by the frame size in the normalisation cannot fail.
- Paths.IsVideoCode accepts only ASCII digits. Python's `str.isdigit` also accepts other Unicode digits.
- The default output name (`<video stem>_yolo_keyframes.json`), used when neither a code nor `--output` is given, is not modelled.
- The tank record read from a keyframes file (`--tank-keyframes`) is not modelled. It is whatever that file holds, and the model starts from a `TankBox`.
