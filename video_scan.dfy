/**
 * The frame loop of `detect_octopus_in_video` (detect_with_yolo.py): which
 * frames become keyframes, how they are buffered into detector batches, the
 * record stored for each keyframe, the running detection totals and the
 * final statistics, followed by the optional cleanup.
 *
 * The video reader is abstracted by the number of frames it delivers, and
 * the detector by an oracle giving, for a frame number and a tank half, the
 * boxes it reports in crop pixel coordinates.
 */
module VideoScan {
  import opened Options
  import opened Geometry
  import opened Keyframes
  import opened Tank
  import Preprocess

  /** What the loop reads from outside: the detector, the tank record and the frame size. */
  datatype Env = Env(yolo: (int, Side) -> seq<RawBox>, tank: TankBox, width: int, height: int)

  /** The Python exceptions the function can raise on degenerate parameters. */
  datatype ScanError =
    | ZeroHertz          // `fps / hertz` with hertz == 0
    | ZeroFrameInterval  // `frame_count % frame_interval` with a zero interval
    | ZeroFps            // `frame_count / fps` with fps == 0

  /** The part of `keyframe_data` the loop computes. */
  datatype KeyframeData = KeyframeData(
    keyframes: map<int, Keyframe>,
    framesProcessed: int,
    durationProcessed: real,
    totalKeyframes: int,
    totalLeftDetections: int,
    totalRightDetections: int)

  // ---------------------------------------------------------------------
  // Parameters derived from the video.

  /** Python's `int(x)` on a float: truncation toward zero. */
  function Trunc(x: real): (r: int)
    ensures x >= 0.0 ==> r as real <= x < r as real + 1.0
    ensures x < 0.0 ==> r as real - 1.0 < x <= r as real
  {
    if x >= 0.0 then x.Floor else -((-x).Floor)
  }

  /** Frames the loop reads: it stops at `max_frames` or when the reader runs dry. */
  function FramesRead(maxFrames: int, available: nat): (n: nat)
    ensures n <= available && (n > 0 ==> n <= maxFrames)
    ensures n == available || n >= maxFrames
  {
    if maxFrames <= 0 then 0 else if available < maxFrames then available else maxFrames
  }

  /** `frames / fps`: the time in seconds at which frame number `frames` is shown. */
  function Seconds(frames: int, fps: real): (t: real)
    requires fps != 0.0
    ensures t * fps == frames as real
  {
    frames as real / fps
  }

  // ---------------------------------------------------------------------
  // Keyframe selection and batching.

  /** The keyframe test of the loop, for a nonzero interval. */
  predicate IsKeyframe(f: int, interval: int, maxFrames: int, totalFrames: int) {
    (interval != 0 && f % interval == 0) || f == maxFrames - 1 || f == totalFrames - 1
  }

  /** The flush test applied after a keyframe is appended to the buffer. */
  predicate FlushDue(len: int, f: int, batchSize: int, interval: int, maxFrames: int) {
    len == batchSize || f + interval >= maxFrames
  }

  /** The keyframes among the first `n` frames, in reading order. */
  function KeyframeNumbers(n: nat, interval: int, maxFrames: int, totalFrames: int): seq<int> {
    if n == 0 then []
    else
      var earlier := KeyframeNumbers(n - 1, interval, maxFrames, totalFrames);
      if IsKeyframe(n - 1, interval, maxFrames, totalFrames) then earlier + [n - 1] else earlier
  }

  function Flatten(batches: seq<seq<int>>): seq<int> {
    if batches == [] then [] else Flatten(batches[..|batches| - 1]) + batches[|batches| - 1]
  }

  /** No proper prefix of the buffer met the flush test when its last frame was appended. */
  predicate NoEarlyFlush(b: seq<int>, batchSize: int, interval: int, maxFrames: int) {
    forall i :: 0 <= i < |b| - 1 ==> !FlushDue(i + 1, b[i], batchSize, interval, maxFrames)
  }

  /**
   * The batches handed to the detector: none empty, none flushed early, and
   * each but the last flushed because the flush test held at its end (the
   * last may instead be the remainder flushed after the loop).
   */
  predicate WellBatched(batches: seq<seq<int>>, batchSize: int, interval: int, maxFrames: int) {
    forall i :: 0 <= i < |batches| ==>
      && batches[i] != []
      && NoEarlyFlush(batches[i], batchSize, interval, maxFrames)
      && (i < |batches| - 1 ==>
            FlushDue(|batches[i]|, batches[i][|batches[i]| - 1], batchSize, interval, maxFrames))
  }

  /** Batches flushed inside the loop: each also met the flush test at its end. */
  predicate FlushedBatches(batches: seq<seq<int>>, batchSize: int, interval: int, maxFrames: int) {
    forall i :: 0 <= i < |batches| ==>
      && batches[i] != []
      && NoEarlyFlush(batches[i], batchSize, interval, maxFrames)
      && FlushDue(|batches[i]|, batches[i][|batches[i]| - 1], batchSize, interval, maxFrames)
  }

  lemma KeyframeNumbersStep(n: nat, interval: int, maxFrames: int, totalFrames: int)
    ensures KeyframeNumbers(n + 1, interval, maxFrames, totalFrames) ==
      KeyframeNumbers(n, interval, maxFrames, totalFrames) + (if IsKeyframe(n, interval, maxFrames, totalFrames) then [n] else [])
  {}

  /** Appending a keyframe to a buffer that was not due keeps it free of early flushes. */
  lemma BufferStep(pending: seq<int>, f: int, batchSize: int, interval: int, maxFrames: int)
    requires NoEarlyFlush(pending, batchSize, interval, maxFrames)
    requires pending != [] ==> !FlushDue(|pending|, pending[|pending| - 1], batchSize, interval, maxFrames)
    ensures NoEarlyFlush(pending + [f], batchSize, interval, maxFrames)
  {
    var p := pending + [f];
    forall i | 0 <= i < |p| - 1
      ensures !FlushDue(i + 1, p[i], batchSize, interval, maxFrames)
    {
      assert p[i] == pending[i];
      if i < |pending| - 1 {
        assert !FlushDue(i + 1, pending[i], batchSize, interval, maxFrames);
      }
    }
  }

  lemma FlushedStep(batches: seq<seq<int>>, b: seq<int>, batchSize: int, interval: int, maxFrames: int)
    requires FlushedBatches(batches, batchSize, interval, maxFrames)
    requires b != [] && NoEarlyFlush(b, batchSize, interval, maxFrames)
    requires FlushDue(|b|, b[|b| - 1], batchSize, interval, maxFrames)
    ensures FlushedBatches(batches + [b], batchSize, interval, maxFrames)
  {
    var bs := batches + [b];
    forall i | 0 <= i < |bs|
      ensures bs[i] != [] && NoEarlyFlush(bs[i], batchSize, interval, maxFrames)
      ensures FlushDue(|bs[i]|, bs[i][|bs[i]| - 1], batchSize, interval, maxFrames)
    {
      if i < |batches| {
        assert bs[i] == batches[i];
      }
    }
  }

  lemma FinalBatches(batches: seq<seq<int>>, pending: seq<int>, batchSize: int, interval: int, maxFrames: int)
    requires FlushedBatches(batches, batchSize, interval, maxFrames)
    requires NoEarlyFlush(pending, batchSize, interval, maxFrames)
    ensures WellBatched(if pending == [] then batches else batches + [pending], batchSize, interval, maxFrames)
  {
    var bs := if pending == [] then batches else batches + [pending];
    forall i | 0 <= i < |bs|
      ensures bs[i] != [] && NoEarlyFlush(bs[i], batchSize, interval, maxFrames)
      ensures i < |bs| - 1 ==> FlushDue(|bs[i]|, bs[i][|bs[i]| - 1], batchSize, interval, maxFrames)
    {
      if i < |batches| {
        assert bs[i] == batches[i];
      }
    }
  }

  // ---------------------------------------------------------------------
  // Records.

  /**
   * The detections of one tank half in one frame, in full-frame normalised
   * coordinates: one per detector box, in the detector's order, each tagged
   * with its half and mapping back exactly to the box the detector reported.
   */
  function HalfDetections(env: Env, f: int, side: Side): (ds: seq<Detection>)
    requires env.width > 0 && env.height > 0
    ensures |ds| == |env.yolo(f, side)|
    ensures forall j :: 0 <= j < |ds| ==>
      ds[j].side == side && ToCropBox(CropRegion(env.tank, side), ds[j], env.width, env.height) == env.yolo(f, side)[j]
  {
    var raw := env.yolo(f, side);
    CropRoundTrips(CropRegion(env.tank, side), raw, env.width, env.height, side);
    seq(|raw|, j requires 0 <= j < |raw| =>
      ToFrameDetection(CropRegion(env.tank, side), raw[j], env.width, env.height, side))
  }

  /** CropRoundTrip for every box the detector reports. */
  lemma CropRoundTrips(crop: CropBox, raw: seq<RawBox>, width: int, height: int, side: Side)
    requires width > 0 && height > 0
    ensures forall j :: 0 <= j < |raw| ==>
      ToCropBox(crop, ToFrameDetection(crop, raw[j], width, height, side), width, height) == raw[j]
  {
    forall j | 0 <= j < |raw| {
      CropRoundTrip(crop, raw[j], width, height, side);
    }
  }

  /**
   * A detector box with ordered edges inside its half gives a well-formed
   * detection inside that half; for a tank inside the frame, inside [0, 1] x [0, 1].
   */
  lemma HalfDetectionWithinCrop(env: Env, f: int, side: Side, j: int)
    requires env.width > 0 && env.height > 0
    requires 0 <= j < |env.yolo(f, side)|
    requires var raw, crop := env.yolo(f, side)[j], CropRegion(env.tank, side);
      && 0.0 <= raw.x1 <= raw.x2 <= (crop.xMax - crop.xMin) as real
      && 0.0 <= raw.y1 <= raw.y2 <= (crop.yMax - crop.yMin) as real
    ensures var b, crop := HalfDetections(env, f, side)[j].box, CropRegion(env.tank, side);
      && WellFormed(b)
      && crop.xMin as real / env.width as real <= b.xMin && b.xMax <= crop.xMax as real / env.width as real
      && crop.yMin as real / env.height as real <= b.yMin && b.yMax <= crop.yMax as real / env.height as real
    ensures (0 <= env.tank.xMin <= env.tank.centerX <= env.tank.xMax <= env.width &&
             0 <= env.tank.yMin && env.tank.yMax <= env.height) ==>
      var b := HalfDetections(env, f, side)[j].box;
      0.0 <= b.xMin && b.xMax <= 1.0 && 0.0 <= b.yMin && b.yMax <= 1.0
  {
    NormalisedWithinCrop(CropRegion(env.tank, side), env.yolo(f, side)[j], env.width, env.height, side);
  }

  /** The record stored for keyframe `f`. */
  function FrameRecord(env: Env, fps: real, f: int): (k: Keyframe)
    requires env.width > 0 && env.height > 0 && fps != 0.0
    ensures k.timestamp * fps == f as real
    ensures SummariesConsistent(k)
    ensures Dets(k, Left) == HalfDetections(env, f, Left) && Dets(k, Right) == HalfDetections(env, f, Right)
  {
    var left, right := HalfDetections(env, f, Left), HalfDetections(env, f, Right);
    Keyframe(Seconds(f, fps), left, right, |left| > 0, |right| > 0)
  }

  /** The keyframe table holding the records of the frames in `fs`. */
  ghost function ScannedKeyframes(env: Env, fps: real, fs: seq<int>): map<int, Keyframe>
    requires env.width > 0 && env.height > 0 && fps != 0.0
  {
    map f | f in fs :: FrameRecord(env, fps, f)
  }

  ghost predicate RecordsOf(m: map<int, Keyframe>, env: Env, fps: real, fs: seq<int>)
    requires env.width > 0 && env.height > 0 && fps != 0.0
  {
    (forall k :: k in m <==> k in fs) && forall k :: k in m ==> m[k] == FrameRecord(env, fps, k)
  }

  /** The number of detections reported on one side over the frames in `fs`. */
  function DetectionTotal(env: Env, fs: seq<int>, side: Side): (t: nat)
    requires env.width > 0 && env.height > 0
  {
    if fs == [] then 0
    else DetectionTotal(env, fs[..|fs| - 1], side) + |HalfDetections(env, fs[|fs| - 1], side)|
  }

  // ---------------------------------------------------------------------
  // Small facts used by the loop.

  lemma {:induction false} DetectionTotalAppend(env: Env, xs: seq<int>, ys: seq<int>, side: Side)
    requires env.width > 0 && env.height > 0
    ensures DetectionTotal(env, xs + ys, side) == DetectionTotal(env, xs, side) + DetectionTotal(env, ys, side)
  {
    if ys != [] {
      assert (xs + ys)[..|xs + ys| - 1] == xs + ys[..|ys| - 1];
      assert (xs + ys)[|xs + ys| - 1] == ys[|ys| - 1];
      DetectionTotalAppend(env, xs, ys[..|ys| - 1], side);
    } else {
      assert xs + ys == xs;
    }
  }

  lemma FlattenAppend(batches: seq<seq<int>>, b: seq<int>)
    ensures Flatten(batches + [b]) == Flatten(batches) + b
  {
    assert (batches + [b])[..|batches|] == batches;
  }

  lemma RecordsAreScanned(m: map<int, Keyframe>, env: Env, fps: real, fs: seq<int>)
    requires env.width > 0 && env.height > 0 && fps != 0.0
    requires RecordsOf(m, env, fps, fs)
    ensures m == ScannedKeyframes(env, fps, fs)
  {}

  // ---------------------------------------------------------------------
  // The loop.

  /**
   * `process_tank_half_batch`: one list of full-frame detections per frame of
   * the batch, for one tank half.
   */
  method ProcessTankHalfBatch(env: Env, frames: seq<int>, side: Side) returns (r: seq<seq<Detection>>)
    requires env.width > 0 && env.height > 0
    ensures |r| == |frames|
    ensures forall i :: 0 <= i < |frames| ==> r[i] == HalfDetections(env, frames[i], side)
  {
    if frames == [] {
      return [];
    }
    var crop := CropRegion(env.tank, side);
    r := [];
    for i := 0 to |frames|
      invariant |r| == i
      invariant forall i' :: 0 <= i' < i ==> r[i'] == HalfDetections(env, frames[i'], side)
    {
      var boxes := env.yolo(frames[i], side);
      var detections: seq<Detection> := [];
      for j := 0 to |boxes|
        invariant detections == HalfDetections(env, frames[i], side)[..j]
      {
        detections := detections + [ToFrameDetection(crop, boxes[j], env.width, env.height, side)];
      }
      r := r + [detections];
    }
  }

  /**
   * Running both halves over a batch and storing one record per frame: the
   * table gains the batch's records, every other entry is kept, and the
   * totals grow by the batch's detection counts.
   */
  method StoreBatch(env: Env, fps: real, batch: seq<int>, keyframes: map<int, Keyframe>,
                    totalLeft: int, totalRight: int)
    returns (keyframes': map<int, Keyframe>, totalLeft': int, totalRight': int)
    requires env.width > 0 && env.height > 0 && fps != 0.0
    ensures forall k :: k in keyframes' <==> k in keyframes || k in batch
    ensures forall k :: k in keyframes' ==>
      keyframes'[k] == if k in batch then FrameRecord(env, fps, k) else keyframes[k]
    ensures totalLeft' == totalLeft + DetectionTotal(env, batch, Left)
    ensures totalRight' == totalRight + DetectionTotal(env, batch, Right)
  {
    var left := ProcessTankHalfBatch(env, batch, Left);
    var right := ProcessTankHalfBatch(env, batch, Right);
    keyframes', totalLeft', totalRight' := StoreRecords(env, fps, batch, left, right, keyframes, totalLeft, totalRight);
  }

  /** The loop over `zip(batch_frame_numbers, left_batch_detections, right_batch_detections)`. */
  method StoreRecords(env: Env, fps: real, batch: seq<int>, left: seq<seq<Detection>>, right: seq<seq<Detection>>,
                      keyframes: map<int, Keyframe>, totalLeft: int, totalRight: int)
    returns (keyframes': map<int, Keyframe>, totalLeft': int, totalRight': int)
    requires env.width > 0 && env.height > 0 && fps != 0.0
    requires |left| == |batch| && forall i :: 0 <= i < |batch| ==> left[i] == HalfDetections(env, batch[i], Left)
    requires |right| == |batch| && forall i :: 0 <= i < |batch| ==> right[i] == HalfDetections(env, batch[i], Right)
    ensures forall k :: k in keyframes' <==> k in keyframes || k in batch
    ensures forall k :: k in keyframes' ==>
      keyframes'[k] == if k in batch then FrameRecord(env, fps, k) else keyframes[k]
    ensures totalLeft' == totalLeft + DetectionTotal(env, batch, Left)
    ensures totalRight' == totalRight + DetectionTotal(env, batch, Right)
  {
    keyframes', totalLeft', totalRight' := keyframes, totalLeft, totalRight;
    for i := 0 to |batch|
      invariant forall k :: k in keyframes' <==> k in keyframes || k in batch[..i]
      invariant forall k :: k in keyframes' ==>
        keyframes'[k] == if k in batch[..i] then FrameRecord(env, fps, k) else keyframes[k]
      invariant totalLeft' == totalLeft + DetectionTotal(env, batch[..i], Left)
      invariant totalRight' == totalRight + DetectionTotal(env, batch[..i], Right)
    {
      var f := batch[i];
      var record := Keyframe(Seconds(f, fps), left[i], right[i], |left[i]| > 0, |right[i]| > 0);
      assert record == FrameRecord(env, fps, f);
      ghost var before := keyframes';
      keyframes' := keyframes'[f := record];
      totalLeft' := totalLeft' + |left[i]|;
      totalRight' := totalRight' + |right[i]|;
      assert batch[..i + 1] == batch[..i] + [f];
      assert batch[..i + 1][..i] == batch[..i];
      forall k | k in keyframes'
        ensures keyframes'[k] == if k in batch[..i + 1] then FrameRecord(env, fps, k) else keyframes[k]
      {
        if k != f {
          assert keyframes'[k] == before[k];
        }
      }
    }
    assert batch[..|batch|] == batch;
  }

  /**
   * What the loop keeps between frames: the table and the totals cover the
   * flushed batches, the flushed batches met the flush rule, and the buffer
   * was not yet due.
   */
  ghost predicate BufferState(env: Env, fps: real, interval: int, maxFrames: int, batchSize: int,
                              keyframes: map<int, Keyframe>, totalLeft: int, totalRight: int,
                              batches: seq<seq<int>>, pending: seq<int>)
    requires env.width > 0 && env.height > 0
  {
    && (fps != 0.0 ==> RecordsOf(keyframes, env, fps, Flatten(batches)))
    && (fps == 0.0 ==> batches == [] && keyframes == map[] && pending == [])
    && totalLeft == DetectionTotal(env, Flatten(batches), Left)
    && totalRight == DetectionTotal(env, Flatten(batches), Right)
    && FlushedBatches(batches, batchSize, interval, maxFrames)
    && NoEarlyFlush(pending, batchSize, interval, maxFrames)
    && (pending != [] ==> !FlushDue(|pending|, pending[|pending| - 1], batchSize, interval, maxFrames))
  }

  /** A keyframe joins the buffer, which is flushed when the flush test holds. */
  method BufferKeyframe(env: Env, fps: real, interval: int, maxFrames: int, batchSize: int, f: int,
                        keyframes: map<int, Keyframe>, totalLeft: int, totalRight: int,
                        ghost batches: seq<seq<int>>, pending: seq<int>)
    returns (keyframes': map<int, Keyframe>, totalLeft': int, totalRight': int,
             ghost batches': seq<seq<int>>, pending': seq<int>)
    requires env.width > 0 && env.height > 0 && fps != 0.0
    requires BufferState(env, fps, interval, maxFrames, batchSize, keyframes, totalLeft, totalRight, batches, pending)
    ensures BufferState(env, fps, interval, maxFrames, batchSize, keyframes', totalLeft', totalRight', batches', pending')
    ensures Flatten(batches') + pending' == Flatten(batches) + pending + [f]
  {
    BufferStep(pending, f, batchSize, interval, maxFrames);
    pending' := pending + [f];
    keyframes', totalLeft', totalRight', batches' := keyframes, totalLeft, totalRight, batches;
    if |pending'| == batchSize || f + interval >= maxFrames {
      keyframes', totalLeft', totalRight' := Flush(env, fps, keyframes, totalLeft, totalRight, batches, pending');
      FlattenAppend(batches, pending');
      FlushedStep(batches, pending', batchSize, interval, maxFrames);
      batches' := batches + [pending'];
      pending' := [];
      assert Flatten(batches') + pending' == Flatten(batches');
    }
  }

  /** After the loop, a non-empty buffer is flushed as the last batch. */
  method FlushRemainder(env: Env, fps: real, interval: int, maxFrames: int, batchSize: int,
                        keyframes: map<int, Keyframe>, totalLeft: int, totalRight: int,
                        ghost batches: seq<seq<int>>, pending: seq<int>)
    returns (keyframes': map<int, Keyframe>, totalLeft': int, totalRight': int, ghost batches': seq<seq<int>>)
    requires env.width > 0 && env.height > 0
    requires BufferState(env, fps, interval, maxFrames, batchSize, keyframes, totalLeft, totalRight, batches, pending)
    ensures Flatten(batches') == Flatten(batches) + pending
    ensures fps != 0.0 ==> RecordsOf(keyframes', env, fps, Flatten(batches'))
    ensures fps == 0.0 ==> keyframes' == map[]
    ensures totalLeft' == DetectionTotal(env, Flatten(batches'), Left)
    ensures totalRight' == DetectionTotal(env, Flatten(batches'), Right)
    ensures WellBatched(batches', batchSize, interval, maxFrames)
  {
    FinalBatches(batches, pending, batchSize, interval, maxFrames);
    if pending != [] {
      keyframes', totalLeft', totalRight' := Flush(env, fps, keyframes, totalLeft, totalRight, batches, pending);
      FlattenAppend(batches, pending);
      batches' := batches + [pending];
    } else {
      keyframes', totalLeft', totalRight', batches' := keyframes, totalLeft, totalRight, batches;
      assert Flatten(batches) + pending == Flatten(batches);
    }
  }

  /**
   * The loop of `detect_octopus_in_video` over the frames the reader delivers,
   * followed by the flush of the remainder. It fails, as `frame_count %
   * frame_interval` does, when the interval is zero and a frame was read.
   */
  method ScanFrames(env: Env, fps: real, interval: int, maxFrames: int, totalFrames: int,
                    available: nat, batchSize: int)
    returns (ok: bool, keyframes: map<int, Keyframe>, totalLeft: int, totalRight: int,
             frameCount: int, ghost batches: seq<seq<int>>)
    requires env.width > 0 && env.height > 0
    requires maxFrames > 0 ==> fps != 0.0
    ensures ok <==> !(interval == 0 && FramesRead(maxFrames, available) > 0)
    ensures ok ==>
      var fs := KeyframeNumbers(FramesRead(maxFrames, available), interval, maxFrames, totalFrames);
      && frameCount == FramesRead(maxFrames, available)
      && (fps != 0.0 ==> RecordsOf(keyframes, env, fps, fs))
      && (fps == 0.0 ==> keyframes == map[])
      && totalLeft == DetectionTotal(env, fs, Left)
      && totalRight == DetectionTotal(env, fs, Right)
      && Flatten(batches) == fs
      && WellBatched(batches, batchSize, interval, maxFrames)
  {
    ghost var n := FramesRead(maxFrames, available);
    keyframes, totalLeft, totalRight, batches := map[], 0, 0, [];
    var pending: seq<int> := [];
    frameCount := 0;
    while frameCount < maxFrames
      invariant 0 <= frameCount <= n
      invariant interval != 0 || frameCount == 0
      invariant Flatten(batches) + pending == KeyframeNumbers(frameCount, interval, maxFrames, totalFrames)
      invariant BufferState(env, fps, interval, maxFrames, batchSize, keyframes, totalLeft, totalRight, batches, pending)
    {
      if frameCount >= available {
        break;
      }
      if interval == 0 {
        return false, keyframes, totalLeft, totalRight, frameCount, batches;
      }
      KeyframeNumbersStep(frameCount, interval, maxFrames, totalFrames);
      if frameCount % interval == 0 || frameCount == maxFrames - 1 || frameCount == totalFrames - 1 {
        keyframes, totalLeft, totalRight, batches, pending :=
          BufferKeyframe(env, fps, interval, maxFrames, batchSize, frameCount, keyframes, totalLeft, totalRight, batches, pending);
      }
      frameCount := frameCount + 1;
    }
    keyframes, totalLeft, totalRight, batches :=
      FlushRemainder(env, fps, interval, maxFrames, batchSize, keyframes, totalLeft, totalRight, batches, pending);
    ok := true;
  }

  /**
   * `detect_octopus_in_video` from the interval computation to the returned
   * data, with the optional cleanup. `available` is the number of frames the
   * reader delivers before `cap.read()` fails; the ghost `batches` lists the
   * frame numbers of each detector batch in order.
   */
  method DetectOctopusInVideo(env: Env, fps: real, hertz: real, duration: real, totalFrames: int,
                              available: nat, batchSize: int, preprocess: bool)
    returns (r: Result<KeyframeData, ScanError>, ghost batches: seq<seq<int>>)
    requires env.width > 0 && env.height > 0
    ensures hertz == 0.0 ==> r == Err(ZeroHertz)
    ensures hertz != 0.0 ==>
      var interval := Trunc(fps / hertz);
      var maxFrames := Trunc(fps * duration);
      var n := FramesRead(maxFrames, available);
      && (interval == 0 && n > 0 ==> r == Err(ZeroFrameInterval))
      && (!(interval == 0 && n > 0) && fps == 0.0 ==> r == Err(ZeroFps))
      && (r.Ok? <==> !(interval == 0 && n > 0) && fps != 0.0)
      && (r.Ok? ==>
            var fs := KeyframeNumbers(n, interval, maxFrames, totalFrames);
            var scanned := ScannedKeyframes(env, fps, fs);
            && r.value.framesProcessed == n
            && r.value.durationProcessed == Seconds(n, fps)
            && r.value.totalKeyframes == |scanned|
            && r.value.keyframes == (if preprocess then Keyframes.Preprocessed(scanned) else scanned)
            && r.value.totalLeftDetections == DetectionTotal(env, fs, Left)
            && r.value.totalRightDetections == DetectionTotal(env, fs, Right)
            && Flatten(batches) == fs
            && WellBatched(batches, batchSize, interval, maxFrames))
  {
    if hertz == 0.0 {
      return Err(ZeroHertz), [];
    }
    var interval := Trunc(fps / hertz);
    var maxFrames := Trunc(fps * duration);
    BudgetNeedsFps(fps, duration);
    var ok, keyframes, totalLeft, totalRight, frameCount;
    ok, keyframes, totalLeft, totalRight, frameCount, batches :=
      ScanFrames(env, fps, interval, maxFrames, totalFrames, available, batchSize);
    if !ok {
      return Err(ZeroFrameInterval), batches;
    }
    if fps == 0.0 {
      return Err(ZeroFps), batches;
    }
    var data := Summarise(env, fps, keyframes, frameCount, totalLeft, totalRight, preprocess,
                          KeyframeNumbers(frameCount, interval, maxFrames, totalFrames));
    r := Ok(data);
  }

  /** With `fps == 0` the frame budget `int(fps * duration)` is zero. */
  lemma BudgetNeedsFps(fps: real, duration: real)
    ensures Trunc(fps * duration) > 0 ==> fps != 0.0
  {
    if fps == 0.0 {
      assert fps * duration == 0.0;
    }
  }

  /** The final statistics and the optional cleanup, from the scanned table. */
  method Summarise(env: Env, fps: real, keyframes: map<int, Keyframe>, frameCount: int,
                   totalLeft: int, totalRight: int, preprocess: bool, ghost fs: seq<int>)
    returns (data: KeyframeData)
    requires env.width > 0 && env.height > 0 && fps != 0.0
    requires RecordsOf(keyframes, env, fps, fs)
    ensures var scanned := ScannedKeyframes(env, fps, fs);
      && data.keyframes == (if preprocess then Keyframes.Preprocessed(scanned) else scanned)
      && data.framesProcessed == frameCount
      && data.durationProcessed == Seconds(frameCount, fps)
      && data.totalKeyframes == |scanned|
      && data.totalLeftDetections == totalLeft && data.totalRightDetections == totalRight
  {
    var videoDuration := Seconds(frameCount, fps);
    RecordsAreScanned(keyframes, env, fps, fs);
    var table := keyframes;
    if preprocess {
      table := Preprocess.PreprocessKeyframes(keyframes);
    }
    data := KeyframeData(table, frameCount, videoDuration, |keyframes|, totalLeft, totalRight);
  }

  /** One flush of the buffer, carrying the loop's table and totals forward. */
  method Flush(env: Env, fps: real, keyframes: map<int, Keyframe>, totalLeft: int, totalRight: int,
               ghost batches: seq<seq<int>>, pending: seq<int>)
    returns (keyframes': map<int, Keyframe>, totalLeft': int, totalRight': int)
    requires env.width > 0 && env.height > 0 && fps != 0.0
    requires RecordsOf(keyframes, env, fps, Flatten(batches))
    requires totalLeft == DetectionTotal(env, Flatten(batches), Left)
    requires totalRight == DetectionTotal(env, Flatten(batches), Right)
    ensures RecordsOf(keyframes', env, fps, Flatten(batches) + pending)
    ensures totalLeft' == DetectionTotal(env, Flatten(batches) + pending, Left)
    ensures totalRight' == DetectionTotal(env, Flatten(batches) + pending, Right)
  {
    keyframes', totalLeft', totalRight' := StoreBatch(env, fps, pending, keyframes, totalLeft, totalRight);
    DetectionTotalAppend(env, Flatten(batches), pending, Left);
    DetectionTotalAppend(env, Flatten(batches), pending, Right);
  }

  // ---------------------------------------------------------------------
  // What the loop promises about the stored keyframes and the batches.

  /**
   * The keyframes are exactly the frames read that pass the keyframe test,
   * in strictly ascending order, so no frame is stored twice.
   */
  lemma {:induction false} KeyframeNumbersSpec(n: nat, interval: int, maxFrames: int, totalFrames: int)
    ensures forall f :: f in KeyframeNumbers(n, interval, maxFrames, totalFrames) <==>
      0 <= f < n && IsKeyframe(f, interval, maxFrames, totalFrames)
    ensures Preprocess.Increasing(KeyframeNumbers(n, interval, maxFrames, totalFrames))
  {
    if n > 0 {
      var earlier := KeyframeNumbers(n - 1, interval, maxFrames, totalFrames);
      KeyframeNumbersSpec(n - 1, interval, maxFrames, totalFrames);
      if IsKeyframe(n - 1, interval, maxFrames, totalFrames) {
        var fs := earlier + [n - 1];
        forall i, j | 0 <= i < j < |fs|
          ensures fs[i] < fs[j]
        {
          assert fs[i] == earlier[i] && earlier[i] in earlier;
          if j < |earlier| {
            assert fs[j] == earlier[j];
          }
        }
      }
    }
  }

  /** A strictly ascending list has as many distinct members as entries. */
  lemma {:induction false} DistinctCount(fs: seq<int>)
    requires Preprocess.Increasing(fs)
    ensures |set f | f in fs| == |fs|
  {
    if fs != [] {
      var init := fs[..|fs| - 1];
      DistinctCount(init);
      assert (set f | f in fs) == (set f | f in init) + {fs[|fs| - 1]};
      assert fs[|fs| - 1] !in init;
    }
  }

  /** The stored table is keyed by exactly the keyframes. */
  lemma ScannedKeys(env: Env, fps: real, n: nat, interval: int, maxFrames: int, totalFrames: int)
    requires env.width > 0 && env.height > 0 && fps != 0.0
    ensures forall f :: f in ScannedKeyframes(env, fps, KeyframeNumbers(n, interval, maxFrames, totalFrames)) <==>
      0 <= f < n && IsKeyframe(f, interval, maxFrames, totalFrames)
  {
    KeyframeNumbersSpec(n, interval, maxFrames, totalFrames);
  }

  /**
   * Each stored record carries its timestamp, both detection lists and flags
   * agreeing with the lists.
   */
  lemma ScannedRecords(env: Env, fps: real, fs: seq<int>)
    requires env.width > 0 && env.height > 0 && fps != 0.0
    ensures var table := ScannedKeyframes(env, fps, fs);
      forall f :: f in table ==>
        && table[f].timestamp * fps == f as real
        && SummariesConsistent(table[f])
        && table[f].leftDetections == HalfDetections(env, f, Left)
        && table[f].rightDetections == HalfDetections(env, f, Right)
  {
    var table := ScannedKeyframes(env, fps, fs);
    forall f | f in table
      ensures table[f].timestamp * fps == f as real && SummariesConsistent(table[f])
      ensures table[f].leftDetections == HalfDetections(env, f, Left)
      ensures table[f].rightDetections == HalfDetections(env, f, Right)
    {
      var record := FrameRecord(env, fps, f);
      assert table[f] == record;
      assert Dets(record, Left) == record.leftDetections && Dets(record, Right) == record.rightDetections;
    }
  }

  /** The table has one entry per keyframe: `total_keyframes` counts the keyframes. */
  lemma ScannedSize(env: Env, fps: real, n: nat, interval: int, maxFrames: int, totalFrames: int)
    requires env.width > 0 && env.height > 0 && fps != 0.0
    ensures |ScannedKeyframes(env, fps, KeyframeNumbers(n, interval, maxFrames, totalFrames))|
      == |KeyframeNumbers(n, interval, maxFrames, totalFrames)|
  {
    var fs := KeyframeNumbers(n, interval, maxFrames, totalFrames);
    KeyframeNumbersSpec(n, interval, maxFrames, totalFrames);
    DistinctCount(fs);
    assert ScannedKeyframes(env, fps, fs).Keys == set f | f in fs;
  }

  /**
   * The first frame read is always a keyframe, and so are the frame before
   * `max_frames` and the last frame of the video whenever the loop reads them.
   */
  lemma EndpointsSampled(n: nat, interval: int, maxFrames: int, totalFrames: int)
    requires interval != 0
    ensures n > 0 ==> 0 in KeyframeNumbers(n, interval, maxFrames, totalFrames)
    ensures 0 < maxFrames <= n ==> maxFrames - 1 in KeyframeNumbers(n, interval, maxFrames, totalFrames)
    ensures 0 < totalFrames <= n ==> totalFrames - 1 in KeyframeNumbers(n, interval, maxFrames, totalFrames)
  {
    KeyframeNumbersSpec(n, interval, maxFrames, totalFrames);
  }

  /** Every frame read is less than one interval after some keyframe. */
  lemma SamplingGap(n: nat, interval: int, maxFrames: int, totalFrames: int, f: int)
    requires interval > 0 && 0 <= f < n
    ensures exists k :: k in KeyframeNumbers(n, interval, maxFrames, totalFrames) && f - interval < k <= f
  {
    KeyframeNumbersSpec(n, interval, maxFrames, totalFrames);
    var k := RoundDown(f, interval);
    assert IsKeyframe(k, interval, maxFrames, totalFrames);
    assert k in KeyframeNumbers(n, interval, maxFrames, totalFrames);
  }

  /** The greatest multiple of `d` not above `f`. */
  lemma RoundDown(f: int, d: int) returns (k: int)
    requires f >= 0 && d > 0
    ensures 0 <= k <= f && f - d < k && k % d == 0
  {
    k := f - f % d;
    var q := f / d;
    assert f == d * q + f % d;
    Tank.MulCancel(d, -1, q);
    assert d * -1 == -d;
    ModOfMultiple(k, d, q);
  }

  /** A multiple of a positive divisor leaves remainder zero. */
  lemma ModOfMultiple(a: int, d: int, q: int)
    requires d > 0 && a == d * q
    ensures a % d == 0
  {
    var q0, r0 := a / d, a % d;
    assert d * (q - q0) == d * q - d * q0;
    Tank.MulCancel(d, q - q0, 1);
    Tank.MulCancel(d, -1, q - q0);
  }

  /** With a positive batch size no batch is longer than the batch size. */
  lemma BatchesBounded(batches: seq<seq<int>>, batchSize: int, interval: int, maxFrames: int)
    requires batchSize > 0 && WellBatched(batches, batchSize, interval, maxFrames)
    ensures forall i :: 0 <= i < |batches| ==> 0 < |batches[i]| <= batchSize
  {
    forall i | 0 <= i < |batches|
      ensures 0 < |batches[i]| <= batchSize
    {
      var b := batches[i];
      var k := if batchSize < |b| then batchSize - 1 else 0;
      assert k < |b| - 1 ==> !FlushDue(k + 1, b[k], batchSize, interval, maxFrames);
    }
  }

  /**
   * Every batch before the last is full, or ends with a frame within one
   * interval of `max_frames`. This only unfolds the third conjunct of
   * WellBatched, stated on its own for readers of ScanFrames' contract.
   */
  lemma EarlyBatchesFull(batches: seq<seq<int>>, batchSize: int, interval: int, maxFrames: int)
    requires WellBatched(batches, batchSize, interval, maxFrames)
    ensures forall i :: 0 <= i < |batches| - 1 ==>
      |batches[i]| == batchSize || batches[i][|batches[i]| - 1] + interval >= maxFrames
  {}
}
