/**
 * Keyframe records and the specification of `preprocess_keyframes`
 * (detect_with_yolo.py): for each side, every multi-detection list that
 * follows a single-detection keyframe is reduced to the one detection that
 * best matches the most recent single detection.
 */
module Keyframes {
  import opened Geometry
  import IntSets

  datatype Side = Left | Right

  /** One detector hit, in full-frame normalised coordinates. */
  datatype Detection = Detection(box: Box, confidence: real, side: Side)

  /** The record stored for one keyframe (`timestamp`, both lists, both `has_*_octopus` flags). */
  datatype Keyframe = Keyframe(
    timestamp: real,
    leftDetections: seq<Detection>,
    rightDetections: seq<Detection>,
    hasLeftOctopus: bool,
    hasRightOctopus: bool)

  function Dets(kf: Keyframe, side: Side): seq<Detection> {
    match side
    case Left => kf.leftDetections
    case Right => kf.rightDetections
  }

  /** `kf` with the detection list of `side` replaced; every other field is kept. */
  function WithDets(kf: Keyframe, side: Side, d: seq<Detection>): (r: Keyframe)
    ensures Dets(r, side) == d
    ensures Dets(r, Other(side)) == Dets(kf, Other(side))
    ensures r.timestamp == kf.timestamp
    ensures r.hasLeftOctopus == kf.hasLeftOctopus && r.hasRightOctopus == kf.hasRightOctopus
  {
    match side
    case Left => kf.(leftDetections := d)
    case Right => kf.(rightDetections := d)
  }

  /** Replacing a list twice is replacing it once with the second value. */
  lemma WithDetsTwice(kf: Keyframe, side: Side, d: seq<Detection>, d': seq<Detection>)
    ensures WithDets(WithDets(kf, side, d), side, d') == WithDets(kf, side, d')
  {}

  function Other(side: Side): Side {
    match side
    case Left => Right
    case Right => Left
  }

  /** Each `has_*_octopus` flag equals the non-emptiness of its list. */
  predicate SummariesConsistent(kf: Keyframe) {
    kf.hasLeftOctopus == (|kf.leftDetections| > 0) && kf.hasRightOctopus == (|kf.rightDetections| > 0)
  }

  // ---------------------------------------------------------------------
  // The best match: the first detection of greatest IoU with a reference.

  /**
   * Index `i` holds a detection of greatest IoU against `ref`, and every
   * earlier index has strictly smaller IoU (the first maximum wins).
   */
  ghost predicate IsFirstBest(ref: Box, dets: seq<Detection>, i: int) {
    && 0 <= i < |dets|
    && (forall j :: 0 <= j < |dets| ==> Iou(ref, dets[j].box) <= Iou(ref, dets[i].box))
    && (forall j :: 0 <= j < i ==> Iou(ref, dets[j].box) < Iou(ref, dets[i].box))
  }

  lemma FirstBestUnique(ref: Box, dets: seq<Detection>, i: int, i': int)
    requires IsFirstBest(ref, dets, i) && IsFirstBest(ref, dets, i')
    ensures i == i'
  {
    assert Iou(ref, dets[i].box) == Iou(ref, dets[i'].box);
  }

  /** Every non-empty list has a first best match. */
  lemma {:induction false} FirstBestExists(ref: Box, dets: seq<Detection>)
    requires dets != []
    ensures exists i :: IsFirstBest(ref, dets, i)
  {
    if |dets| == 1 {
      assert IsFirstBest(ref, dets, 0);
    } else {
      var init := dets[..|dets| - 1];
      FirstBestExists(ref, init);
      var i :| IsFirstBest(ref, init, i);
      var last := |dets| - 1;
      if Iou(ref, dets[last].box) > Iou(ref, dets[i].box) {
        assert IsFirstBest(ref, dets, last) by {
          forall j | 0 <= j < last ensures Iou(ref, dets[j].box) < Iou(ref, dets[last].box) {
            assert dets[j] == init[j];
          }
        }
      } else {
        assert IsFirstBest(ref, dets, i) by {
          forall j | 0 <= j < |dets| ensures Iou(ref, dets[j].box) <= Iou(ref, dets[i].box) {
            if j < last { assert dets[j] == init[j]; }
          }
          forall j | 0 <= j < i ensures Iou(ref, dets[j].box) < Iou(ref, dets[i].box) {
            assert dets[j] == init[j];
          }
        }
      }
    }
  }

  ghost function FirstBestIndex(ref: Box, dets: seq<Detection>): (i: nat)
    requires dets != []
    ensures IsFirstBest(ref, dets, i)
  {
    FirstBestExists(ref, dets);
    var i :| IsFirstBest(ref, dets, i);
    i
  }

  // ---------------------------------------------------------------------
  // The reference detection: the most recent earlier single detection.

  predicate IsSingle(m: map<int, Keyframe>, side: Side, j: int) {
    j in m && |Dets(m[j], side)| == 1
  }

  /**
   * `j` is the greatest key below `k` whose `side` list in the INPUT has
   * exactly one detection; lists reduced by the cleanup never serve here.
   */
  ghost predicate IsLastSingle(m: map<int, Keyframe>, side: Side, k: int, j: int) {
    && IsSingle(m, side, j)
    && j < k
    && (forall j' :: j < j' < k && j' in m ==> |Dets(m[j'], side)| != 1)
  }

  lemma LastSingleUnique(m: map<int, Keyframe>, side: Side, k: int, j: int, j': int)
    requires IsLastSingle(m, side, k, j) && IsLastSingle(m, side, k, j')
    ensures j == j'
  {}

  /** Whenever some earlier single detection exists, a most recent one exists. */
  lemma LastSingleExists(m: map<int, Keyframe>, side: Side, k: int, j0: int)
    requires IsSingle(m, side, j0) && j0 < k
    ensures exists j :: IsLastSingle(m, side, k, j)
  {
    var candidates := set j | j in m && j < k && |Dets(m[j], side)| == 1;
    assert j0 in candidates;
    var j := IntSets.MaxOf(candidates);
    forall j' | j < j' < k && j' in m ensures |Dets(m[j'], side)| != 1 {
      assert |Dets(m[j'], side)| == 1 ==> j' in candidates;
    }
    assert IsLastSingle(m, side, k, j);
  }

  // ---------------------------------------------------------------------
  // What the cleanup computes, key by key.

  /**
   * The `side` list of keyframe `k` after cleanup: a list with more than one
   * detection that has an earlier single detection is replaced by the one
   * detection best matching the most recent single; anything else is kept.
   */
  ghost function CleanedList(m: map<int, Keyframe>, side: Side, k: int): seq<Detection>
    requires k in m
  {
    var dets := Dets(m[k], side);
    if |dets| > 1 && exists j :: IsLastSingle(m, side, k, j) then
      var j :| IsLastSingle(m, side, k, j);
      [dets[FirstBestIndex(Dets(m[j], side)[0].box, dets)]]
    else
      dets
  }

  /** Keyframe `k` with the lists of the sides in `done` cleaned and the rest as in `m`. */
  ghost function CleanedOn(m: map<int, Keyframe>, k: int, done: set<Side>): Keyframe
    requires k in m
  {
    m[k].(
      leftDetections := if Left in done then CleanedList(m, Left, k) else m[k].leftDetections,
      rightDetections := if Right in done then CleanedList(m, Right, k) else m[k].rightDetections)
  }

  /** The whole result of the cleanup. */
  ghost function Preprocessed(m: map<int, Keyframe>): map<int, Keyframe> {
    map k | k in m :: CleanedOn(m, k, {Left, Right})
  }

  lemma CleanedOnChoose(m: map<int, Keyframe>, k: int, done: set<Side>, side: Side)
    requires k in m
    ensures Dets(CleanedOn(m, k, done), side) == if side in done then CleanedList(m, side, k) else Dets(m[k], side)
  {}

  /** Cleaning a side whose list the cleanup keeps changes nothing. */
  lemma CleanedOnKeep(m: map<int, Keyframe>, k: int, done: set<Side>, side: Side)
    requires k in m && CleanedList(m, side, k) == Dets(m[k], side)
    ensures CleanedOn(m, k, done + {side}) == CleanedOn(m, k, done)
  {}

  /** Cleaning one more side replaces exactly that side's list. */
  lemma CleanedOnAdd(m: map<int, Keyframe>, k: int, done: set<Side>, side: Side)
    requires k in m && side !in done
    ensures CleanedOn(m, k, done + {side}) == WithDets(CleanedOn(m, k, done), side, CleanedList(m, side, k))
  {}

  // ---------------------------------------------------------------------
  // Properties of the cleanup.

  /** A list of 0 or 1 detections is never changed. */
  lemma ShortListUnchanged(m: map<int, Keyframe>, side: Side, k: int)
    requires k in m && |Dets(m[k], side)| <= 1
    ensures CleanedList(m, side, k) == Dets(m[k], side)
  {}

  /** With no earlier single detection on that side, a list is never changed. */
  lemma NoEarlierSingleUnchanged(m: map<int, Keyframe>, side: Side, k: int)
    requires k in m
    requires forall j :: j in m && j < k ==> |Dets(m[j], side)| != 1
    ensures CleanedList(m, side, k) == Dets(m[k], side)
  {
    assert !exists j :: IsLastSingle(m, side, k, j);
  }

  /**
   * A multi-detection list after the single detection of keyframe `j`
   * (the most recent one) becomes the one-element list of its first best match.
   */
  lemma ReducedToBestMatch(m: map<int, Keyframe>, side: Side, k: int, j: int)
    requires k in m && |Dets(m[k], side)| > 1 && IsLastSingle(m, side, k, j)
    ensures CleanedList(m, side, k) == [Dets(m[k], side)[FirstBestIndex(Dets(m[j], side)[0].box, Dets(m[k], side))]]
  {
    var j' :| IsLastSingle(m, side, k, j') && CleanedList(m, side, k) == [Dets(m[k], side)[FirstBestIndex(Dets(m[j'], side)[0].box, Dets(m[k], side))]];
    LastSingleUnique(m, side, k, j, j');
  }

  /**
   * The same, spelled out: when an earlier single detection exists, the
   * cleaned list holds exactly one detection, taken from the original list,
   * of greatest IoU against the most recent single detection, and no earlier
   * detection of the original list ties with it.
   */
  lemma ReducedIsFirstBest(m: map<int, Keyframe>, side: Side, k: int, j0: int)
    requires k in m && |Dets(m[k], side)| > 1 && IsSingle(m, side, j0) && j0 < k
    ensures exists j, i ::
      && IsLastSingle(m, side, k, j)
      && IsFirstBest(Dets(m[j], side)[0].box, Dets(m[k], side), i)
      && CleanedList(m, side, k) == [Dets(m[k], side)[i]]
  {
    LastSingleExists(m, side, k, j0);
    var j :| IsLastSingle(m, side, k, j);
    ReducedToBestMatch(m, side, k, j);
    var i := FirstBestIndex(Dets(m[j], side)[0].box, Dets(m[k], side));
    assert IsFirstBest(Dets(m[j], side)[0].box, Dets(m[k], side), i);
  }

  /** Cleanup never empties a list, never fills one, never grows one, and only keeps original detections. */
  lemma CleanedListShape(m: map<int, Keyframe>, side: Side, k: int)
    requires k in m
    ensures var d, r := Dets(m[k], side), CleanedList(m, side, k);
      && (|r| > 0 <==> |d| > 0)
      && |r| <= |d|
      && forall x :: x in r ==> x in d
  {}

  /** The result has exactly the input's keys, and only the two lists can differ from the input. */
  lemma PreprocessedFrame(m: map<int, Keyframe>)
    ensures Preprocessed(m).Keys == m.Keys
    ensures forall k :: k in m ==>
      && Preprocessed(m)[k].timestamp == m[k].timestamp
      && Preprocessed(m)[k].hasLeftOctopus == m[k].hasLeftOctopus
      && Preprocessed(m)[k].hasRightOctopus == m[k].hasRightOctopus
      && Preprocessed(m)[k].leftDetections == CleanedList(m, Left, k)
      && Preprocessed(m)[k].rightDetections == CleanedList(m, Right, k)
  {}

  /**
   * The `has_*_octopus` flags are not recomputed by the cleanup, and need not
   * be: a record whose flags matched its lists still matches after cleanup.
   */
  lemma PreprocessedKeepsSummaries(m: map<int, Keyframe>)
    requires forall k :: k in m ==> SummariesConsistent(m[k])
    ensures forall k :: k in Preprocessed(m) ==> SummariesConsistent(Preprocessed(m)[k])
  {
    forall k | k in m ensures SummariesConsistent(Preprocessed(m)[k]) {
      CleanedListShape(m, Left, k);
      CleanedListShape(m, Right, k);
    }
  }

  /** Each side is cleaned on its own: a side's result depends only on that side's lists. */
  lemma SidesIndependent(m: map<int, Keyframe>, m': map<int, Keyframe>, side: Side, k: int)
    requires m.Keys == m'.Keys && k in m
    requires forall j :: j in m ==> Dets(m[j], side) == Dets(m'[j], side)
    ensures CleanedList(m, side, k) == CleanedList(m', side, k)
  {
    assert forall j :: IsLastSingle(m, side, k, j) <==> IsLastSingle(m', side, k, j);
    if |Dets(m[k], side)| > 1 && exists j :: IsLastSingle(m, side, k, j) {
      var j :| IsLastSingle(m, side, k, j);
      ReducedToBestMatch(m, side, k, j);
      ReducedToBestMatch(m', side, k, j);
    }
  }

  /** Cleaning an already cleaned table changes nothing. */
  lemma PreprocessIdempotent(m: map<int, Keyframe>)
    ensures Preprocessed(Preprocessed(m)) == Preprocessed(m)
  {
    var p := Preprocessed(m);
    PreprocessedFrame(m);
    forall k | k in p ensures CleanedOn(p, k, {Left, Right}) == p[k] {
      CleanedFixed(m, Left, k);
      CleanedFixed(m, Right, k);
    }
  }

  /** A cleaned list is left as it is by a second cleanup. */
  lemma CleanedFixed(m: map<int, Keyframe>, side: Side, k: int)
    requires k in m
    ensures k in Preprocessed(m)
    ensures CleanedList(Preprocessed(m), side, k) == Dets(Preprocessed(m)[k], side)
  {
    var p := Preprocessed(m);
    PreprocessedFrame(m);
    assert Dets(p[k], side) == CleanedList(m, side, k);
    if |Dets(p[k], side)| > 1 {
      // The list survived the first cleanup, so no single detection precedes it in m ...
      if exists j :: IsLastSingle(m, side, k, j) {
        assert false;
      }
      assert Dets(p[k], side) == Dets(m[k], side);
      // ... and then none precedes it in the cleaned table either.
      forall j | j in p && j < k ensures |Dets(p[j], side)| != 1 {
        if |Dets(m[j], side)| == 1 {
          LastSingleExists(m, side, k, j);
          assert false;
        } else if |Dets(m[j], side)| > 1 && exists j0 :: IsLastSingle(m, side, j, j0) {
          var j0 :| IsLastSingle(m, side, j, j0);
          LastSingleExists(m, side, k, j0);
          assert false;
        }
      }
      NoEarlierSingleUnchanged(p, side, k);
    }
  }
}
