/**
 * `preprocess_keyframes` (detect_with_yolo.py) as the source runs it: for
 * each side, a scan over the frame indices in ascending order that keeps the
 * most recent single detection and fills a fresh output table, followed by a
 * pass that copies over the keyframes neither side touched.
 */
module Preprocess {
  import opened Options
  import opened Geometry
  import opened Keyframes
  import IntSets

  predicate Increasing(s: seq<int>) {
    forall i, j :: 0 <= i < j < |s| ==> s[i] < s[j]
  }

  /** `sorted([int(k) for k in keyframes.keys()])`: the keys in strictly ascending order. */
  method SortedFrameIndices(keys: set<int>) returns (sorted: seq<int>)
    ensures Increasing(sorted)
    ensures forall k :: k in sorted <==> k in keys
  {
    sorted := [];
    var rest := keys;
    while rest != {}
      invariant Increasing(sorted)
      invariant forall k :: k in keys <==> k in sorted || k in rest
      invariant forall i, k :: 0 <= i < |sorted| && k in rest ==> sorted[i] < k
      decreases |rest|
    {
      ghost var least := IntSets.MinOf(rest);
      var x :| x in rest && forall y :: y in rest ==> x <= y;
      sorted := sorted + [x];
      rest := rest - {x};
    }
  }

  /**
   * The inner loop of the cleanup: the first detection of greatest IoU with
   * `ref`, starting from `best_iou = -1` and replacing only on a strictly
   * greater IoU. `None` only for an empty list.
   */
  method SelectBest(ref: Detection, dets: seq<Detection>) returns (best: Option<Detection>)
    ensures dets == [] ==> best == None
    ensures dets != [] ==> best == Some(dets[FirstBestIndex(ref.box, dets)])
  {
    best := None;
    var bestIou := -1.0;
    ghost var bestAt := -1;
    for i := 0 to |dets|
      invariant i == 0 ==> best == None && bestIou == -1.0
      invariant i > 0 ==> 0 <= bestAt < i && best == Some(dets[bestAt])
      invariant i > 0 ==> bestIou == Iou(ref.box, dets[bestAt].box) && IsFirstBest(ref.box, dets[..i], bestAt)
    {
      var iou := Iou(ref.box, dets[i].box);
      if iou > bestIou {
        bestIou := iou;
        best := Some(dets[i]);
        bestAt := i;
      }
      assert forall j :: 0 <= j <= i ==> dets[..i + 1][j] == dets[j];
    }
    if dets != [] {
      assert dets[..|dets|] == dets;
      FirstBestUnique(ref.box, dets, bestAt, FirstBestIndex(ref.box, dets));
    }
  }

  /**
   * What the scan knows about the reference at position `i`: `keys[p]` is the
   * most recent single detection before `keys[i]`, or (p = -1) there is none.
   */
  lemma ScanReference(m: map<int, Keyframe>, keys: seq<int>, side: Side, i: int, p: int)
    requires Increasing(keys) && forall k :: k in keys <==> k in m
    requires 0 <= i < |keys| && -1 <= p < i
    requires p >= 0 ==> IsSingle(m, side, keys[p])
    requires forall t :: p < t < i ==> keys[t] in m && |Dets(m[keys[t]], side)| != 1
    ensures p >= 0 ==> IsLastSingle(m, side, keys[i], keys[p])
    ensures p < 0 ==> forall j :: j in m && j < keys[i] ==> |Dets(m[j], side)| != 1
  {
    forall j | j in m && (p >= 0 ==> keys[p] < j) && j < keys[i]
      ensures |Dets(m[j], side)| != 1
    {
      var t :| 0 <= t < |keys| && keys[t] == j;
      assert p < t < i;
    }
  }

  /**
   * The output table part-way through the pass for `side`: keyframes in
   * `seen` have been visited; exactly the visited ones whose `side` list does
   * not hold one detection were added; every entry is the input keyframe with
   * the sides cleaned so far; and a keyframe earlier passes did not store is
   * unchanged by them.
   */
  ghost predicate TableInv(m: map<int, Keyframe>, processed0: map<int, Keyframe>, processed: map<int, Keyframe>,
                           seen: set<int>, side: Side, done: set<Side>)
  {
    && seen <= m.Keys
    && (forall k :: k in processed <==> k in processed0 || (k in seen && |Dets(m[k], side)| != 1))
    && (forall k :: k in processed ==>
          k in m && processed[k] == CleanedOn(m, k, if k in seen then done + {side} else done))
    && (forall k :: k in m && k !in processed0 ==> CleanedOn(m, k, done) == m[k])
  }

  /** Visiting `k` and storing its cleaned record. */
  lemma TableStore(m: map<int, Keyframe>, processed0: map<int, Keyframe>, processed: map<int, Keyframe>,
                   seen: set<int>, side: Side, done: set<Side>, k: int)
    requires TableInv(m, processed0, processed, seen, side, done)
    requires k in m && k !in seen && |Dets(m[k], side)| != 1
    ensures TableInv(m, processed0, processed[k := CleanedOn(m, k, done + {side})], seen + {k}, side, done)
  {}

  /** Visiting `k` without touching the table, which is right when its list is kept. */
  lemma TableSkip(m: map<int, Keyframe>, processed0: map<int, Keyframe>, processed: map<int, Keyframe>,
                  seen: set<int>, side: Side, done: set<Side>, k: int)
    requires TableInv(m, processed0, processed, seen, side, done)
    requires k in m && k !in seen && CleanedList(m, side, k) == Dets(m[k], side)
    requires k in processed <==> k in processed0 || |Dets(m[k], side)| != 1
    ensures TableInv(m, processed0, processed, seen + {k}, side, done)
  {
    CleanedOnKeep(m, k, done, side);
  }

  /** The record the reduction writes is the input keyframe with the sides cleaned so far, `side` included. */
  lemma ReducedRecord(m: map<int, Keyframe>, k: int, done: set<Side>, side: Side, base: Keyframe, best: Detection)
    requires k in m && side !in done && CleanedList(m, side, k) == [best]
    requires base == CleanedOn(m, k, done) || (base == WithDets(m[k], side, []) && CleanedOn(m, k, done) == m[k])
    ensures WithDets(base, side, [best]) == CleanedOn(m, k, done + {side})
  {
    CleanedOnAdd(m, k, done, side);
    WithDetsTwice(m[k], side, [], [best]);
  }

  /**
   * The reference of one side's pass after visiting `keys[..i]`: `last` is
   * the single detection of the most recent single-detection keyframe
   * `keys[lastAt]`, or none when `lastAt` is -1.
   */
  ghost predicate Reference(keyframes: map<int, Keyframe>, keys: seq<int>, side: Side, i: int,
                            last: Option<Detection>, lastAt: int)
    requires 0 <= i <= |keys|
  {
    && -1 <= lastAt < i
    && (lastAt < 0 ==> last == None)
    && (lastAt >= 0 ==> IsSingle(keyframes, side, keys[lastAt]) && last == Some(Dets(keyframes[keys[lastAt]], side)[0]))
    && (forall t :: lastAt < t < i ==> keys[t] in keyframes && |Dets(keyframes[keys[t]], side)| != 1)
  }

  /** `seen` holds exactly the keys visited so far. */
  ghost predicate Visited(keys: seq<int>, i: int, seen: set<int>)
    requires 0 <= i <= |keys|
  {
    (forall t :: 0 <= t < i ==> keys[t] in seen) && (forall t :: i <= t < |keys| ==> keys[t] !in seen)
  }

  lemma VisitedStep(keys: seq<int>, i: int, seen: set<int>)
    requires Increasing(keys) && 0 <= i < |keys| && Visited(keys, i, seen)
    ensures Visited(keys, i + 1, seen + {keys[i]})
  {}

  lemma ReferenceStep(keyframes: map<int, Keyframe>, keys: seq<int>, side: Side, i: int,
                      last: Option<Detection>, lastAt: int)
    requires 0 <= i < |keys| && keys[i] in keyframes && Reference(keyframes, keys, side, i, last, lastAt)
    ensures |Dets(keyframes[keys[i]], side)| == 1 ==>
      Reference(keyframes, keys, side, i + 1, Some(Dets(keyframes[keys[i]], side)[0]), i)
    ensures |Dets(keyframes[keys[i]], side)| != 1 ==> Reference(keyframes, keys, side, i + 1, last, lastAt)
  {}

  /**
   * Reducing the list of `k`, which has several detections and an earlier
   * single detection `last` at key `j`: the stored record gets the best match.
   */
  method ReduceKey(keyframes: map<int, Keyframe>, side: Side, processed0: map<int, Keyframe>, ghost done: set<Side>,
                   k: int, ghost j: int, last: Detection, processed: map<int, Keyframe>, ghost seen: set<int>)
    returns (processed': map<int, Keyframe>)
    requires k in keyframes && k !in seen && side !in done
    requires |Dets(keyframes[k], side)| > 1 && IsLastSingle(keyframes, side, k, j)
    requires last == Dets(keyframes[j], side)[0]
    requires TableInv(keyframes, processed0, processed, seen, side, done)
    ensures TableInv(keyframes, processed0, processed', seen + {k}, side, done)
  {
    var kf := keyframes[k];
    var best := SelectBest(last, Dets(kf, side));
    ReducedToBestMatch(keyframes, side, k, j);
    // The entry is a copy of the input keyframe with this side's list emptied,
    // unless an earlier pass already stored one; its list becomes [best].
    var base := if k in processed then processed[k] else WithDets(kf, side, []);
    assert Some(CleanedList(keyframes, side, k)[0]) == best;
    ReducedRecord(keyframes, k, done, side, base, best.value);
    TableStore(keyframes, processed0, processed, seen, side, done, k);
    processed' := processed[k := WithDets(base, side, if best.Some? then [best.value] else [])];
  }

  /** Visiting `k` whose list on `side` is kept: a copy enters the table unless it holds one detection. */
  method KeepKey(keyframes: map<int, Keyframe>, side: Side, processed0: map<int, Keyframe>, ghost done: set<Side>,
                 k: int, processed: map<int, Keyframe>, ghost seen: set<int>)
    returns (processed': map<int, Keyframe>)
    requires k in keyframes && k !in seen && side !in done
    requires CleanedList(keyframes, side, k) == Dets(keyframes[k], side)
    requires |Dets(keyframes[k], side)| == 1 ==> (k in processed <==> k in processed0)
    requires TableInv(keyframes, processed0, processed, seen, side, done)
    ensures TableInv(keyframes, processed0, processed', seen + {k}, side, done)
  {
    CleanedOnKeep(keyframes, k, done, side);
    if |Dets(keyframes[k], side)| != 1 && k !in processed {
      processed' := processed[k := keyframes[k]];
      TableStore(keyframes, processed0, processed, seen, side, done, k);
    } else {
      processed' := processed;
      TableSkip(keyframes, processed0, processed, seen, side, done, k);
    }
  }

  /** One iteration of a side's pass: visiting `keys[i]`. */
  method VisitKey(keyframes: map<int, Keyframe>, keys: seq<int>, side: Side,
                  processed0: map<int, Keyframe>, ghost done: set<Side>, i: int,
                  processed: map<int, Keyframe>, last: Option<Detection>, ghost lastAt: int, ghost seen: set<int>)
    returns (processed': map<int, Keyframe>, last': Option<Detection>, ghost lastAt': int, ghost seen': set<int>)
    requires Increasing(keys) && (forall k :: k in keys <==> k in keyframes) && side !in done
    requires 0 <= i < |keys|
    requires Reference(keyframes, keys, side, i, last, lastAt) && Visited(keys, i, seen)
    requires TableInv(keyframes, processed0, processed, seen, side, done)
    ensures Reference(keyframes, keys, side, i + 1, last', lastAt') && Visited(keys, i + 1, seen')
    ensures TableInv(keyframes, processed0, processed', seen', side, done)
  {
    var k := keys[i];
    var detections := Dets(keyframes[k], side);
    ScanReference(keyframes, keys, side, i, lastAt);
    ReferenceStep(keyframes, keys, side, i, last, lastAt);
    VisitedStep(keys, i, seen);
    seen' := seen + {k};
    if |detections| == 1 {
      last', lastAt' := Some(detections[0]), i;
      ShortListUnchanged(keyframes, side, k);
      processed' := KeepKey(keyframes, side, processed0, done, k, processed, seen);
    } else if |detections| > 1 && last.Some? {
      last', lastAt' := last, lastAt;
      processed' := ReduceKey(keyframes, side, processed0, done, k, keys[lastAt], last.value, processed, seen);
    } else {
      last', lastAt' := last, lastAt;
      if |detections| > 1 {
        NoEarlierSingleUnchanged(keyframes, side, k);
      } else {
        ShortListUnchanged(keyframes, side, k);
      }
      processed' := KeepKey(keyframes, side, processed0, done, k, processed, seen);
    }
  }

  /**
   * One side's pass (`for side in ['left', 'right']`, one iteration). The
   * sides in `done` were cleaned by earlier passes; afterwards `side` is too.
   * A keyframe enters the table unless its list on `side` holds exactly one
   * detection.
   */
  method CleanSide(keyframes: map<int, Keyframe>, keys: seq<int>, side: Side,
                   processed0: map<int, Keyframe>, ghost done: set<Side>)
    returns (processed: map<int, Keyframe>)
    requires Increasing(keys) && forall k :: k in keys <==> k in keyframes
    requires side !in done
    requires forall k :: k in processed0 ==> k in keyframes && processed0[k] == CleanedOn(keyframes, k, done)
    requires forall k :: k in keyframes && k !in processed0 ==> CleanedOn(keyframes, k, done) == keyframes[k]
    ensures forall k :: k in processed <==> k in processed0 || (k in keyframes && |Dets(keyframes[k], side)| != 1)
    ensures forall k :: k in processed ==> k in keyframes && processed[k] == CleanedOn(keyframes, k, done + {side})
    ensures forall k :: k in keyframes && k !in processed ==> CleanedOn(keyframes, k, done + {side}) == keyframes[k]
  {
    processed := processed0;
    var last: Option<Detection> := None;
    ghost var lastAt := -1;
    ghost var seen: set<int> := {};
    for i := 0 to |keys|
      invariant Reference(keyframes, keys, side, i, last, lastAt) && Visited(keys, i, seen)
      invariant TableInv(keyframes, processed0, processed, seen, side, done)
    {
      processed, last, lastAt, seen := VisitKey(keyframes, keys, side, processed0, done, i, processed, last, lastAt, seen);
    }
    forall k | k in keyframes ensures k in seen {
      var t :| 0 <= t < |keys| && keys[t] == k;
    }
    forall k | k in keyframes && k !in processed
      ensures CleanedOn(keyframes, k, done + {side}) == keyframes[k]
    {
      CleanedOnKeep(keyframes, k, done, side);
    }
  }

  /**
   * The closing loop of the cleanup: every keyframe neither pass stored is
   * carried over as it is.
   */
  method CopyUntouched(keyframes: map<int, Keyframe>, processed0: map<int, Keyframe>)
    returns (processed: map<int, Keyframe>)
    requires forall k :: k in processed0 ==> k in keyframes && processed0[k] == CleanedOn(keyframes, k, {Left, Right})
    requires forall k :: k in keyframes && k !in processed0 ==> CleanedOn(keyframes, k, {Left, Right}) == keyframes[k]
    ensures processed == Preprocessed(keyframes)
  {
    processed := processed0;
    var remaining := keyframes.Keys;
    while remaining != {}
      invariant remaining <= keyframes.Keys
      invariant forall k :: k in keyframes ==> k in processed || k in remaining
      invariant forall k :: k in processed ==> k in keyframes && processed[k] == CleanedOn(keyframes, k, {Left, Right})
      invariant forall k :: k in keyframes && k !in processed ==> CleanedOn(keyframes, k, {Left, Right}) == keyframes[k]
      decreases |remaining|
    {
      IntSets.HasElement(remaining);
      var k :| k in remaining;
      if k !in processed {
        processed := processed[k := keyframes[k]];
      }
      remaining := remaining - {k};
    }
    assert processed.Keys == keyframes.Keys by {
      forall k | k in keyframes ensures k in processed {
        assert k !in remaining;
      }
      forall k | k in processed ensures k in keyframes {
        assert processed[k] == CleanedOn(keyframes, k, {Left, Right});
      }
    }
    assert forall k :: k in processed ==> processed[k] == Preprocessed(keyframes)[k];
  }

  /** `preprocess_keyframes`: returns the cleaned table; the input is a value and stays as it was. */
  method PreprocessKeyframes(keyframes: map<int, Keyframe>) returns (processed: map<int, Keyframe>)
    ensures processed == Preprocessed(keyframes)
  {
    var keys := SortedFrameIndices(keyframes.Keys);
    ghost var none: set<Side> := {};
    assert none + {Left} == {Left} && {Left} + {Right} == {Left, Right};
    processed := CleanSide(keyframes, keys, Left, map[], none);
    processed := CleanSide(keyframes, keys, Right, processed, {Left});
    processed := CopyUntouched(keyframes, processed);
  }
}
