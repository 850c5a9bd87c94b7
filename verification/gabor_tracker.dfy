/**
 * `pipeline/gabor_tracker/gabor_tracker.py`: the min-max `normalize`, the conversion of
 * boxes and scores into tracker detections (`format_detections`), and the `GaborTracker`
 * object's own state: the 55-frame event window it shifts each tick, the temporal slice it
 * convolves, and the optional tile column-max suppression of the convolution output.
 */
module GaborTracker {
  import opened Common
  import opened FrameWindow
  import TileSuppression

  // ---------------------------------------------------------------------------------------
  // normalize

  /** `(v - lo) / (hi - lo)`: one value of a non-constant array rescaled. */
  function Rescale(v: real, lo: real, hi: real): real
    requires lo < hi
  {
    (v - lo) / (hi - lo)
  }

  /**
   * `normalize(x)` over the array's values in any fixed order (it is elementwise with a
   * global minimum and maximum, so the array's shape does not matter). numpy's `max` of an
   * empty array raises `ValueError`; a constant array becomes `x * 0`.
   */
  function Normalize(x: seq<real>): (r: Result<seq<real>>)
    ensures r.Ok? ==> |r.value| == |x|
  {
    if |x| == 0 then Err(ValueError)
    else if MaxOf(x) == MinOf(x) then Ok(seq(|x|, i => 0.0))
    else Ok(seq(|x|, i requires 0 <= i < |x| => Rescale(x[i], MinOf(x), MaxOf(x))))
  }

  /** A value between `lo` and `hi` rescales into [0, 1], to 0 exactly at `lo` and to 1 exactly at `hi`. */
  lemma RescaleUnit(v: real, lo: real, hi: real)
    requires lo <= v <= hi && lo < hi
    ensures 0.0 <= Rescale(v, lo, hi) <= 1.0
    ensures Rescale(v, lo, hi) == 0.0 <==> v == lo
    ensures Rescale(v, lo, hi) == 1.0 <==> v == hi
    ensures lo + Rescale(v, lo, hi) * (hi - lo) == v
  {
    var d := hi - lo;
    var q := Rescale(v, lo, hi);
    assert q * d == v - lo;
    assert (1.0 - q) * d == hi - v;
    ProductSign(q, d);
    ProductSign(1.0 - q, d);
  }

  /** Rescaling is strictly monotonic, so it keeps the order of any two values. */
  lemma RescaleMonotonic(a: real, b: real, lo: real, hi: real)
    requires lo < hi
    ensures a <= b <==> Rescale(a, lo, hi) <= Rescale(b, lo, hi)
  {
    var d := hi - lo;
    var qa, qb := Rescale(a, lo, hi), Rescale(b, lo, hi);
    assert qa * d == a - lo;
    assert qb * d == b - lo;
    assert (qb - qa) * d == b - a;
    ProductSign(qb - qa, d);
  }

  /** The values of a non-constant array, rescaled by its minimum and maximum. */
  lemma NormalizedAt(x: seq<real>, i: int)
    requires |x| > 0 && MaxOf(x) != MinOf(x) && 0 <= i < |x|
    ensures Normalize(x).value[i] == Rescale(x[i], MinOf(x), MaxOf(x))
    ensures MinOf(x) <= x[i] <= MaxOf(x) && MinOf(x) < MaxOf(x)
  {
  }

  /** One value of `normalize` of a non-constant array: in [0, 1], 0 at the minimum, 1 at the maximum. */
  lemma NormalizeValue(x: seq<real>, lo: real, hi: real, i: int)
    requires |x| > 0 && MaxOf(x) != MinOf(x) && 0 <= i < |x|
    requires lo == MinOf(x) && hi == MaxOf(x)
    ensures var r := Normalize(x).value[i];
            0.0 <= r <= 1.0 && (r == 0.0 <==> x[i] == lo) && (r == 1.0 <==> x[i] == hi)
  {
    NormalizedAt(x, i);
    RescaleUnit(x[i], lo, hi);
  }

  /**
   * `normalize` fails exactly on an empty array; a constant array becomes all zeros;
   * otherwise every value lands in [0, 1], exactly the minima map to 0 and the maxima to 1.
   */
  lemma NormalizeSpec(x: seq<real>)
    ensures Normalize(x).Err? <==> |x| == 0
    ensures |x| > 0 && MaxOf(x) == MinOf(x) ==>
              forall i :: 0 <= i < |x| ==> Normalize(x).value[i] == 0.0
    ensures |x| > 0 && MaxOf(x) != MinOf(x) ==>
              var lo, hi := MinOf(x), MaxOf(x);
              forall i :: 0 <= i < |x| ==>
                0.0 <= Normalize(x).value[i] <= 1.0 &&
                (Normalize(x).value[i] == 0.0 <==> x[i] == lo) &&
                (Normalize(x).value[i] == 1.0 <==> x[i] == hi)
  {
    if |x| > 0 && MaxOf(x) != MinOf(x) {
      var lo, hi := MinOf(x), MaxOf(x);
      forall i | 0 <= i < |x|
        ensures 0.0 <= Normalize(x).value[i] <= 1.0 &&
                (Normalize(x).value[i] == 0.0 <==> x[i] == lo) &&
                (Normalize(x).value[i] == 1.0 <==> x[i] == hi)
      {
        NormalizeValue(x, lo, hi, i);
      }
    }
  }

  /** `normalize` keeps the order of the values: `x[i] <= x[j]` exactly when `r[i] <= r[j]`. */
  lemma NormalizeMonotonic(x: seq<real>)
    ensures Normalize(x).Ok? ==>
              forall i, j :: 0 <= i < |x| && 0 <= j < |x| ==>
                (x[i] <= x[j] <==> Normalize(x).value[i] <= Normalize(x).value[j])
  {
    if |x| > 0 && MaxOf(x) != MinOf(x) {
      forall i, j | 0 <= i < |x| && 0 <= j < |x|
        ensures x[i] <= x[j] <==> Normalize(x).value[i] <= Normalize(x).value[j]
      {
        NormalizedAt(x, i);
        NormalizedAt(x, j);
        RescaleMonotonic(x[i], x[j], MinOf(x), MaxOf(x));
      }
    }
  }

  // ---------------------------------------------------------------------------------------
  // format_detections

  /**
   * `norfair.Detection(np.array([box[0:2], box[2:4]]), np.array([score, score]))`: the box's
   * two corners as points, each with the box's score.
   */
  datatype Detection = Detection(points: seq<seq<int>>, scores: seq<real>)

  function ToDetection(box: Box<int>, score: real): Detection {
    Detection([[box.xMin, box.yMin], [box.xMax, box.yMax]], [score, score])
  }

  /** The loop of `format_detections` over the first `n` pairs of `zip(boxes, scores)`. */
  function FormatPrefix(boxes: seq<Box<int>>, scores: seq<real>, n: nat): (ds: seq<Detection>)
    requires n <= |boxes| && n <= |scores|
    ensures |ds| <= n
  {
    if n == 0 then []
    else FormatPrefix(boxes, scores, n - 1) +
         (if scores[n - 1] > 0.0 then [ToDetection(boxes[n - 1], scores[n - 1])] else [])
  }

  /** Length of `zip(boxes, scores)`: the shorter of the two. */
  function ZipLength<A, B>(a: seq<A>, b: seq<B>): (n: nat)
    ensures n <= |a| && n <= |b| && (n == |a| || n == |b|)
  {
    if |a| <= |b| then |a| else |b|
  }

  /** `format_detections(boxes, scores)`. */
  function FormatDetections(boxes: seq<Box<int>>, scores: seq<real>): (ds: seq<Detection>)
    ensures |ds| <= |boxes| && |ds| <= |scores|
  {
    FormatPrefix(boxes, scores, ZipLength(boxes, scores))
  }

  /** The positions `i < n` whose score is positive, in increasing order. */
  function Kept(scores: seq<real>, n: nat): (ks: seq<nat>)
    requires n <= |scores|
    ensures |ks| <= n
    ensures forall j :: 0 <= j < |ks| ==> ks[j] < n && scores[ks[j]] > 0.0
  {
    if n == 0 then [] else Kept(scores, n - 1) + (if scores[n - 1] > 0.0 then [n - 1] else [])
  }

  lemma {:induction false} KeptSpec(scores: seq<real>, n: nat)
    requires n <= |scores|
    ensures forall i :: i in Kept(scores, n) <==> 0 <= i < n && scores[i] > 0.0
    ensures forall j, k :: 0 <= j < k < |Kept(scores, n)| ==> Kept(scores, n)[j] < Kept(scores, n)[k]
  {
    if n > 0 {
      KeptSpec(scores, n - 1);
      var prev := Kept(scores, n - 1);
      var ks := Kept(scores, n);
      forall j, k | 0 <= j < k < |ks|
        ensures ks[j] < ks[k]
      {
        if k >= |prev| {
          assert prev[j] in prev;
        }
      }
    }
  }

  lemma {:induction false} FormatPrefixSpec(boxes: seq<Box<int>>, scores: seq<real>, n: nat)
    requires n <= |boxes| && n <= |scores|
    ensures |FormatPrefix(boxes, scores, n)| == |Kept(scores, n)|
    ensures forall j :: 0 <= j < |Kept(scores, n)| ==>
              Kept(scores, n)[j] < n &&
              FormatPrefix(boxes, scores, n)[j] == ToDetection(boxes[Kept(scores, n)[j]], scores[Kept(scores, n)[j]])
  {
    if n > 0 {
      FormatPrefixSpec(boxes, scores, n - 1);
      var prev, ks := Kept(scores, n - 1), Kept(scores, n);
      var fs, ds := FormatPrefix(boxes, scores, n - 1), FormatPrefix(boxes, scores, n);
      forall j | 0 <= j < |ks|
        ensures ks[j] < n && ds[j] == ToDetection(boxes[ks[j]], scores[ks[j]])
      {
        if j < |prev| {
          assert ks[j] == prev[j] && ds[j] == fs[j];
        }
      }
    }
  }

  /**
   * `format_detections` keeps exactly the pairs of `zip(boxes, scores)` (which stops at the
   * shorter list) whose score is positive, in input order, each as its box's two corners and
   * the score twice; so every detection has a positive score, and when every score is
   * positive nothing is dropped.
   */
  lemma FormatDetectionsSpec(boxes: seq<Box<int>>, scores: seq<real>)
    ensures var ks, ds := Kept(scores, ZipLength(boxes, scores)), FormatDetections(boxes, scores);
            |ds| == |ks| &&
            (forall i :: i in ks <==> 0 <= i < ZipLength(boxes, scores) && scores[i] > 0.0) &&
            (forall j, k :: 0 <= j < k < |ks| ==> ks[j] < ks[k]) &&
            (forall j :: 0 <= j < |ks| ==> ks[j] < |boxes| && ks[j] < |scores| &&
                                           ds[j] == ToDetection(boxes[ks[j]], scores[ks[j]])) &&
            (forall j :: 0 <= j < |ds| ==> ds[j].scores[0] > 0.0 && ds[j].scores[0] == ds[j].scores[1])
    ensures (forall i :: 0 <= i < |scores| ==> scores[i] > 0.0) ==>
              |FormatDetections(boxes, scores)| == ZipLength(boxes, scores)
  {
    var n := ZipLength(boxes, scores);
    KeptSpec(scores, n);
    FormatPrefixSpec(boxes, scores, n);
    var ks := Kept(scores, n);
    forall j | 0 <= j < |ks|
      ensures scores[ks[j]] > 0.0
    {
      assert ks[j] in ks;
    }
    if forall i :: 0 <= i < |scores| ==> scores[i] > 0.0 {
      AllKept(scores, n);
    }
  }

  /** With every score positive, every position is kept. */
  lemma {:induction false} AllKept(scores: seq<real>, n: nat)
    requires n <= |scores|
    requires forall i :: 0 <= i < |scores| ==> scores[i] > 0.0
    ensures |Kept(scores, n)| == n
  {
    if n > 0 {
      AllKept(scores, n - 1);
    }
  }

  // ---------------------------------------------------------------------------------------
  // class GaborTracker

  /**
   * The tracker's own state. The filters, the norfair tracker, the thread pool and the
   * timing averages are not part of this model; `width` and `height` are the window's two
   * frame axes in the order `torch.zeros((55, width, height))` uses them.
   */
  class GaborTracker {
    var eventFrame: seq<Frame>
    const gaborThreshold: real
    const width: nat
    const height: nat
    const columnMax: bool
    const useFiltMax: bool

    /**
     * The window always holds `WindowDepth` frames of `width` x `height`, the shape
     * `torch.cat` needs to stack a new frame onto the others.
     */
    ghost predicate Valid()
      reads this
    {
      |eventFrame| == WindowDepth && AllGrids(eventFrame, width, height)
    }

    /** `__init__`: the window starts as 55 zero frames of `width` x `height`. */
    constructor(gaborThreshold: real, width: nat, height: nat, columnMax: bool, useFiltMax: bool)
      ensures Valid()
      ensures eventFrame == ZeroWindow(width, height)
      ensures this.gaborThreshold == gaborThreshold && this.width == width && this.height == height
      ensures this.columnMax == columnMax && this.useFiltMax == useFiltMax
    {
      eventFrame := ZeroWindow(width, height);
      AllGridsAt(ZeroWindow(width, height), width, height);
      this.gaborThreshold := gaborThreshold;
      this.width := width;
      this.height := height;
      this.columnMax := columnMax;
      this.useFiltMax := useFiltMax;
    }

    /**
     * The window bookkeeping of `update`: push the new frame, then return the frames the
     * convolution reads, `event_frame[24:31]` for the only interval used, 1. The window
     * keeps its 55 frames, the new frame is at index 0 and every other frame moved one back.
     */
    method Update(currFrame: Frame) returns (slice: seq<Frame>)
      requires Valid() && IsGrid(currFrame, width, height)
      modifies this
      ensures Valid()
      ensures eventFrame == Push(old(eventFrame), currFrame)
      ensures eventFrame[0] == currFrame
      ensures forall k :: 1 <= k < WindowDepth ==> eventFrame[k] == old(eventFrame)[k - 1]
      ensures slice == TemporalSlice(eventFrame, 1) == eventFrame[24..31]
      ensures |slice| == FilterDepth && slice[3] == eventFrame[WindowDepth / 2]
    {
      PushShifts(eventFrame, currFrame);
      AllGridsAt(eventFrame, width, height);
      eventFrame := Push(eventFrame, currFrame);
      AllGridsAt(eventFrame, width, height);
      TemporalSliceUnitInterval(eventFrame);
      TemporalSliceCentred(eventFrame, 1);
      slice := TemporalSlice(eventFrame, 1);
    }

    /**
     * `getGaborFilterValue` after the convolution, which is not modelled: `convOut` is
     * `F.conv2d`'s output with the batch axis dropped. Without `column_max` it is returned
     * unchanged; with it, the tiles are column-max suppressed in place.
     */
    method GaborFilterValue(convOut: array3<real>)
      modifies convOut
      ensures !columnMax ==> TileSuppression.Values(convOut) == old(TileSuppression.Values(convOut))
      ensures columnMax ==> TileSuppression.Values(convOut) == TileSuppression.SuppressAll(old(TileSuppression.Values(convOut)))
    {
      if columnMax {
        TileSuppression.SuppressColumnMax(convOut);
      }
    }
  }

  /**
   * Over a run of `update` calls the window is the initial zero window with the ticks pushed
   * in order: index `k` holds the frame of `k` ticks ago, and zeros while fewer than `k + 1`
   * ticks have happened.
   */
  lemma WindowAfterTicks(width: nat, height: nat, ticks: seq<Frame>)
    ensures |PushAll(ZeroWindow(width, height), ticks)| == WindowDepth
    ensures forall k :: 0 <= k < WindowDepth ==>
              PushAll(ZeroWindow(width, height), ticks)[k] ==
                if k < |ticks| then ticks[|ticks| - 1 - k] else ZeroFrame(width, height)
  {
    PushAllAt(ZeroWindow(width, height), ticks);
  }
}
