/**
 * Candidate extraction (`processing.py`): turning an activation map into components
 * (a list of grid points plus the largest activation among them) and components into
 * normalised bounding boxes with scores.
 *
 * `get_components_dbscan` hands the selected coordinates to `sklearn.cluster.DBSCAN`; the
 * model takes DBSCAN's `labels_` as an input and checks the bookkeeping around it.
 * `get_components_dfs` gets its seeds from `detect_peaks` (scipy morphology); the model
 * takes that seed mask as an input and verifies the flood fill itself.
 */
module Processing {
  import opened Common

  /** `{"points": ..., "maxGabor": ...}` */
  datatype Component = Component(points: seq<Point>, maxGabor: real)

  // ---------------------------------------------------------------------------------------
  // get_components_dbscan

  /** The boolean mask `frame > thresh`. */
  function Above(frame: seq<seq<real>>, thresh: real): (mask: seq<seq<bool>>)
    ensures |mask| == |frame|
    ensures forall r :: 0 <= r < |frame| ==> |mask[r]| == |frame[r]|
    ensures forall r, c :: 0 <= r < |frame| && 0 <= c < |frame[r]| ==> mask[r][c] == (frame[r][c] > thresh)
  {
    seq(|frame|, r requires 0 <= r < |frame| =>
      seq(|frame[r]|, c requires 0 <= c < |frame[r]| => frame[r][c] > thresh))
  }

  /** `np.argwhere(frame > thresh)`: the coordinates DBSCAN is asked to cluster. */
  function Selected(frame: seq<seq<real>>, thresh: real): seq<Point> {
    ArgWhere(Above(frame, thresh))
  }

  /**
   * The selection holds exactly the coordinates whose value is strictly greater than the
   * threshold (a value equal to it is left out), each once, in row-major order.
   */
  lemma SelectedSpec(frame: seq<seq<real>>, thresh: real)
    ensures forall p :: p in Selected(frame, thresh) <==>
              0 <= p.row < |frame| && 0 <= p.col < |frame[p.row]| && frame[p.row][p.col] > thresh
    ensures RowMajorSorted(Selected(frame, thresh))
  {
    ArgWhereSpec(Above(frame, thresh));
  }

  /** What DBSCAN guarantees of `labels_`: -1 marks noise, clusters are numbered 0, 1, ... without gaps. */
  predicate DbscanLabels(labels: seq<int>) {
    (forall j :: 0 <= j < |labels| ==> -1 <= labels[j]) &&
    (forall j, m :: 0 <= j < |labels| && 0 <= m < labels[j] ==> m in labels)
  }

  /** `len(set(labels)) - (1 if -1 in labels else 0)` */
  function NumClusters(labels: seq<int>): int {
    |set l | l in labels| - (if -1 in labels then 1 else 0)
  }

  /** The largest label, or -1 when there is none. */
  function MaxLabel(labels: seq<int>): (m: int)
    ensures m >= -1
    ensures forall j :: 0 <= j < |labels| ==> labels[j] <= m
    ensures m >= 0 ==> m in labels
  {
    if |labels| == 0 then -1
    else
      var m := MaxLabel(labels[..|labels| - 1]);
      var l := labels[|labels| - 1];
      if l > m then l else m
  }

  /**
   * `0 <= i < n`, named so that the comprehension in `Below` has a term to trigger on; the
   * bounds are written out there as well because they are what makes that set finite.
   */
  predicate InRange(i: int, n: int) {
    0 <= i < n
  }

  /** The numbers `0, 1, ..., n - 1`. */
  ghost function Below(n: int): set<int> {
    set i | 0 <= i < n && InRange(i, n)
  }

  lemma {:induction false} BelowCard(n: nat)
    ensures |Below(n)| == n
  {
    if n > 0 {
      BelowCard(n - 1);
      assert Below(n) == Below(n - 1) + {n - 1};
    }
  }

  /** Without noise the labels are exactly the numbers below one more than the largest. */
  lemma NonNoiseLabels(labels: seq<int>)
    requires DbscanLabels(labels)
    ensures (set l | l in labels) - {-1} == Below(MaxLabel(labels) + 1)
  {
    var m := MaxLabel(labels);
    forall x | x in Below(m + 1)
      ensures x in labels
    {
      if x < m {
        var j :| 0 <= j < |labels| && labels[j] == m;
        assert 0 <= x < labels[j];
      }
    }
  }

  /**
   * On DBSCAN's labels the cluster count is one more than the largest label: every label
   * other than noise is below it, and every number below it is the label of some point.
   */
  lemma NumClustersSpec(labels: seq<int>)
    requires DbscanLabels(labels)
    ensures NumClusters(labels) == MaxLabel(labels) + 1
    ensures forall j :: 0 <= j < |labels| ==> labels[j] < NumClusters(labels)
    ensures forall i :: 0 <= i < NumClusters(labels) ==> i in labels
  {
    var all := set l | l in labels;
    var m := MaxLabel(labels);
    NonNoiseLabels(labels);
    BelowCard(m + 1);
    if -1 in labels {
      assert all == (all - {-1}) + {-1};
    } else {
      assert all == all - {-1};
    }
    forall i | 0 <= i < m + 1
      ensures i in labels
    {
      assert InRange(i, m + 1) && i in Below(m + 1);
    }
  }

  /** The points labelled `i`, in selection order (`[nonzero[idx] for idx in argwhere(labels == i)]`). */
  function Labelled(points: seq<Point>, labels: seq<int>, i: int): seq<Point>
    requires |points| == |labels|
    decreases |points|
  {
    if |points| == 0 then []
    else
      var n := |points| - 1;
      Labelled(points[..n], labels[..n], i) + (if labels[n] == i then [points[n]] else [])
  }

  /**
   * A cluster holds every point labelled `i` and nothing else; filtering a row-major list
   * keeps it row-major.
   */
  lemma {:induction false} LabelledSpec(points: seq<Point>, labels: seq<int>, i: int)
    requires |points| == |labels|
    ensures forall j :: 0 <= j < |points| && labels[j] == i ==> points[j] in Labelled(points, labels, i)
    ensures forall p :: p in Labelled(points, labels, i) ==>
              exists j :: 0 <= j < |points| && points[j] == p && labels[j] == i
    ensures RowMajorSorted(points) ==> RowMajorSorted(Labelled(points, labels, i))
    decreases |points|
  {
    if |points| > 0 {
      var n := |points| - 1;
      var front, back := points[..n], labels[..n];
      LabelledSpec(front, back, i);
      var rest := Labelled(front, back, i);
      var tail: seq<Point> := if labels[n] == i then [points[n]] else [];
      assert Labelled(points, labels, i) == rest + tail;
      forall j | 0 <= j < |points| && labels[j] == i
        ensures points[j] in rest + tail
      {
        if j < n { assert front[j] == points[j] && back[j] == labels[j]; }
      }
      forall p | p in rest + tail
        ensures exists j :: 0 <= j < |points| && points[j] == p && labels[j] == i
      {
        if p in rest {
          var j :| 0 <= j < n && front[j] == p && back[j] == i;
          assert points[j] == p && labels[j] == i;
        } else {
          assert points[n] == p && labels[n] == i;
        }
      }
      if RowMajorSorted(points) {
        assert RowMajorSorted(front);
        forall a, b | 0 <= a < b < |rest + tail|
          ensures Before((rest + tail)[a], (rest + tail)[b])
        {
          if b >= |rest| {
            assert (rest + tail)[a] == rest[a] && rest[a] in rest;
            var j :| 0 <= j < n && front[j] == rest[a] && back[j] == i;
            assert (rest + tail)[b] == points[n];
          }
        }
      }
    }
  }

  /** The frame's values at the given points. */
  function ValuesAt(frame: seq<seq<real>>, points: seq<Point>): (vs: seq<real>)
    requires forall p :: p in points ==> 0 <= p.row < |frame| && 0 <= p.col < |frame[p.row]|
    ensures |vs| == |points|
    ensures forall k :: 0 <= k < |points| ==> vs[k] == frame[points[k].row][points[k].col]
  {
    seq(|points|, k requires 0 <= k < |points| => frame[points[k].row][points[k].col])
  }

  /** The labels DBSCAN may return for the selection of `frame` at `thresh`. */
  predicate ValidLabels(frame: seq<seq<real>>, thresh: real, labels: seq<int>) {
    |labels| == |Selected(frame, thresh)| && DbscanLabels(labels)
  }

  /** Cluster `i` is non-empty and made of selected coordinates. */
  lemma ClusterPoints(frame: seq<seq<real>>, thresh: real, labels: seq<int>, i: int)
    requires ValidLabels(frame, thresh, labels) && 0 <= i < NumClusters(labels)
    ensures |Labelled(Selected(frame, thresh), labels, i)| > 0
    ensures forall p :: p in Labelled(Selected(frame, thresh), labels, i) ==>
              0 <= p.row < |frame| && 0 <= p.col < |frame[p.row]| && frame[p.row][p.col] > thresh
  {
    var nonzero := Selected(frame, thresh);
    SelectedSpec(frame, thresh);
    NumClustersSpec(labels);
    LabelledSpec(nonzero, labels, i);
    assert i in labels;
    var j :| 0 <= j < |labels| && labels[j] == i;
    assert nonzero[j] in Labelled(nonzero, labels, i);
    forall p | p in Labelled(nonzero, labels, i)
      ensures p in nonzero
    {
    }
  }

  /** `{"points": cluster_points, "maxGabor": np.max([frame[p[0], p[1]] for p in cluster_points])}` */
  function Cluster(frame: seq<seq<real>>, thresh: real, labels: seq<int>, i: int): Component
    requires ValidLabels(frame, thresh, labels) && 0 <= i < NumClusters(labels)
  {
    ClusterPoints(frame, thresh, labels, i);
    var pts := Labelled(Selected(frame, thresh), labels, i);
    Component(pts, MaxOf(ValuesAt(frame, pts)))
  }

  /**
   * Cluster `i` holds, in row-major order, exactly the selected coordinates DBSCAN labelled
   * `i` (so no noise point), and its `maxGabor` is the largest frame value among them, which
   * is above the threshold.
   */
  lemma ClusterSpec(frame: seq<seq<real>>, thresh: real, labels: seq<int>, i: int)
    requires ValidLabels(frame, thresh, labels) && 0 <= i < NumClusters(labels)
    ensures var c := Cluster(frame, thresh, labels, i);
            |c.points| > 0 && RowMajorSorted(c.points) &&
            (forall j :: 0 <= j < |labels| ==> (Selected(frame, thresh)[j] in c.points <==> labels[j] == i)) &&
            (forall p :: p in c.points ==>
               0 <= p.row < |frame| && 0 <= p.col < |frame[p.row]| &&
               thresh < frame[p.row][p.col] <= c.maxGabor) &&
            c.maxGabor in ValuesAt(frame, c.points)
  {
    var nonzero := Selected(frame, thresh);
    SelectedSpec(frame, thresh);
    ClusterPoints(frame, thresh, labels, i);
    LabelledSpec(nonzero, labels, i);
    var c := Cluster(frame, thresh, labels, i);
    var pts := c.points;
    var vs := ValuesAt(frame, pts);
    forall j | 0 <= j < |labels| && nonzero[j] in pts
      ensures labels[j] == i
    {
      var j' :| 0 <= j' < |nonzero| && nonzero[j'] == nonzero[j] && labels[j'] == i;
      SortedDistinct(nonzero, j, j');
    }
    forall p | p in pts
      ensures frame[p.row][p.col] <= c.maxGabor
    {
      var a :| 0 <= a < |pts| && pts[a] == p;
      assert vs[a] == frame[p.row][p.col];
    }
  }

  /**
   * `get_components_dbscan(frame, thresh)` with DBSCAN's `labels_` supplied: select the
   * coordinates above the threshold, give up on fewer than two, and otherwise build one
   * component per cluster label, in label order. Noise points end up in no component and
   * every other selected point in the component of its label.
   */
  method GetComponentsDbscan(frame: seq<seq<real>>, thresh: real, labels: seq<int>)
    returns (clusters: seq<Component>)
    requires |Selected(frame, thresh)| >= 2 ==> ValidLabels(frame, thresh, labels)
    ensures |Selected(frame, thresh)| < 2 ==> clusters == []
    ensures |Selected(frame, thresh)| >= 2 ==> |clusters| == NumClusters(labels)
    ensures |Selected(frame, thresh)| >= 2 ==>
              forall k :: 0 <= k < |clusters| ==> clusters[k] == Cluster(frame, thresh, labels, k)
    ensures |Selected(frame, thresh)| >= 2 ==>
              forall j :: 0 <= j < |labels| && labels[j] != -1 ==> labels[j] < |clusters|
    ensures |Selected(frame, thresh)| >= 2 ==>
              forall k, j :: 0 <= k < |clusters| && 0 <= j < |labels| ==>
                (Selected(frame, thresh)[j] in clusters[k].points <==> labels[j] == k)
    ensures forall k :: 0 <= k < |clusters| ==>
              |clusters[k].points| > 0 && RowMajorSorted(clusters[k].points)
    ensures forall k, p :: 0 <= k < |clusters| && p in clusters[k].points ==>
              0 <= p.row < |frame| && 0 <= p.col < |frame[p.row]| &&
              thresh < frame[p.row][p.col] <= clusters[k].maxGabor
    ensures forall k :: 0 <= k < |clusters| ==> clusters[k].maxGabor in ValuesAt(frame, clusters[k].points)
  {
    var nonzero := Selected(frame, thresh);
    if |nonzero| < 2 {
      return [];
    }
    NumClustersSpec(labels);
    var n := NumClusters(labels);
    clusters := [];
    for i := 0 to n
      invariant |clusters| == i
      invariant forall k :: 0 <= k < i ==> clusters[k] == Cluster(frame, thresh, labels, k)
    {
      ClusterPoints(frame, thresh, labels, i);
      var pts := Labelled(nonzero, labels, i);
      clusters := clusters + [Component(pts, MaxOf(ValuesAt(frame, pts)))];
    }
    ClustersSpec(frame, thresh, labels, clusters);
  }

  /** The clusters in label order partition the selected points by label. */
  lemma ClustersSpec(frame: seq<seq<real>>, thresh: real, labels: seq<int>, clusters: seq<Component>)
    requires ValidLabels(frame, thresh, labels) && |clusters| == NumClusters(labels)
    requires forall k :: 0 <= k < |clusters| ==> clusters[k] == Cluster(frame, thresh, labels, k)
    ensures forall j :: 0 <= j < |labels| && labels[j] != -1 ==> labels[j] < |clusters|
    ensures forall k, j :: 0 <= k < |clusters| && 0 <= j < |labels| ==>
              (Selected(frame, thresh)[j] in clusters[k].points <==> labels[j] == k)
    ensures forall k :: 0 <= k < |clusters| ==>
              |clusters[k].points| > 0 && RowMajorSorted(clusters[k].points)
    ensures forall k, p :: 0 <= k < |clusters| && p in clusters[k].points ==>
              0 <= p.row < |frame| && 0 <= p.col < |frame[p.row]| &&
              thresh < frame[p.row][p.col] <= clusters[k].maxGabor
    ensures forall k :: 0 <= k < |clusters| ==> clusters[k].maxGabor in ValuesAt(frame, clusters[k].points)
  {
    NumClustersSpec(labels);
    forall k | 0 <= k < |clusters|
      ensures |clusters[k].points| > 0 && RowMajorSorted(clusters[k].points)
      ensures forall p :: p in clusters[k].points ==>
                0 <= p.row < |frame| && 0 <= p.col < |frame[p.row]| &&
                thresh < frame[p.row][p.col] <= clusters[k].maxGabor
      ensures clusters[k].maxGabor in ValuesAt(frame, clusters[k].points)
    {
      ClusterSpec(frame, thresh, labels, k);
    }
    forall k, j | 0 <= k < |clusters| && 0 <= j < |labels|
      ensures Selected(frame, thresh)[j] in clusters[k].points <==> labels[j] == k
    {
      ClusterSpec(frame, thresh, labels, k);
    }
  }

  // ---------------------------------------------------------------------------------------
  // process_filter

  /** A coordinate divided by the extent of its axis (`p[1] / filter.shape[1]`). */
  function Frac(i: int, n: nat): real
    requires n > 0
  {
    i as real / n as real
  }

  /** An index inside `[0, n)` divided by `n` lies in `[0, 1)`. */
  lemma FractionBelowOne(i: int, n: nat)
    requires 0 <= i < n
    ensures 0.0 <= Frac(i, n) < 1.0
  {
    var q := i as real / n as real;
    assert q * n as real == i as real;
  }

  /** `[p[1] / filter.shape[1] for p in points]` */
  function Xs(points: seq<Point>, cols: nat): (xs: seq<real>)
    requires cols > 0
    ensures |xs| == |points|
    ensures forall k :: 0 <= k < |points| ==> xs[k] == Frac(points[k].col, cols)
  {
    seq(|points|, k requires 0 <= k < |points| => Frac(points[k].col, cols))
  }

  /** `[p[0] / filter.shape[0] for p in points]` */
  function Ys(points: seq<Point>, rows: nat): (ys: seq<real>)
    requires rows > 0
    ensures |ys| == |points|
    ensures forall k :: 0 <= k < |points| ==> ys[k] == Frac(points[k].row, rows)
  {
    seq(|points|, k requires 0 <= k < |points| => Frac(points[k].row, rows))
  }

  /** `[min(x), min(y), max(x), max(y)]` */
  function BoundingBox(points: seq<Point>, rows: nat, cols: nat): Box<real>
    requires |points| > 0 && rows > 0 && cols > 0
  {
    Box(MinOf(Xs(points, cols)), MinOf(Ys(points, rows)), MaxOf(Xs(points, cols)), MaxOf(Ys(points, rows)))
  }

  /**
   * The bounding box of a component contains every point, and each of its four sides is
   * attained by some point.
   */
  lemma BoundingBoxSpec(points: seq<Point>, rows: nat, cols: nat)
    requires |points| > 0 && rows > 0 && cols > 0
    ensures var b := BoundingBox(points, rows, cols);
            b.xMin <= b.xMax && b.yMin <= b.yMax &&
            (forall k :: 0 <= k < |points| ==>
               b.xMin <= Frac(points[k].col, cols) <= b.xMax &&
               b.yMin <= Frac(points[k].row, rows) <= b.yMax) &&
            (exists k :: 0 <= k < |points| && Frac(points[k].col, cols) == b.xMin) &&
            (exists k :: 0 <= k < |points| && Frac(points[k].col, cols) == b.xMax) &&
            (exists k :: 0 <= k < |points| && Frac(points[k].row, rows) == b.yMin) &&
            (exists k :: 0 <= k < |points| && Frac(points[k].row, rows) == b.yMax)
  {
    var xs, ys := Xs(points, cols), Ys(points, rows);
    var a :| 0 <= a < |xs| && xs[a] == MinOf(xs);
    var b :| 0 <= b < |xs| && xs[b] == MaxOf(xs);
    var c :| 0 <= c < |ys| && ys[c] == MinOf(ys);
    var d :| 0 <= d < |ys| && ys[d] == MaxOf(ys);
  }

  /** For points inside the grid the bounding box lies inside the unit square `[0, 1)^2`. */
  lemma BoundingBoxInUnitSquare(points: seq<Point>, rows: nat, cols: nat)
    requires |points| > 0 && rows > 0 && cols > 0
    requires forall p :: p in points ==> InGrid(p, rows, cols)
    ensures var b := BoundingBox(points, rows, cols);
            0.0 <= b.xMin && b.xMax < 1.0 && 0.0 <= b.yMin && b.yMax < 1.0
  {
    var xs, ys := Xs(points, cols), Ys(points, rows);
    var a :| 0 <= a < |xs| && xs[a] == MinOf(xs);
    var b :| 0 <= b < |xs| && xs[b] == MaxOf(xs);
    var c :| 0 <= c < |ys| && ys[c] == MinOf(ys);
    var d :| 0 <= d < |ys| && ys[d] == MaxOf(ys);
    assert points[a] in points && points[b] in points && points[c] in points && points[d] in points;
    FractionBelowOne(points[a].col, cols);
    FractionBelowOne(points[b].col, cols);
    FractionBelowOne(points[c].row, rows);
    FractionBelowOne(points[d].row, rows);
  }

  /**
   * `process_filter`'s loop: one box and one score per component, in component order; the
   * box is the normalised bounding box of the component's points and the score its `maxGabor`.
   */
  method ProcessFilter(rows: nat, cols: nat, components: seq<Component>)
    returns (boxes: seq<Box<real>>, scores: seq<real>)
    requires forall k :: 0 <= k < |components| ==> |components[k].points| > 0
    requires |components| > 0 ==> rows > 0 && cols > 0
    ensures |boxes| == |components| && |scores| == |components|
    ensures forall k :: 0 <= k < |components| ==> scores[k] == components[k].maxGabor
    ensures forall k :: 0 <= k < |components| ==> boxes[k] == BoundingBox(components[k].points, rows, cols)
  {
    boxes, scores := [], [];
    for k := 0 to |components|
      invariant |boxes| == k && |scores| == k
      invariant forall i :: 0 <= i < k ==> scores[i] == components[i].maxGabor
      invariant forall i :: 0 <= i < k ==> boxes[i] == BoundingBox(components[i].points, rows, cols)
    {
      var pts := components[k].points;
      var xs, ys := Xs(pts, cols), Ys(pts, rows);
      boxes := boxes + [Box(MinOf(xs), MinOf(ys), MaxOf(xs), MaxOf(ys))];
      scores := scores + [components[k].maxGabor];
    }
  }

  /** A proper box inside the unit square. */
  predicate InUnitSquare(b: Box<real>) {
    0.0 <= b.xMin <= b.xMax < 1.0 && 0.0 <= b.yMin <= b.yMax < 1.0
  }

  /**
   * A component whose cells lie in the grid, above the threshold and at most `maxGabor`
   * yields a score above the threshold and a box inside the unit square.
   */
  lemma ComponentDetection(frame: seq<seq<real>>, rows: nat, cols: nat, thresh: real, c: Component)
    requires IsGrid(frame, rows, cols) && |c.points| > 0
    requires forall p :: p in c.points ==>
               0 <= p.row < |frame| && 0 <= p.col < |frame[p.row]| &&
               thresh < frame[p.row][p.col] <= c.maxGabor
    ensures c.maxGabor > thresh
    ensures rows > 0 && cols > 0 && InUnitSquare(BoundingBox(c.points, rows, cols))
  {
    assert c.points[0] in c.points;
    BoundingBoxSpec(c.points, rows, cols);
    BoundingBoxInUnitSquare(c.points, rows, cols);
  }

  /**
   * `process_filter(frame, get_components_dbscan, thresh=thresh)` on a `rows` x `cols`
   * activation map: every score is above the threshold and every box is a proper box inside
   * the unit square; fewer than two selected pixels give no detections at all.
   */
  method Detect(frame: seq<seq<real>>, rows: nat, cols: nat, thresh: real, labels: seq<int>)
    returns (boxes: seq<Box<real>>, scores: seq<real>)
    requires IsGrid(frame, rows, cols)
    requires |Selected(frame, thresh)| >= 2 ==> ValidLabels(frame, thresh, labels)
    ensures |boxes| == |scores|
    ensures |Selected(frame, thresh)| < 2 ==> boxes == [] && scores == []
    ensures |Selected(frame, thresh)| >= 2 ==> |boxes| == NumClusters(labels)
    ensures forall k :: 0 <= k < |scores| ==> scores[k] > thresh
    ensures forall k :: 0 <= k < |boxes| ==> InUnitSquare(boxes[k])
    ensures |Selected(frame, thresh)| >= 2 ==>
              forall k :: 0 <= k < |scores| ==>
                var c := Cluster(frame, thresh, labels, k);
                scores[k] == c.maxGabor &&
                |c.points| > 0 && rows > 0 && cols > 0 && boxes[k] == BoundingBox(c.points, rows, cols)
  {
    var clusters := GetComponentsDbscan(frame, thresh, labels);
    if |clusters| > 0 {
      ComponentDetection(frame, rows, cols, thresh, clusters[0]);
    }
    boxes, scores := ProcessFilter(rows, cols, clusters);
    forall k | 0 <= k < |clusters|
      ensures scores[k] > thresh && InUnitSquare(boxes[k])
    {
      ComponentDetection(frame, rows, cols, thresh, clusters[k]);
    }
  }

  // ---------------------------------------------------------------------------------------
  // get_components_dfs

  /** `frame[frame < thresh] = 0`, in place. */
  method ZeroBelow(frame: array2<real>, thresh: real)
    modifies frame
    ensures forall r, c :: 0 <= r < frame.Length0 && 0 <= c < frame.Length1 ==>
              frame[r, c] == if old(frame[r, c]) < thresh then 0.0 else old(frame[r, c])
  {
    for r := 0 to frame.Length0
      invariant forall r', c :: 0 <= r' < frame.Length0 && 0 <= c < frame.Length1 ==>
                  frame[r', c] == if r' < r && old(frame[r', c]) < thresh then 0.0 else old(frame[r', c])
    {
      for c := 0 to frame.Length1
        invariant forall r', c' :: 0 <= r' < frame.Length0 && 0 <= c' < frame.Length1 ==>
                    frame[r', c'] == if (r' < r || (r' == r && c' < c)) && old(frame[r', c']) < thresh
                                     then 0.0 else old(frame[r', c'])
      {
        if frame[r, c] < thresh {
          frame[r, c] := 0.0;
        }
      }
    }
  }

  /** The four cells pushed after visiting `p`, in the order `stack.extend` pushes them. */
  function Neighbours(p: Point): seq<Point> {
    [Point(p.row - 1, p.col), Point(p.row + 1, p.col), Point(p.row, p.col - 1), Point(p.row, p.col + 1)]
  }

  predicate Distinct(ps: seq<Point>) {
    forall i, j :: 0 <= i < j < |ps| ==> ps[i] != ps[j]
  }

  /** The mask is true exactly on the nonzero cells no component has taken yet. */
  ghost predicate MaskInv(frame: array2<real>, mask: array2<bool>, taken: set<Point>)
    reads frame, mask
    requires mask.Length0 == frame.Length0 && mask.Length1 == frame.Length1
  {
    forall r, c :: 0 <= r < frame.Length0 && 0 <= c < frame.Length1 ==>
      (mask[r, c] <==> frame[r, c] != 0.0 && Point(r, c) !in taken)
  }

  /** Neighbour `q` of a taken cell is outside the grid, zero, or taken as well. */
  predicate Settled(frame: array2<real>, taken: set<Point>, q: Point)
    reads frame
  {
    !InGrid(q, frame.Length0, frame.Length1) || frame[q.row, q.col] == 0.0 || q in taken
  }

  /** No nonzero in-grid neighbour of a taken cell is left untaken. */
  ghost predicate Closed(frame: array2<real>, taken: set<Point>)
    reads frame
  {
    forall p {:trigger Neighbours(p)} :: p in taken ==> forall q :: q in Neighbours(p) ==> Settled(frame, taken, q)
  }

  /** Cell `q` is outside the grid, already cleared in the mask, or still waiting on the stack. */
  predicate Covered(mask: array2<bool>, stack: seq<Point>, q: Point)
    reads mask
  {
    !InGrid(q, mask.Length0, mask.Length1) || !mask[q.row, q.col] || q in stack
  }

  /** Every live neighbour of a taken cell is still on the stack. */
  ghost predicate Frontier(mask: array2<bool>, stack: seq<Point>, taken: set<Point>)
    reads mask
  {
    forall p {:trigger Neighbours(p)} :: p in taken ==> forall q :: q in Neighbours(p) ==> Covered(mask, stack, q)
  }

  /** The cells `(r, c)` with `c < cols` of the rows `r < rows`. */
  ghost function Cells(rows: nat, cols: nat): set<Point> {
    if rows == 0 then {} else Cells(rows - 1, cols) + RowCells(rows - 1, cols)
  }

  ghost function RowCells(r: int, cols: nat): set<Point> {
    if cols == 0 then {} else RowCells(r, cols - 1) + {Point(r, cols - 1)}
  }

  lemma {:induction false} RowCellsSpec(r: int, cols: nat, p: Point)
    ensures p in RowCells(r, cols) <==> p.row == r && 0 <= p.col < cols
  {
    if cols > 0 {
      RowCellsSpec(r, cols - 1, p);
    }
  }

  /** The recursive enumeration holds exactly the cells of the grid. */
  lemma {:induction false} CellsSpec(rows: nat, cols: nat, p: Point)
    ensures p in Cells(rows, cols) <==> InGrid(p, rows, cols)
  {
    if rows > 0 {
      CellsSpec(rows - 1, cols, p);
      RowCellsSpec(rows - 1, cols, p);
    }
  }

  /** Cell `q` is a nonzero cell of the grid outside `avoid`. */
  predicate Open(frame: array2<real>, avoid: set<Point>, q: Point)
    reads frame
  {
    InGrid(q, frame.Length0, frame.Length1) && frame[q.row, q.col] != 0.0 && q !in avoid
  }

  /** `p` and `q` are 4-neighbours: they differ by one in exactly one coordinate. */
  predicate Adjacent(p: Point, q: Point) {
    (p.row == q.row && (p.col - q.col == 1 || q.col - p.col == 1)) ||
    (p.col == q.col && (p.row - q.row == 1 || q.row - p.row == 1))
  }

  /** The four cells `stack.extend` pushes are exactly the 4-neighbours. */
  lemma AdjacentNeighbours(p: Point, q: Point)
    ensures Adjacent(p, q) <==> q in Neighbours(p)
  {
  }

  /** A walk through open cells, each step to a 4-neighbour of the cell before. */
  ghost predicate IsWalk(frame: array2<real>, path: seq<Point>, avoid: set<Point>)
    reads frame
    decreases |path|
  {
    |path| == 0 ||
    (Open(frame, avoid, path[|path| - 1]) &&
     (|path| == 1 || (Adjacent(path[|path| - 2], path[|path| - 1]) && IsWalk(frame, path[..|path| - 1], avoid))))
  }

  /** Every cell of a walk is open, and each is a neighbour of the one before. */
  lemma {:induction false} WalkAt(frame: array2<real>, path: seq<Point>, avoid: set<Point>, i: nat)
    requires IsWalk(frame, path, avoid) && i < |path|
    ensures Open(frame, avoid, path[i])
    ensures i > 0 ==> Adjacent(path[i - 1], path[i])
    decreases |path|
  {
    if i < |path| - 1 {
      var front := path[..|path| - 1];
      WalkAt(frame, front, avoid, i);
      assert front[i] == path[i];
      if i > 0 {
        assert front[i - 1] == path[i - 1];
      }
    }
  }

  /** A walk whose cells all lie outside `b` is a walk avoiding `b`. */
  lemma {:induction false} WalkAvoiding(frame: array2<real>, path: seq<Point>, a: set<Point>, b: set<Point>)
    requires IsWalk(frame, path, a)
    requires forall i :: 0 <= i < |path| ==> path[i] !in b
    ensures IsWalk(frame, path, b)
    decreases |path|
  {
    if |path| > 1 {
      var front := path[..|path| - 1];
      forall i | 0 <= i < |front|
        ensures front[i] !in b
      {
        assert front[i] == path[i];
      }
      WalkAvoiding(frame, front, a, b);
    }
  }

  /** `p` is 4-connected to `start` through nonzero cells outside `avoid`. */
  ghost predicate Reachable(frame: array2<real>, avoid: set<Point>, start: Point, p: Point)
    reads frame
  {
    exists path :: |path| > 0 && path[0] == start && path[|path| - 1] == p && IsWalk(frame, path, avoid)
  }

  /** `points` holds exactly the cells reachable from `seed` avoiding `avoid`: its connected region. */
  ghost predicate RegionOf(frame: array2<real>, avoid: set<Point>, seed: Point, points: seq<Point>)
    reads frame
  {
    forall p {:trigger Reachable(frame, avoid, seed, p)} :: p in points <==> Reachable(frame, avoid, seed, p)
  }

  /** Both ends of a walk are open. */
  lemma ReachableEnds(frame: array2<real>, avoid: set<Point>, start: Point, p: Point)
    requires Reachable(frame, avoid, start, p)
    ensures Open(frame, avoid, start) && Open(frame, avoid, p)
  {
    var path :| |path| > 0 && path[0] == start && path[|path| - 1] == p && IsWalk(frame, path, avoid);
    WalkAt(frame, path, avoid, 0);
    WalkAt(frame, path, avoid, |path| - 1);
  }

  /** An open cell reaches itself. */
  lemma ReachSelf(frame: array2<real>, avoid: set<Point>, start: Point)
    requires Open(frame, avoid, start)
    ensures Reachable(frame, avoid, start, start)
  {
    assert IsWalk(frame, [start], avoid);
  }

  /** A walk to `p` extends to an open neighbour of `p`. */
  lemma ReachStep(frame: array2<real>, avoid: set<Point>, start: Point, p: Point, q: Point)
    requires Reachable(frame, avoid, start, p) && Adjacent(p, q) && Open(frame, avoid, q)
    ensures Reachable(frame, avoid, start, q)
  {
    var path :| |path| > 0 && path[0] == start && path[|path| - 1] == p && IsWalk(frame, path, avoid);
    var longer := path + [q];
    assert longer[..|longer| - 1] == path;
    assert IsWalk(frame, longer, avoid);
  }

  /** A walk that starts inside a closed set of cells never leaves it. */
  lemma {:induction false} WalkInClosed(frame: array2<real>, path: seq<Point>, avoid: set<Point>,
                                        region: set<Point>, i: nat)
    requires IsWalk(frame, path, avoid) && |path| > 0 && path[0] in region && Closed(frame, region)
    requires i < |path|
    ensures path[i] in region
    decreases i
  {
    if i > 0 {
      WalkInClosed(frame, path, avoid, region, i - 1);
      WalkAt(frame, path, avoid, i);
      AdjacentNeighbours(path[i - 1], path[i]);
      assert Settled(frame, region, path[i]);
    }
  }

  /** Whatever is reachable from a cell of a closed set lies in that set. */
  lemma ReachableInClosed(frame: array2<real>, avoid: set<Point>, region: set<Point>, start: Point, p: Point)
    requires Closed(frame, region) && start in region && Reachable(frame, avoid, start, p)
    ensures p in region
  {
    var path :| |path| > 0 && path[0] == start && path[|path| - 1] == p && IsWalk(frame, path, avoid);
    WalkInClosed(frame, path, avoid, region, |path| - 1);
  }

  /** A walk that starts outside a closed set of cells never enters it. */
  lemma {:induction false} WalkOutsideClosed(frame: array2<real>, path: seq<Point>, avoid: set<Point>,
                                             region: set<Point>, i: nat)
    requires IsWalk(frame, path, avoid) && |path| > 0 && path[0] !in region && Closed(frame, region)
    requires i < |path|
    ensures path[i] !in region
    decreases i
  {
    if i > 0 {
      WalkOutsideClosed(frame, path, avoid, region, i - 1);
      WalkAt(frame, path, avoid, i - 1);
      WalkAt(frame, path, avoid, i);
      AdjacentNeighbours(path[i], path[i - 1]);
      assert path[i] in region ==> Settled(frame, region, path[i - 1]);
    }
  }

  /**
   * From a cell outside a closed set, avoiding that set changes nothing: the cells reachable
   * avoiding it are those reachable through nonzero cells at all.
   */
  lemma ReachableAvoidingClosed(frame: array2<real>, region: set<Point>, start: Point, p: Point)
    requires Closed(frame, region) && start !in region
    ensures Reachable(frame, region, start, p) <==> Reachable(frame, {}, start, p)
  {
    if Reachable(frame, region, start, p) {
      var path :| |path| > 0 && path[0] == start && path[|path| - 1] == p && IsWalk(frame, path, region);
      WalkAvoiding(frame, path, region, {});
    }
    if Reachable(frame, {}, start, p) {
      var path :| |path| > 0 && path[0] == start && path[|path| - 1] == p && IsWalk(frame, path, {});
      forall i | 0 <= i < |path|
        ensures path[i] !in region
      {
        WalkOutsideClosed(frame, path, {}, region, i);
      }
      WalkAvoiding(frame, path, {}, region);
    }
  }

  /** Every cell of `component` is reachable from `start` avoiding `taken`. */
  ghost predicate AllReached(frame: array2<real>, taken: set<Point>, start: Point, component: seq<Point>)
    reads frame
    decreases |component|
  {
    |component| == 0 ||
    (AllReached(frame, taken, start, component[..|component| - 1]) &&
     Reachable(frame, taken, start, component[|component| - 1]))
  }

  lemma {:induction false} AllReachedAt(frame: array2<real>, taken: set<Point>, start: Point,
                                        component: seq<Point>, p: Point)
    requires AllReached(frame, taken, start, component) && p in component
    ensures Reachable(frame, taken, start, p)
    decreases |component|
  {
    var n := |component| - 1;
    if p != component[n] {
      assert p in component[..n];
      AllReachedAt(frame, taken, start, component[..n], p);
    }
  }

  lemma AllReachedAppend(frame: array2<real>, taken: set<Point>, start: Point, component: seq<Point>, p: Point)
    requires AllReached(frame, taken, start, component) && Reachable(frame, taken, start, p)
    ensures AllReached(frame, taken, start, component + [p])
  {
    assert (component + [p])[..|component|] == component;
  }

  /** Cell `q` is the seed or a 4-neighbour of a cell of `component`. */
  ghost predicate Pushed(component: seq<Point>, start: Point, q: Point) {
    q == start || exists p :: p in component && Adjacent(p, q)
  }

  /** Every cell on the stack was pushed: it is the seed or a neighbour of a visited cell. */
  ghost predicate Fed(component: seq<Point>, start: Point, stack: seq<Point>)
    decreases |stack|
  {
    |stack| == 0 ||
    (Fed(component, start, stack[..|stack| - 1]) && Pushed(component, start, stack[|stack| - 1]))
  }

  lemma FedAppend(component: seq<Point>, start: Point, stack: seq<Point>, q: Point)
    requires Fed(component, start, stack) && Pushed(component, start, q)
    ensures Fed(component, start, stack + [q])
  {
    assert (stack + [q])[..|stack|] == stack;
  }

  lemma {:induction false} FedGrow(component: seq<Point>, start: Point, stack: seq<Point>, x: Point)
    requires Fed(component, start, stack)
    ensures Fed(component + [x], start, stack)
    decreases |stack|
  {
    if |stack| > 0 {
      FedGrow(component, start, stack[..|stack| - 1], x);
      var q := stack[|stack| - 1];
      if q != start {
        var p :| p in component && Adjacent(p, q);
        assert p in component + [x];
      }
    }
  }

  /** Pushing the neighbours of a visited cell keeps every stacked cell accounted for. */
  lemma FedPush(component: seq<Point>, start: Point, stack: seq<Point>, point: Point)
    requires Fed(component, start, stack) && point in component
    ensures Fed(component, start, stack + Neighbours(point))
  {
    var ns := Neighbours(point);
    var s1 := stack + [ns[0]];
    var s2 := s1 + [ns[1]];
    var s3 := s2 + [ns[2]];
    assert Adjacent(point, ns[0]) && Adjacent(point, ns[1]) && Adjacent(point, ns[2]) && Adjacent(point, ns[3]);
    FedAppend(component, start, stack, ns[0]);
    FedAppend(component, start, s1, ns[1]);
    FedAppend(component, start, s2, ns[2]);
    FedAppend(component, start, s3, ns[3]);
    assert stack + ns == s3 + [ns[3]];
  }

  /**
   * Visiting a popped live cell: it is reachable (it is the seed or a neighbour of a visited
   * cell), and once its neighbours are pushed every stacked cell is again the seed or a
   * neighbour of a visited cell.
   */
  lemma FloodStep(frame: array2<real>, taken: set<Point>, start: Point, component: seq<Point>,
                  rest: seq<Point>, point: Point)
    requires AllReached(frame, taken, start, component) && Fed(component, start, rest + [point])
    requires Open(frame, taken, point)
    ensures AllReached(frame, taken, start, component + [point])
    ensures Fed(component + [point], start, rest + Neighbours(point))
  {
    assert (rest + [point])[..|rest|] == rest;
    assert Pushed(component, start, point);
    if point == start {
      ReachSelf(frame, taken, start);
    } else {
      var parent :| parent in component && Adjacent(parent, point);
      AllReachedAt(frame, taken, start, component, parent);
      ReachStep(frame, taken, start, parent, point);
    }
    AllReachedAppend(frame, taken, start, component, point);
    FedGrow(component, start, rest, point);
    FedPush(component + [point], start, rest, point);
  }

  /**
   * One `while stack:` loop from seed `start`: pop, skip cells outside the grid or not in the
   * mask, otherwise record the cell, clear its mask bit and push its four neighbours. The
   * component it returns is empty exactly when the seed is not a live cell; otherwise it is
   * a set of fresh nonzero cells that, together with the cells taken before, leaves no
   * nonzero neighbour untaken, and `maxGabor` is `max(0, largest value in it)`.
   */
  method Flood(frame: array2<real>, mask: array2<bool>, start: Point, ghost taken: set<Point>)
    returns (component: seq<Point>, maxGabor: real, ghost takenAfter: set<Point>)
    requires mask.Length0 == frame.Length0 && mask.Length1 == frame.Length1
    requires MaskInv(frame, mask, taken) && Closed(frame, taken)
    requires forall p :: p in taken ==> InGrid(p, frame.Length0, frame.Length1)
    modifies mask
    ensures takenAfter == taken + set p | p in component
    ensures MaskInv(frame, mask, takenAfter) && Closed(frame, takenAfter)
    ensures Distinct(component)
    ensures forall p :: p in component ==>
              InGrid(p, frame.Length0, frame.Length1) && p !in taken &&
              frame[p.row, p.col] != 0.0 && frame[p.row, p.col] <= maxGabor
    ensures (InGrid(start, frame.Length0, frame.Length1) && old(mask[start.row, start.col])) <==> |component| > 0
    ensures |component| > 0 ==> start in component
    ensures RegionOf(frame, taken, start, component)
    ensures Open(frame, taken, start) <==> |component| > 0
    ensures 0.0 <= maxGabor
    ensures maxGabor == 0.0 ||
            exists p :: p in component && InGrid(p, frame.Length0, frame.Length1) && frame[p.row, p.col] == maxGabor
  {
    var stack := [start];
    component := [];
    maxGabor := 0.0;
    takenAfter := taken;
    ghost var cells := Cells(frame.Length0, frame.Length1);
    ghost var live := InGrid(start, frame.Length0, frame.Length1) && mask[start.row, start.col];
    assert live <==> Open(frame, taken, start);
    FrontierInitially(frame, mask, taken);
    FedAppend([], start, [], start);
    assert [] + [start] == stack;
    while |stack| > 0
      invariant Filling(frame, mask, taken, start, component, maxGabor, takenAfter, stack)
      invariant SeedFirst(frame, taken, start, component, stack)
      decreases |cells - takenAfter|, |stack|
    {
      component, maxGabor, takenAfter, stack := Pop(frame, mask, taken, start, component, maxGabor, takenAfter, stack);
    }
    FillDone(frame, mask, taken, start, component, maxGabor, takenAfter);
  }

  /** An open seed is either still the only stacked cell of an empty fill, or already visited. */
  ghost predicate SeedFirst(frame: array2<real>, taken: set<Point>, start: Point, component: seq<Point>, stack: seq<Point>)
    reads frame
  {
    Open(frame, taken, start) ==> start in component || (stack == [start] && component == [])
  }

  /**
   * One turn of the stack loop (lines 52-67): pop the last cell, skip it when it is off the
   * grid or cleared, otherwise visit it. Either one more cell of the grid is taken, or
   * nothing is taken and the stack is shorter.
   */
  method Pop(frame: array2<real>, mask: array2<bool>, ghost taken: set<Point>, ghost start: Point,
             component: seq<Point>, maxGabor: real, ghost takenAfter: set<Point>, stack: seq<Point>)
    returns (grown: seq<Point>, newMax: real, ghost newTaken: set<Point>, newStack: seq<Point>)
    requires |stack| > 0
    requires Filling(frame, mask, taken, start, component, maxGabor, takenAfter, stack)
    requires SeedFirst(frame, taken, start, component, stack)
    modifies mask
    ensures Filling(frame, mask, taken, start, grown, newMax, newTaken, newStack)
    ensures SeedFirst(frame, taken, start, grown, newStack)
    ensures |Cells(frame.Length0, frame.Length1) - newTaken| < |Cells(frame.Length0, frame.Length1) - takenAfter| ||
            (newTaken == takenAfter && |newStack| < |stack|)
  {
    var point := stack[|stack| - 1];
    var rest := stack[..|stack| - 1];
    PopLast(stack);
    if !InGrid(point, mask.Length0, mask.Length1) || !mask[point.row, point.col] {
      SkipDead(frame, mask, taken, start, component, maxGabor, takenAfter, rest, point);
      assert component == [] ==> takenAfter == taken;
      grown, newMax, newTaken, newStack := component, maxGabor, takenAfter, rest;
    } else {
      grown, newMax, newTaken := Visit(frame, mask, taken, start, component, maxGabor, takenAfter, rest, point);
      newStack := rest + Neighbours(point);
    }
  }

  /**
   * When the stack runs empty the taken set is closed, so the component is exactly the
   * region reachable from the seed, and it is empty exactly when the seed is not open.
   */
  lemma FillDone(frame: array2<real>, mask: array2<bool>, taken: set<Point>, start: Point,
                 component: seq<Point>, maxGabor: real, takenAfter: set<Point>)
    requires Filling(frame, mask, taken, start, component, maxGabor, takenAfter, [])
    requires SeedFirst(frame, taken, start, component, [])
    ensures takenAfter == taken + set p | p in component
    ensures Closed(frame, takenAfter)
    ensures RegionOf(frame, taken, start, component)
    ensures Open(frame, taken, start) <==> |component| > 0
    ensures |component| > 0 ==> start in component
  {
    FrontierClosed(frame, mask, takenAfter);
    FloodRegion(frame, taken, takenAfter, start, component);
    if |component| > 0 {
      ReachableEnds(frame, taken, start, component[0]);
    }
  }

  /**
   * What holds between two pops of the stack loop: `takenAfter` is `taken` plus the
   * component; the mask is true exactly on the untaken nonzero cells; every live neighbour
   * of a taken cell waits on the stack; the component holds distinct fresh nonzero cells,
   * each reached from the seed; every stacked cell is the seed or a neighbour of a visited
   * cell; and `maxGabor` is `max(0, largest value so far)`.
   */
  ghost predicate Filling(frame: array2<real>, mask: array2<bool>, taken: set<Point>, start: Point,
                          component: seq<Point>, maxGabor: real, takenAfter: set<Point>, stack: seq<Point>)
    reads frame, mask
  {
    mask.Length0 == frame.Length0 && mask.Length1 == frame.Length1 &&
    (forall p :: p in takenAfter <==> p in taken || p in component) &&
    (forall p :: p in takenAfter ==> InGrid(p, frame.Length0, frame.Length1)) &&
    MaskInv(frame, mask, takenAfter) &&
    Frontier(mask, stack, takenAfter) &&
    Distinct(component) &&
    (forall p :: p in component ==>
       InGrid(p, frame.Length0, frame.Length1) && p !in taken &&
       frame[p.row, p.col] != 0.0 && frame[p.row, p.col] <= maxGabor) &&
    AllReached(frame, taken, start, component) &&
    Fed(component, start, stack) &&
    0.0 <= maxGabor &&
    (maxGabor == 0.0 ||
     exists p :: p in component && InGrid(p, frame.Length0, frame.Length1) && frame[p.row, p.col] == maxGabor)
  }

  /** Popping a cell that is outside the grid or already cleared (`continue`) keeps the fill state. */
  lemma SkipDead(frame: array2<real>, mask: array2<bool>, taken: set<Point>, start: Point,
                 component: seq<Point>, maxGabor: real, takenAfter: set<Point>, rest: seq<Point>, point: Point)
    requires Filling(frame, mask, taken, start, component, maxGabor, takenAfter, rest + [point])
    requires !InGrid(point, mask.Length0, mask.Length1) || !mask[point.row, point.col]
    ensures Filling(frame, mask, taken, start, component, maxGabor, takenAfter, rest)
  {
    FrontierPop(mask, rest, point, takenAfter);
    assert (rest + [point])[..|rest|] == rest;
  }

  /**
   * Lines 57-67 for a popped live cell: raise `maxGabor`, record the cell, clear its mask bit
   * and push its four neighbours. The fill state then holds for the longer component and
   * stack, and one more cell of the grid is taken.
   */
  method Visit(frame: array2<real>, mask: array2<bool>, ghost taken: set<Point>, ghost start: Point,
               component: seq<Point>, maxGabor: real, ghost takenAfter: set<Point>, rest: seq<Point>, point: Point)
    returns (grown: seq<Point>, newMax: real, ghost newTaken: set<Point>)
    requires Filling(frame, mask, taken, start, component, maxGabor, takenAfter, rest + [point])
    requires InGrid(point, mask.Length0, mask.Length1) && mask[point.row, point.col]
    modifies mask
    ensures Filling(frame, mask, taken, start, grown, newMax, newTaken, rest + Neighbours(point))
    ensures grown == component + [point] && newTaken == takenAfter + {point}
    ensures |Cells(frame.Length0, frame.Length1) - newTaken| < |Cells(frame.Length0, frame.Length1) - takenAfter|
  {
    assert Open(frame, taken, point);
    FloodStep(frame, taken, start, component, rest, point);
    newMax := Max(maxGabor, frame[point.row, point.col]);
    DistinctAppend(component, point);
    grown := component + [point];
    ClearCell(frame, mask, point, rest, takenAfter);
    CellsSpec(frame.Length0, frame.Length1, point);
    TakeOneMore(Cells(frame.Length0, frame.Length1), takenAfter, point);
    newTaken := takenAfter + {point};
  }

  /**
   * When the stack is empty the component is the seed's connected region: every cell was
   * reached from the seed, and whatever the seed reaches lies in the closed taken set.
   */
  lemma FloodRegion(frame: array2<real>, taken: set<Point>, takenAfter: set<Point>, start: Point,
                    component: seq<Point>)
    requires forall p :: p in takenAfter <==> p in taken || p in component
    requires Closed(frame, takenAfter) && AllReached(frame, taken, start, component)
    requires Open(frame, taken, start) ==> start in component
    ensures RegionOf(frame, taken, start, component)
  {
    forall p | p in component
      ensures Reachable(frame, taken, start, p)
    {
      AllReachedAt(frame, taken, start, component, p);
    }
    forall p | Reachable(frame, taken, start, p)
      ensures p in component
    {
      ReachableEnds(frame, taken, start, p);
      ReachableInClosed(frame, taken, takenAfter, start, p);
    }
  }

  /** Splitting off the top of a non-empty stack. */
  lemma PopLast(stack: seq<Point>)
    requires |stack| > 0
    ensures stack == stack[..|stack| - 1] + [stack[|stack| - 1]]
  {
  }

  lemma DistinctAppend(ps: seq<Point>, p: Point)
    requires Distinct(ps) && p !in ps
    ensures Distinct(ps + [p])
  {
  }

  /** Taking one more untaken cell of the grid shrinks the set of untaken cells. */
  lemma TakeOneMore(cells: set<Point>, taken: set<Point>, point: Point)
    requires point in cells && point !in taken
    ensures |cells - (taken + {point})| < |cells - taken|
  {
    assert cells - (taken + {point}) == (cells - taken) - {point};
  }

  /** Before the first pop the frontier holds: every live neighbour of a taken cell is taken. */
  lemma FrontierInitially(frame: array2<real>, mask: array2<bool>, taken: set<Point>)
    requires mask.Length0 == frame.Length0 && mask.Length1 == frame.Length1
    requires MaskInv(frame, mask, taken) && Closed(frame, taken)
    ensures Frontier(mask, [], taken)
  {
    forall p, q | p in taken && q in Neighbours(p)
      ensures Covered(mask, [], q)
    {
      assert Settled(frame, taken, q);
    }
  }

  /** Popping a cell that is outside the grid or already cleared keeps the frontier. */
  lemma FrontierPop(mask: array2<bool>, rest: seq<Point>, point: Point, taken: set<Point>)
    requires Frontier(mask, rest + [point], taken)
    requires !InGrid(point, mask.Length0, mask.Length1) || !mask[point.row, point.col]
    ensures Frontier(mask, rest, taken)
  {
    forall p, q | p in taken && q in Neighbours(p)
      ensures Covered(mask, rest, q)
    {
      assert Covered(mask, rest + [point], q);
    }
  }

  /**
   * `mask[point[0], point[1]] = False` for a live cell: only that bit changes, the mask is
   * then true exactly on the nonzero cells outside `taken + {point}`, and once the cell's
   * neighbours are pushed the frontier holds again.
   */
  method ClearCell(frame: array2<real>, mask: array2<bool>, point: Point,
                   ghost rest: seq<Point>, ghost taken: set<Point>)
    requires mask.Length0 == frame.Length0 && mask.Length1 == frame.Length1
    requires InGrid(point, mask.Length0, mask.Length1) && mask[point.row, point.col]
    requires MaskInv(frame, mask, taken)
    requires Frontier(mask, rest + [point], taken)
    modifies mask
    ensures forall r, c :: 0 <= r < mask.Length0 && 0 <= c < mask.Length1 ==>
              mask[r, c] == if r == point.row && c == point.col then false else old(mask[r, c])
    ensures MaskInv(frame, mask, taken + {point})
    ensures Frontier(mask, rest + Neighbours(point), taken + {point})
  {
    mask[point.row, point.col] := false;
    forall p, q | p in taken + {point} && q in Neighbours(p)
      ensures Covered(mask, rest + Neighbours(point), q)
    {
      if p != point && InGrid(q, mask.Length0, mask.Length1) && mask[q.row, q.col] {
        assert old(Covered(mask, rest + [point], q));
        assert q in rest;
      }
    }
  }

  /** Once the stack is empty, the taken cells are closed. */
  lemma FrontierClosed(frame: array2<real>, mask: array2<bool>, taken: set<Point>)
    requires mask.Length0 == frame.Length0 && mask.Length1 == frame.Length1
    requires MaskInv(frame, mask, taken) && Frontier(mask, [], taken)
    ensures Closed(frame, taken)
  {
    forall p, q | p in taken && q in Neighbours(p)
      ensures Settled(frame, taken, q)
    {
      assert Covered(mask, [], q);
    }
  }

  /**
   * `maxGabor` as the DFS computes it, `max(0, largest value of the component)`: never
   * negative, at least every value of the component, and attained by one of them unless 0.
   */
  ghost predicate ComponentMax(frame: array2<real>, c: Component)
    reads frame
  {
    0.0 <= c.maxGabor &&
    (forall p :: p in c.points ==> InGrid(p, frame.Length0, frame.Length1) && frame[p.row, p.col] <= c.maxGabor) &&
    (c.maxGabor == 0.0 ||
     exists p :: p in c.points && InGrid(p, frame.Length0, frame.Length1) && frame[p.row, p.col] == c.maxGabor)
  }

  /** Every point of every component. */
  ghost function AllPoints(components: seq<Component>): set<Point> {
    set k, i | 0 <= k < |components| && 0 <= i < |components[k].points| :: components[k].points[i]
  }

  /** No grid cell belongs to two components, or twice to one. */
  predicate PairwiseDisjoint(components: seq<Component>) {
    forall k1, i1, k2, i2 ::
      0 <= k1 < |components| && 0 <= i1 < |components[k1].points| &&
      0 <= k2 < |components| && 0 <= i2 < |components[k2].points| &&
      (k1 != k2 || i1 != i2)
      ==> components[k1].points[i1] != components[k2].points[i2]
  }

  lemma AppendComponent(components: seq<Component>, c: Component)
    requires PairwiseDisjoint(components) && Distinct(c.points)
    requires forall p :: p in c.points ==> p !in AllPoints(components)
    ensures PairwiseDisjoint(components + [c])
    ensures AllPoints(components + [c]) == AllPoints(components) + set p | p in c.points
  {
    var cs := components + [c];
    var n := |components|;
    forall k1, i1, k2, i2 |
      0 <= k1 < |cs| && 0 <= i1 < |cs[k1].points| &&
      0 <= k2 < |cs| && 0 <= i2 < |cs[k2].points| && (k1 != k2 || i1 != i2)
      ensures cs[k1].points[i1] != cs[k2].points[i2]
    {
      if k1 == n && k2 < n {
        assert cs[k2].points[i2] in AllPoints(components);
        assert cs[k1].points[i1] in c.points;
      } else if k2 == n && k1 < n {
        assert cs[k1].points[i1] in AllPoints(components);
        assert cs[k2].points[i2] in c.points;
      }
    }
    forall p | p in AllPoints(cs)
      ensures p in AllPoints(components) + set p | p in c.points
    {
      var k, i :| 0 <= k < |cs| && 0 <= i < |cs[k].points| && cs[k].points[i] == p;
      if k < n {
        assert components[k].points[i] == p;
      }
    }
    forall p | p in AllPoints(components) + set p | p in c.points
      ensures p in AllPoints(cs)
    {
      if p in AllPoints(components) {
        var k, i :| 0 <= k < n && 0 <= i < |components[k].points| && components[k].points[i] == p;
        assert cs[k].points[i] == p;
      } else {
        var i :| 0 <= i < |c.points| && c.points[i] == p;
        assert cs[n].points[i] == p;
      }
    }
  }

  /**
   * The seed loop of `get_components_dfs` on an already thresholded frame: the mask starts
   * as `frame.astype(bool)` and a flood fill runs from every seed in row-major order, keeping
   * the non-empty components. Afterwards no seeds give no components; each component is
   * non-empty; no cell lies in two components, or twice in one; every component cell is a
   * nonzero cell; no nonzero neighbour of a component cell is left outside all components;
   * every nonzero seed is in some component; and `maxGabor` is `max(0, largest value)`.
   */
  method CollectComponents(frame: array2<real>, seedMask: seq<seq<bool>>) returns (components: seq<Component>)
    requires IsGrid(seedMask, frame.Length0, frame.Length1)
    ensures ArgWhere(seedMask) == [] ==> components == []
    ensures forall k :: 0 <= k < |components| ==> |components[k].points| > 0
    ensures PairwiseDisjoint(components)
    ensures forall p :: p in AllPoints(components) ==>
              InGrid(p, frame.Length0, frame.Length1) && frame[p.row, p.col] != 0.0
    ensures Closed(frame, AllPoints(components))
    ensures forall r, c | 0 <= r < frame.Length0 && 0 <= c < frame.Length1 &&
                          seedMask[r][c] && frame[r, c] != 0.0 :: Point(r, c) in AllPoints(components)
    ensures forall k :: 0 <= k < |components| ==> ComponentMax(frame, components[k])
    ensures forall k :: 0 <= k < |components| ==> SeededRegion(frame, seedMask, components[k].points)
  {
    var seeds := ArgWhere(seedMask);
    if |seeds| == 0 {
      NoSeeds(frame, seedMask);
      return [];
    }
    var mask := NonzeroMask(frame);
    components := [];
    ghost var taken: set<Point> := {};
    ghost var origin: seq<nat> := [];
    for i := 0 to |seeds|
      invariant Collected(frame, mask, components, taken)
      invariant forall j :: 0 <= j < i ==> SeedTaken(frame, seeds[j], taken)
      invariant FromSeeds(frame, seeds, components, origin)
    {
      components, taken, origin := AddSeed(frame, mask, components, seeds[i], taken, seeds, i, origin);
    }
    SeedsTaken(frame, seedMask, taken);
    FromSeedsDone(frame, seedMask, components, origin);
  }

  /** Component `k` is the connected region of the seed `seeds[origin[k]]`. */
  ghost predicate FromSeeds(frame: array2<real>, seeds: seq<Point>, components: seq<Component>, origin: seq<nat>)
    reads frame
    decreases |components|
  {
    |origin| == |components| &&
    (|components| == 0 ||
     (FromSeeds(frame, seeds, components[..|components| - 1], origin[..|origin| - 1]) &&
      origin[|origin| - 1] < |seeds| &&
      RegionOf(frame, {}, seeds[origin[|origin| - 1]], components[|components| - 1].points)))
  }

  /** A seed either adds nothing or appends the region of that seed. */
  lemma FromSeedsStep(frame: array2<real>, seeds: seq<Point>, i: nat, before: seq<Component>, after: seq<Component>,
                      origin: seq<nat>)
    requires i < |seeds| && FromSeeds(frame, seeds, before, origin)
    requires after == before ||
             (|after| == |before| + 1 && after[..|before|] == before &&
              RegionOf(frame, {}, seeds[i], after[|before|].points))
    ensures FromSeeds(frame, seeds, after, if |after| == |before| then origin else origin + [i])
  {
    if |after| != |before| {
      assert (origin + [i])[..|origin|] == origin;
    }
  }

  /** After all the seeds of `np.argwhere(seedMask)`, each component is a seeded region. */
  lemma {:induction false} FromSeedsDone(frame: array2<real>, seedMask: seq<seq<bool>>, components: seq<Component>,
                                         origin: seq<nat>)
    requires FromSeeds(frame, ArgWhere(seedMask), components, origin)
    ensures forall k :: 0 <= k < |components| ==> SeededRegion(frame, seedMask, components[k].points)
    decreases |components|
  {
    if |components| > 0 {
      var n := |components| - 1;
      FromSeedsDone(frame, seedMask, components[..n], origin[..n]);
      var s := ArgWhere(seedMask)[origin[n]];
      ArgWhereSeed(seedMask, origin[n]);
      assert IsSeed(seedMask, s) && RegionOf(frame, {}, s, components[n].points);
      forall k | 0 <= k < |components|
        ensures SeededRegion(frame, seedMask, components[k].points)
      {
        if k < n {
          assert components[k] == components[..n][k];
        }
      }
    }
  }

  /** Every coordinate `np.argwhere` lists is set in the mask. */
  lemma ArgWhereSeed(seedMask: seq<seq<bool>>, j: nat)
    requires j < |ArgWhere(seedMask)|
    ensures IsSeed(seedMask, ArgWhere(seedMask)[j])
  {
    ArgWhereSpec(seedMask);
  }

  /** `frame.astype(bool)`: a fresh mask, true exactly on the nonzero cells. */
  method NonzeroMask(frame: array2<real>) returns (mask: array2<bool>)
    ensures fresh(mask)
    ensures Collected(frame, mask, [], {})
  {
    mask := new bool[frame.Length0, frame.Length1]((r, c) reads frame
      requires 0 <= r < frame.Length0 && 0 <= c < frame.Length1 => frame[r, c] != 0.0);
    assert AllPoints([]) == {};
  }

  /** A seed that is a nonzero cell of the grid has been taken. */
  predicate SeedTaken(frame: array2<real>, s: Point, taken: set<Point>)
    reads frame
  {
    InGrid(s, frame.Length0, frame.Length1) && frame[s.row, s.col] != 0.0 ==> s in taken
  }

  /** Without seeds no cell of the mask is set. */
  lemma NoSeeds(frame: array2<real>, seedMask: seq<seq<bool>>)
    requires IsGrid(seedMask, frame.Length0, frame.Length1) && ArgWhere(seedMask) == []
    ensures forall r, c | 0 <= r < frame.Length0 && 0 <= c < frame.Length1 :: !seedMask[r][c]
  {
    ArgWhereSpec(seedMask);
    forall r, c | 0 <= r < frame.Length0 && 0 <= c < frame.Length1
      ensures !seedMask[r][c]
    {
      assert Point(r, c) !in ArgWhere(seedMask);
    }
  }

  /** Once every seed of `np.argwhere(seedMask)` is taken, every nonzero seed cell is. */
  lemma SeedsTaken(frame: array2<real>, seedMask: seq<seq<bool>>, taken: set<Point>)
    requires IsGrid(seedMask, frame.Length0, frame.Length1)
    requires forall j :: 0 <= j < |ArgWhere(seedMask)| ==> SeedTaken(frame, ArgWhere(seedMask)[j], taken)
    ensures forall r, c | 0 <= r < frame.Length0 && 0 <= c < frame.Length1 &&
                          seedMask[r][c] && frame[r, c] != 0.0 :: Point(r, c) in taken
  {
    ArgWhereSpec(seedMask);
    var seeds := ArgWhere(seedMask);
    forall r, c | 0 <= r < frame.Length0 && 0 <= c < frame.Length1 && seedMask[r][c] && frame[r, c] != 0.0
      ensures Point(r, c) in taken
    {
      assert Point(r, c) in seeds;
      var j :| 0 <= j < |seeds| && seeds[j] == Point(r, c);
      assert SeedTaken(frame, seeds[j], taken);
    }
  }

  /**
   * What the seed loop keeps: the mask is true exactly on the nonzero cells outside the
   * components, the components are closed, non-empty, pairwise disjoint, made of nonzero
   * in-grid cells, and carry their `maxGabor`.
   */
  ghost predicate Collected(frame: array2<real>, mask: array2<bool>, components: seq<Component>, taken: set<Point>)
    reads frame, mask
  {
    mask.Length0 == frame.Length0 && mask.Length1 == frame.Length1 &&
    MaskInv(frame, mask, taken) && Tally(frame, components, taken)
  }

  /** The part of `Collected` that does not depend on the mask. */
  ghost predicate Tally(frame: array2<real>, components: seq<Component>, taken: set<Point>)
    reads frame
  {
    Closed(frame, taken) &&
    taken == AllPoints(components) &&
    PairwiseDisjoint(components) &&
    (forall p :: p in taken ==> InGrid(p, frame.Length0, frame.Length1) && frame[p.row, p.col] != 0.0) &&
    (forall k :: 0 <= k < |components| ==> |components[k].points| > 0) &&
    (forall k :: 0 <= k < |components| ==> ComponentMax(frame, components[k]))
  }

  /**
   * One iteration of the seed loop: flood from `start` and keep the component if it is not
   * empty. The cells taken only grow, and a nonzero in-grid seed is taken afterwards.
   */
  method AddSeed(frame: array2<real>, mask: array2<bool>, components: seq<Component>, start: Point,
                 ghost taken: set<Point>, ghost seeds: seq<Point>, ghost i: nat, ghost origin: seq<nat>)
    returns (result: seq<Component>, ghost takenAfter: set<Point>, ghost originAfter: seq<nat>)
    requires Collected(frame, mask, components, taken)
    requires i < |seeds| && seeds[i] == start && FromSeeds(frame, seeds, components, origin)
    modifies mask
    ensures FromSeeds(frame, seeds, result, originAfter)
    ensures Collected(frame, mask, result, takenAfter)
    ensures taken <= takenAfter
    ensures SeedTaken(frame, start, takenAfter)
    ensures forall s :: SeedTaken(frame, s, taken) ==> SeedTaken(frame, s, takenAfter)
    ensures result == components ||
            (|result| == |components| + 1 && result[..|components|] == components &&
             RegionOf(frame, {}, start, result[|components|].points))
  {
    var component, maxGabor;
    component, maxGabor, takenAfter := Flood(frame, mask, start, taken);
    result := components;
    if |component| > 0 {
      RegionFromScratch(frame, taken, start, component);
      TallyAppend(frame, components, taken, component, maxGabor, takenAfter);
      result := components + [Component(component, maxGabor)];
      assert result[..|components|] == components;
    } else {
      assert takenAfter == taken;
    }
    FromSeedsStep(frame, seeds, i, components, result, origin);
    originAfter := if |result| == |components| then origin else origin + [i];
  }

  /** Recording a fresh closed component, as `Flood` returns it, keeps the tally. */
  lemma TallyAppend(frame: array2<real>, components: seq<Component>, taken: set<Point>,
                    component: seq<Point>, maxGabor: real, takenAfter: set<Point>)
    requires Tally(frame, components, taken)
    requires takenAfter == taken + set p | p in component
    requires Closed(frame, takenAfter) && Distinct(component) && |component| > 0
    requires forall p :: p in component ==>
               InGrid(p, frame.Length0, frame.Length1) && p !in taken &&
               frame[p.row, p.col] != 0.0 && frame[p.row, p.col] <= maxGabor
    requires 0.0 <= maxGabor
    requires maxGabor == 0.0 ||
             exists p :: p in component && InGrid(p, frame.Length0, frame.Length1) && frame[p.row, p.col] == maxGabor
    ensures Tally(frame, components + [Component(component, maxGabor)], takenAfter)
  {
    var c := Component(component, maxGabor);
    AppendComponent(components, c);
    assert ComponentMax(frame, c);
    forall k | 0 <= k < |components| + 1
      ensures |(components + [c])[k].points| > 0 && ComponentMax(frame, (components + [c])[k])
    {
      if k < |components| {
        assert (components + [c])[k] == components[k];
      }
    }
  }

  /**
   * Around a closed set of taken cells, the cells reachable from an untaken seed are the
   * same whether or not the walk must avoid the taken set.
   */
  lemma RegionFromScratch(frame: array2<real>, taken: set<Point>, start: Point, points: seq<Point>)
    requires Closed(frame, taken) && start !in taken
    requires RegionOf(frame, taken, start, points)
    ensures RegionOf(frame, {}, start, points)
  {
    forall p
      ensures p in points <==> Reachable(frame, {}, start, p)
    {
      ReachableAvoidingClosed(frame, taken, start, p);
    }
  }

  /**
   * `points` are exactly the cells joined to some seed by a walk over nonzero
   * 4-neighbouring cells: the connected region of that seed.
   */
  ghost predicate SeededRegion(frame: array2<real>, seedMask: seq<seq<bool>>, points: seq<Point>)
    reads frame
  {
    exists s :: IsSeed(seedMask, s) && RegionOf(frame, {}, s, points)
  }

  /** `(s.row, s.col)` is set in the seed mask. */
  predicate IsSeed(seedMask: seq<seq<bool>>, s: Point) {
    0 <= s.row < |seedMask| && 0 <= s.col < |seedMask[s.row]| && seedMask[s.row][s.col]
  }

  /**
   * `get_components_dfs(frame, init_mask, thresh)` with the seed mask `detect_peaks` would
   * compute supplied as `seedMask`. The frame is thresholded in place first (also when there
   * are no seeds), then the components are collected from it, so every component cell is at
   * or above the threshold.
   */
  method GetComponentsDfs(frame: array2<real>, seedMask: seq<seq<bool>>, thresh: real)
    returns (components: seq<Component>)
    requires IsGrid(seedMask, frame.Length0, frame.Length1)
    modifies frame
    ensures forall r, c :: 0 <= r < frame.Length0 && 0 <= c < frame.Length1 ==>
              frame[r, c] == if old(frame[r, c]) < thresh then 0.0 else old(frame[r, c])
    ensures ArgWhere(seedMask) == [] ==> components == []
    ensures forall k :: 0 <= k < |components| ==> |components[k].points| > 0
    ensures PairwiseDisjoint(components)
    ensures forall p :: p in AllPoints(components) ==>
              InGrid(p, frame.Length0, frame.Length1) &&
              frame[p.row, p.col] != 0.0 && frame[p.row, p.col] >= thresh
    ensures Closed(frame, AllPoints(components))
    ensures forall r, c | 0 <= r < frame.Length0 && 0 <= c < frame.Length1 &&
                          seedMask[r][c] && frame[r, c] != 0.0 :: Point(r, c) in AllPoints(components)
    ensures forall k :: 0 <= k < |components| ==> ComponentMax(frame, components[k])
    ensures forall k :: 0 <= k < |components| ==> SeededRegion(frame, seedMask, components[k].points)
  {
    ZeroBelow(frame, thresh);
    components := CollectComponents(frame, seedMask);
  }
}
