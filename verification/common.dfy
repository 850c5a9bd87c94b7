/**
 * Values shared by the tracker model: the Python exceptions the modelled code can raise,
 * grid coordinates as `np.argwhere` produces them, bounding boxes, and the extrema of a
 * non-empty sequence of reals (`np.max`, `np.min`, Python's `max`/`min`).
 */
module Common {

  /** The exceptions the modelled Python code raises on its error paths. */
  datatype PyError = ValueError | ZeroDivisionError | IndexError

  datatype Result<+T> = Ok(value: T) | Err(error: PyError)

  /** A grid coordinate: `row` indexes the first array axis, `col` the second. */
  datatype Point = Point(row: int, col: int)

  /** An axis-aligned box `[x_min, y_min, x_max, y_max]`; x runs along columns, y along rows. */
  datatype Box<T> = Box(xMin: T, yMin: T, xMax: T, yMax: T)

  /** A 2D array with `rows` rows of `cols` entries each (numpy arrays are rectangular). */
  ghost predicate IsGrid<T>(g: seq<seq<T>>, rows: nat, cols: nat) {
    |g| == rows && forall r :: 0 <= r < rows ==> |g[r]| == cols
  }

  predicate InGrid(p: Point, rows: int, cols: int) {
    0 <= p.row < rows && 0 <= p.col < cols
  }

  function Max(a: real, b: real): real { if a < b then b else a }

  function Min(a: real, b: real): real { if b < a then b else a }

  /** The sign of a product with a positive factor is the sign of the other factor. */
  lemma ProductSign(a: real, b: real)
    requires b > 0.0
    ensures a < 0.0 ==> a * b < 0.0
    ensures a > 0.0 ==> a * b > 0.0
    ensures a == 0.0 <==> a * b == 0.0
  {
  }

  /** The largest element of a non-empty sequence. */
  function MaxOf(s: seq<real>): (m: real)
    requires |s| > 0
    ensures m in s
    ensures forall i :: 0 <= i < |s| ==> s[i] <= m
  {
    if |s| == 1 then s[0] else Max(MaxOf(s[..|s| - 1]), s[|s| - 1])
  }

  /** The smallest element of a non-empty sequence. */
  function MinOf(s: seq<real>): (m: real)
    requires |s| > 0
    ensures m in s
    ensures forall i :: 0 <= i < |s| ==> m <= s[i]
  {
    if |s| == 1 then s[0] else Min(MinOf(s[..|s| - 1]), s[|s| - 1])
  }

  /** Row-major order on grid coordinates, the order in which `np.argwhere` lists them. */
  predicate Before(p: Point, q: Point) {
    p.row < q.row || (p.row == q.row && p.col < q.col)
  }

  predicate RowMajorSorted(ps: seq<Point>) {
    forall i, j :: 0 <= i < j < |ps| ==> Before(ps[i], ps[j])
  }

  /** The coordinates `(r, c)`, `c >= from`, at which row `r` of a mask is true, left to right. */
  function ArgWhereRow(row: seq<bool>, r: int, from: nat): seq<Point>
    decreases |row| - from
  {
    if from >= |row| then []
    else (if row[from] then [Point(r, from)] else []) + ArgWhereRow(row, r, from + 1)
  }

  function ArgWhereFrom(mask: seq<seq<bool>>, from: nat): seq<Point>
    decreases |mask| - from
  {
    if from >= |mask| then []
    else ArgWhereRow(mask[from], from, 0) + ArgWhereFrom(mask, from + 1)
  }

  /** `np.argwhere(mask)` for a 2D boolean mask: the true coordinates in row-major order. */
  function ArgWhere(mask: seq<seq<bool>>): seq<Point> {
    ArgWhereFrom(mask, 0)
  }

  lemma {:induction false} ArgWhereRowSpec(row: seq<bool>, r: int, from: nat)
    ensures forall p :: p in ArgWhereRow(row, r, from) <==>
                          p.row == r && from <= p.col < |row| && row[p.col]
    ensures RowMajorSorted(ArgWhereRow(row, r, from))
    decreases |row| - from
  {
    if from < |row| {
      ArgWhereRowSpec(row, r, from + 1);
      var rest := ArgWhereRow(row, r, from + 1);
      var head: seq<Point> := if row[from] then [Point(r, from)] else [];
      assert ArgWhereRow(row, r, from) == head + rest;
      forall i, j | 0 <= i < j < |head + rest|
        ensures Before((head + rest)[i], (head + rest)[j])
      {
        if i >= |head| {
          assert (head + rest)[i] == rest[i - |head|];
        } else {
          assert (head + rest)[j] == rest[j - |head|];
          assert rest[j - |head|] in rest;
        }
      }
    }
  }

  lemma {:induction false} ArgWhereFromSpec(mask: seq<seq<bool>>, from: nat)
    ensures forall p :: p in ArgWhereFrom(mask, from) <==>
                          from <= p.row < |mask| && 0 <= p.col < |mask[p.row]| && mask[p.row][p.col]
    ensures RowMajorSorted(ArgWhereFrom(mask, from))
    decreases |mask| - from
  {
    if from < |mask| {
      ArgWhereFromSpec(mask, from + 1);
      ArgWhereRowSpec(mask[from], from, 0);
      var head := ArgWhereRow(mask[from], from, 0);
      var rest := ArgWhereFrom(mask, from + 1);
      assert ArgWhereFrom(mask, from) == head + rest;
      forall i, j | 0 <= i < j < |head + rest|
        ensures Before((head + rest)[i], (head + rest)[j])
      {
        if i >= |head| {
          assert (head + rest)[i] == rest[i - |head|];
        } else if j >= |head| {
          assert head[i] in head;
          assert (head + rest)[j] == rest[j - |head|];
          assert rest[j - |head|] in rest;
        }
      }
    }
  }

  /** `np.argwhere` lists exactly the true cells of the mask, each once, in row-major order. */
  lemma ArgWhereSpec(mask: seq<seq<bool>>)
    ensures forall p :: p in ArgWhere(mask) <==>
                          0 <= p.row < |mask| && 0 <= p.col < |mask[p.row]| && mask[p.row][p.col]
    ensures RowMajorSorted(ArgWhere(mask))
  {
    ArgWhereFromSpec(mask, 0);
  }

  /** A row-major sorted list holds no coordinate twice. */
  lemma SortedDistinct(ps: seq<Point>, i: nat, j: nat)
    requires RowMajorSorted(ps)
    requires i < |ps| && j < |ps| && ps[i] == ps[j]
    ensures i == j
  {
  }
}
