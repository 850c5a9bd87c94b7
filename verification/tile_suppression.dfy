/**
 * The optional "column max" step of `GaborTracker.getGaborFilterValue`: the convolution
 * output is cut into 64x64 tiles (clipped at the borders) and, inside every tile, each row
 * keeps only the entries equal to that row's maximum within the tile; every other entry is
 * overwritten with 0, in place.
 *
 * The tensor is `(1, channels, rows, cols)`; the model drops the batch axis of size 1 and
 * works on an `array3` indexed `[channel, row, col]`.
 */
module TileSuppression {
  import opened Common

  /** Edge length of a tile (`range(0, dim, 64)`, `min(i + 64, dim)`). */
  const TileSize: nat := 64

  /** Start of the tile that holds index `c`. */
  function TileStart(c: nat): (s: nat)
    ensures s % TileSize == 0
    ensures s <= c < s + TileSize
  {
    c / TileSize * TileSize
  }

  /** `min(start + 64, dim)`: where the tile starting at `start` ends, clipped at the border. */
  function TileEnd(start: nat, dim: nat): (e: nat)
    ensures e <= dim
    ensures start < dim ==> start < e
  {
    if start + TileSize < dim then start + TileSize else dim
  }

  /**
   * The tiles along one axis, starting at the multiples of 64 below `dim`, partition
   * `[0, dim)`: every index lies in the tile `TileStart(c)` and in no other.
   */
  lemma TilesPartition(c: nat, dim: nat, j: nat)
    requires c < dim
    requires j % TileSize == 0
    ensures TileStart(c) <= c < TileEnd(TileStart(c), dim)
    ensures j <= c < TileEnd(j, dim) <==> j == TileStart(c)
  {
    if j <= c < TileEnd(j, dim) {
      var q := j / TileSize;
      assert j == q * TileSize;
      assert c / TileSize == q;
    }
  }

  /** `window * (window == maxes)`: an entry equal to the maximum survives, any other becomes 0. */
  function Keep(v: real, m: real): real {
    if v == m then v else 0.0
  }

  /** The row segment of `row` that shares a tile with column `c`. */
  function Segment(row: seq<real>, c: nat): (seg: seq<real>)
    requires c < |row|
    ensures |seg| > 0
  {
    row[TileStart(c)..TileEnd(TileStart(c), |row|)]
  }

  /** What column `c` of a row holds after suppression. */
  function SuppressedAt(row: seq<real>, c: nat): real
    requires c < |row|
  {
    Keep(row[c], MaxOf(Segment(row, c)))
  }

  function SuppressRow(row: seq<real>): (out: seq<real>)
    ensures |out| == |row|
  {
    seq(|row|, c requires 0 <= c < |row| => SuppressedAt(row, c))
  }

  /** The whole `(channel, row, col)` tensor after suppression. */
  function SuppressAll(maps: seq<seq<seq<real>>>): (out: seq<seq<seq<real>>>)
    ensures |out| == |maps|
    ensures forall k :: 0 <= k < |maps| ==> |out[k]| == |maps[k]|
  {
    seq(|maps|, k requires 0 <= k < |maps| =>
      seq(|maps[k]|, r requires 0 <= r < |maps[k]| => SuppressRow(maps[k][r])))
  }

  /**
   * Every entry either keeps its value or becomes 0, and it keeps its value exactly when no
   * entry of its row segment is larger, so ties for the maximum are all kept.
   */
  lemma SuppressedAtSpec(row: seq<real>, c: nat)
    requires c < |row|
    ensures SuppressedAt(row, c) == row[c] || SuppressedAt(row, c) == 0.0
    ensures (forall d :: TileStart(c) <= d < TileEnd(TileStart(c), |row|) ==> row[d] <= row[c])
              ==> SuppressedAt(row, c) == row[c]
    ensures (exists d :: TileStart(c) <= d < TileEnd(TileStart(c), |row|) && row[c] < row[d])
              ==> SuppressedAt(row, c) == 0.0
  {
    var lo, hi := TileStart(c), TileEnd(TileStart(c), |row|);
    var seg := Segment(row, c);
    var m := MaxOf(seg);
    assert row[c] == seg[c - lo];
    if forall d :: lo <= d < hi ==> row[d] <= row[c] {
      var i :| 0 <= i < |seg| && seg[i] == m;
      assert row[lo + i] == seg[i];
    } else {
      var d :| lo <= d < hi && row[c] < row[d];
      assert seg[d - lo] == row[d];
    }
  }

  /**
   * Every row segment still holds its maximum after suppression, at some column where the
   * maximum was, and every other column of the segment holds either that maximum or 0.
   */
  lemma SegmentKeepsMax(row: seq<real>, j: nat)
    requires j < |row| && j % TileSize == 0
    ensures var hi := TileEnd(j, |row|);
            var m := MaxOf(row[j..hi]);
            (exists c :: j <= c < hi && row[c] == m && SuppressRow(row)[c] == m) &&
            (forall c :: j <= c < hi ==> SuppressRow(row)[c] == m || SuppressRow(row)[c] == 0.0)
  {
    var hi := TileEnd(j, |row|);
    var seg := row[j..hi];
    var m := MaxOf(seg);
    forall c | j <= c < hi
      ensures SuppressRow(row)[c] == Keep(row[c], m)
    {
      TilesPartition(c, |row|, j);
      assert Segment(row, c) == seg;
    }
    var i :| 0 <= i < |seg| && seg[i] == m;
    assert row[j + i] == m;
  }

  /** `v` has `channels` channels of `rows` rows of `cols` entries. */
  ghost predicate Shaped(v: seq<seq<seq<real>>>, channels: nat, rows: nat, cols: nat) {
    |v| == channels &&
    (forall k :: 0 <= k < channels ==> |v[k]| == rows) &&
    (forall k, r :: 0 <= k < channels && 0 <= r < rows ==> |v[k][r]| == cols)
  }

  /** The tensor as nested sequences, `[channel][row][col]`. */
  ghost function Values(g: array3<real>): (v: seq<seq<seq<real>>>)
    reads g
    ensures Shaped(v, g.Length0, g.Length1, g.Length2)
    ensures forall k, r, c :: 0 <= k < g.Length0 && 0 <= r < g.Length1 && 0 <= c < g.Length2 ==>
              v[k][r][c] == g[k, r, c]
  {
    seq(g.Length0, k requires 0 <= k < g.Length0 reads g =>
      seq(g.Length1, r requires 0 <= r < g.Length1 reads g =>
        seq(g.Length2, c requires 0 <= c < g.Length2 reads g => g[k, r, c])))
  }

  /** Two shaped tensors that agree entry by entry are equal. */
  lemma ValuesEqual(v: seq<seq<seq<real>>>, w: seq<seq<seq<real>>>, rows: nat, cols: nat)
    requires Shaped(v, |v|, rows, cols) && Shaped(w, |v|, rows, cols)
    requires forall k, r, c :: 0 <= k < |v| && 0 <= r < rows && 0 <= c < cols ==> v[k][r][c] == w[k][r][c]
    ensures v == w
  {
    forall k | 0 <= k < |v| ensures v[k] == w[k] {
      forall r | 0 <= r < rows ensures v[k][r] == w[k][r] {
      }
    }
  }

  /** Extending a segment by one entry on the right takes the larger of its maximum and that entry. */
  lemma MaxOfExtend(row: seq<real>, lo: nat, c: nat)
    requires lo < c < |row|
    ensures MaxOf(row[lo..c + 1]) == Max(MaxOf(row[lo..c]), row[c])
  {
    assert row[lo..c + 1][..c - lo] == row[lo..c];
  }

  /** `window.max(dim=3)` for one row of one channel of a tile: the maximum of `[lo, hi)`. */
  method SegmentMax(g: array3<real>, k: nat, r: nat, lo: nat, hi: nat, ghost row: seq<real>) returns (m: real)
    requires k < g.Length0 && r < g.Length1 && lo < hi <= g.Length2 == |row|
    requires forall c :: lo <= c < hi ==> g[k, r, c] == row[c]
    ensures m == MaxOf(row[lo..hi])
  {
    m := g[k, r, lo];
    var c := lo + 1;
    while c < hi
      invariant lo < c <= hi
      invariant m == MaxOf(row[lo..c])
    {
      MaxOfExtend(row, lo, c);
      var v := g[k, r, c];
      assert v == row[c];
      m := Max(m, v);
      c := c + 1;
    }
  }

  /**
   * One row segment `[lo, hi)` of one channel: find its maximum, then overwrite every entry
   * that is not equal to it with 0.
   */
  method SuppressSegment(g: array3<real>, k: nat, r: nat, lo: nat, hi: nat, ghost row: seq<real>)
    requires k < g.Length0 && r < g.Length1 && |row| == g.Length2
    requires lo % TileSize == 0 && lo < g.Length2 && hi == TileEnd(lo, g.Length2)
    requires forall c :: lo <= c < hi ==> g[k, r, c] == row[c]
    modifies g
    ensures forall c :: lo <= c < hi ==> g[k, r, c] == SuppressedAt(row, c)
    ensures forall k', r', c' :: 0 <= k' < g.Length0 && 0 <= r' < g.Length1 && 0 <= c' < g.Length2 &&
              !(k' == k && r' == r && lo <= c' < hi)
              ==> g[k', r', c'] == old(g[k', r', c'])
  {
    var m := SegmentMax(g, k, r, lo, hi, row);
    var c := lo;
    while c < hi
      invariant lo <= c <= hi
      invariant forall d :: lo <= d < c ==> g[k, r, d] == Keep(row[d], m)
      invariant forall d :: c <= d < hi ==> g[k, r, d] == row[d]
      invariant forall k', r', c' :: 0 <= k' < g.Length0 && 0 <= r' < g.Length1 && 0 <= c' < g.Length2 &&
                  !(k' == k && r' == r && lo <= c' < hi)
                  ==> g[k', r', c'] == old(g[k', r', c'])
    {
      g[k, r, c] := Keep(g[k, r, c], m);
      c := c + 1;
    }
    forall d | lo <= d < hi
      ensures Segment(row, d) == row[lo..hi]
    {
      TilesPartition(d, g.Length2, lo);
    }
  }

  /** One tile: rows `[i, iEnd)` by columns `[j, jEnd)`, across every channel. */
  method SuppressTile(g: array3<real>, i: nat, iEnd: nat, j: nat, jEnd: nat, ghost s: seq<seq<seq<real>>>)
    requires Shaped(s, g.Length0, g.Length1, g.Length2)
    requires i <= iEnd <= g.Length1
    requires j % TileSize == 0 && j < g.Length2 && jEnd == TileEnd(j, g.Length2)
    requires forall k, r, c :: 0 <= k < g.Length0 && i <= r < iEnd && j <= c < jEnd ==> g[k, r, c] == s[k][r][c]
    modifies g
    ensures forall k, r, c :: 0 <= k < g.Length0 && 0 <= r < g.Length1 && 0 <= c < g.Length2 ==>
              g[k, r, c] == if i <= r < iEnd && j <= c < jEnd then SuppressedAt(s[k][r], c) else old(g[k, r, c])
  {
    for k := 0 to g.Length0
      invariant forall k', r, c :: 0 <= k' < g.Length0 && 0 <= r < g.Length1 && 0 <= c < g.Length2 ==>
                  g[k', r, c] == if k' < k && i <= r < iEnd && j <= c < jEnd then SuppressedAt(s[k'][r], c)
                                 else old(g[k', r, c])
    {
      for r := i to iEnd
        invariant forall k', r', c :: 0 <= k' < g.Length0 && 0 <= r' < g.Length1 && 0 <= c < g.Length2 ==>
                    g[k', r', c] == if (k' < k || (k' == k && r' < r)) && i <= r' < iEnd && j <= c < jEnd
                                    then SuppressedAt(s[k'][r'], c) else old(g[k', r', c])
      {
        SuppressSegment(g, k, r, j, jEnd, s[k][r]);
      }
    }
  }

  /**
   * The tile loop `for i in range(0, rows, 64): for j in range(0, cols, 64): ...` with its
   * in-place overwrite: afterwards the tensor is the suppression of what it held before.
   */
  method SuppressColumnMax(g: array3<real>)
    modifies g
    ensures Values(g) == SuppressAll(old(Values(g)))
  {
    ghost var s := Values(g);
    var i := 0;
    while i < g.Length1
      invariant i % TileSize == 0
      invariant forall k, r, c :: 0 <= k < g.Length0 && 0 <= r < g.Length1 && 0 <= c < g.Length2 ==>
                  g[k, r, c] == if r < i then SuppressedAt(s[k][r], c) else s[k][r][c]
    {
      var iEnd := TileEnd(i, g.Length1);
      var j := 0;
      while j < g.Length2
        invariant j % TileSize == 0
        invariant forall k, r, c :: 0 <= k < g.Length0 && 0 <= r < g.Length1 && 0 <= c < g.Length2 ==>
                    g[k, r, c] == if r < i || (i <= r < iEnd && c < j) then SuppressedAt(s[k][r], c) else s[k][r][c]
      {
        var jEnd := TileEnd(j, g.Length2);
        SuppressTile(g, i, iEnd, j, jEnd, s);
        j := j + TileSize;
      }
      i := i + TileSize;
    }
    ValuesEqual(Values(g), SuppressAll(s), g.Length1, g.Length2);
  }
}
