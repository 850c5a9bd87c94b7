/**
 * `pipeline/examples/gabor_visualizer.py`, the driver that feeds an event stream to the
 * tracker: the int8 polarity conversion, the spatial flip of the filter bank, the per-tick
 * binning of events into a clamped frame, and the frame number reported for each tick.
 */
module GaborVisualizer {
  import opened Common
  import opened FrameWindow
  import GaborTracker

  // ---------------------------------------------------------------------------------------
  // polarity: pol = pol * 2 - 1 on an int8 array

  /** The int8 value congruent to `v` modulo 256 (numpy's wrap-around on int8 arrays). */
  function Int8(v: int): (w: int)
    ensures -128 <= w < 128
    ensures (w - v) % 256 == 0
    ensures -128 <= v < 128 ==> w == v
  {
    (v + 128) % 256 - 128
  }

  /** `pol * 2 - 1` for one stored int8 polarity: both steps wrap. */
  function PolaritySign(raw: int): (sign: int)
    requires -128 <= raw < 128
    ensures -128 <= sign < 128
  {
    Int8(Int8(raw * 2) - 1)
  }

  /**
   * The stored polarity bits 0 and 1 become -1 and +1. Whatever the byte, the result is the
   * int8 wrap of `2 * raw - 1` and therefore odd: no event is converted to polarity 0.
   */
  lemma PolaritySignSpec(raw: int)
    requires -128 <= raw < 128
    ensures raw == 0 ==> PolaritySign(raw) == -1
    ensures raw == 1 ==> PolaritySign(raw) == 1
    ensures PolaritySign(raw) == Int8(2 * raw - 1)
    ensures PolaritySign(raw) % 2 == 1
  {
    var a := Int8(raw * 2);
    var k := (a - raw * 2) / 256;
    assert a == raw * 2 + 256 * k;
    var w := PolaritySign(raw);
    var m := (w - (a - 1)) / 256;
    assert w == 2 * raw - 1 + 256 * (k + m);
    assert Int8(2 * raw - 1) == w by {
      var v := 2 * raw - 1;
      assert (v + 128) % 256 == (w + 128) % 256 by {
        assert w + 128 == v + 128 + 256 * (k + m);
      }
    }
    assert w % 2 == 1 by {
      assert w == 2 * (raw + 128 * (k + m) - 1) + 1;
    }
  }

  /** The converted polarities of the whole stream. */
  function Polarities(raw: seq<int>): (pols: seq<int>)
    requires forall k :: 0 <= k < |raw| ==> -128 <= raw[k] < 128
    ensures |pols| == |raw|
    ensures forall k :: 0 <= k < |raw| ==> pols[k] == PolaritySign(raw[k])
  {
    seq(|raw|, k requires 0 <= k < |raw| => PolaritySign(raw[k]))
  }

  // ---------------------------------------------------------------------------------------
  // filters.flip(2).flip(3)

  function Reverse<T>(s: seq<T>): (r: seq<T>)
    ensures |r| == |s|
    ensures forall i :: 0 <= i < |s| ==> r[i] == s[|s| - 1 - i]
  {
    seq(|s|, i requires 0 <= i < |s| => s[|s| - 1 - i])
  }

  lemma ReverseReverse<T>(s: seq<T>)
    ensures Reverse(Reverse(s)) == s
  {
  }

  /** One 2D slice with both axes reversed: `flip(2)` reverses the rows, `flip(3)` each row. */
  function FlipSlice(s: seq<seq<real>>): seq<seq<real>> {
    Reverse(seq(|s|, i requires 0 <= i < |s| => Reverse(s[i])))
  }

  /**
   * `filters.flip(2).flip(3)` on the `(32, 7, 9, 9)` bank: both spatial axes of every
   * temporal slice are reversed; the kernel axis and the temporal axis stay in place.
   */
  function FlipFilters(f: seq<seq<seq<seq<real>>>>): (flipped: seq<seq<seq<seq<real>>>>)
    ensures |flipped| == |f|
    ensures forall a :: 0 <= a < |f| ==> |flipped[a]| == |f[a]|
  {
    seq(|f|, a requires 0 <= a < |f| =>
      seq(|f[a]|, b requires 0 <= b < |f[a]| => FlipSlice(f[a][b])))
  }

  /**
   * The flip keeps the shape, keeps the temporal order, and moves entry `(i, j)` of a
   * `rows x cols` slice to `(rows-1-i, cols-1-j)`.
   */
  lemma FlipFiltersAt(f: seq<seq<seq<seq<real>>>>, a: int, b: int, rows: nat, cols: nat)
    requires 0 <= a < |f| && 0 <= b < |f[a]|
    requires |f[a][b]| == rows && forall i :: 0 <= i < rows ==> |f[a][b][i]| == cols
    ensures |FlipFilters(f)| == |f| && |FlipFilters(f)[a]| == |f[a]|
    ensures |FlipFilters(f)[a][b]| == rows
    ensures forall i, j :: 0 <= i < rows && 0 <= j < cols ==>
              |FlipFilters(f)[a][b][i]| == cols &&
              FlipFilters(f)[a][b][i][j] == f[a][b][rows - 1 - i][cols - 1 - j]
  {
  }

  lemma FlipSliceTwice(s: seq<seq<real>>)
    ensures FlipSlice(FlipSlice(s)) == s
  {
    var inner := seq(|s|, i requires 0 <= i < |s| => Reverse(s[i]));
    var once := Reverse(inner);
    var again := seq(|once|, i requires 0 <= i < |once| => Reverse(once[i]));
    forall i | 0 <= i < |s|
      ensures Reverse(again)[i] == s[i]
    {
      ReverseReverse(s[i]);
    }
  }

  /** Flipping twice gives the original bank back. */
  lemma FlipFiltersInvolution(f: seq<seq<seq<seq<real>>>>)
    ensures FlipFilters(FlipFilters(f)) == f
  {
    forall a, b | 0 <= a < |f| && 0 <= b < |f[a]|
      ensures FlipFilters(FlipFilters(f))[a][b] == f[a][b]
    {
      FlipSliceTwice(f[a][b]);
    }
    forall a | 0 <= a < |f|
      ensures FlipFilters(FlipFilters(f))[a] == f[a]
    {
    }
  }

  // ---------------------------------------------------------------------------------------
  // one tick: read events until t + dt, accumulate, clamp

  /** Where `while idx < len(ts) and ts[idx] < limit: idx += 1` stops when started at `from`. */
  function TickEnd(ts: seq<nat>, from: nat, limit: real): nat
    requires from <= |ts|
    decreases |ts| - from
  {
    if from < |ts| && (ts[from] as real) < limit then TickEnd(ts, from + 1, limit) else from
  }

  /**
   * The tick takes exactly the events from `from` up to the first one whose timestamp is not
   * below the limit, or to the end of the stream; if the first event is below the limit, at
   * least one event is taken.
   */
  lemma {:induction false} TickEndSpec(ts: seq<nat>, from: nat, limit: real)
    requires from <= |ts|
    ensures from <= TickEnd(ts, from, limit) <= |ts|
    ensures forall k :: from <= k < TickEnd(ts, from, limit) ==> (ts[k] as real) < limit
    ensures TickEnd(ts, from, limit) == |ts| || (ts[TickEnd(ts, from, limit)] as real) >= limit
    ensures from < |ts| && (ts[from] as real) < limit ==> from < TickEnd(ts, from, limit)
    decreases |ts| - from
  {
    if from < |ts| && (ts[from] as real) < limit {
      TickEndSpec(ts, from + 1, limit);
    }
  }

  /** The polarity accumulated in cell `(r, c)` by events `from .. stop - 1`. */
  function TickSum(xs: seq<int>, ys: seq<int>, pols: seq<int>, from: nat, stop: nat, r: int, c: int): int
    requires from <= stop <= |xs| && stop <= |ys| && stop <= |pols|
    decreases stop
  {
    if stop == from then 0
    else TickSum(xs, ys, pols, from, stop - 1, r, c) +
         (if ys[stop - 1] - 1 == r && xs[stop - 1] - 1 == c then pols[stop - 1] else 0)
  }

  /** A cell that no event of the tick addresses stays 0. */
  lemma {:induction false} TickSumUntouched(xs: seq<int>, ys: seq<int>, pols: seq<int>, from: nat, stop: nat, r: int, c: int)
    requires from <= stop <= |xs| && stop <= |ys| && stop <= |pols|
    requires forall k :: from <= k < stop ==> ys[k] - 1 != r || xs[k] - 1 != c
    ensures TickSum(xs, ys, pols, from, stop, r, c) == 0
    decreases stop
  {
    if stop > from {
      TickSumUntouched(xs, ys, pols, from, stop - 1, r, c);
    }
  }

  /** `torch.clamp(v, min=-1, max=1)`. */
  function Clamp(v: int): (w: int)
    ensures -1 <= w <= 1
    ensures -1 <= v <= 1 ==> w == v
    ensures v < -1 ==> w == -1
    ensures v > 1 ==> w == 1
  {
    if v < -1 then -1 else if v > 1 then 1 else v
  }

  /** The clamped frame of the events `from .. stop - 1`, `rows = max(y)` by `cols = max(x)`. */
  function TickFrame(xs: seq<int>, ys: seq<int>, pols: seq<int>, from: nat, stop: nat, rows: nat, cols: nat): (f: Frame)
    requires from <= stop <= |xs| && stop <= |ys| && stop <= |pols|
    ensures |f| == rows && forall r :: 0 <= r < rows ==> |f[r]| == cols
    ensures forall r, c :: 0 <= r < rows && 0 <= c < cols ==> -1 <= f[r][c] <= 1
  {
    seq(rows, r => seq(cols, c => Clamp(TickSum(xs, ys, pols, from, stop, r, c))))
  }

  /** The events are well-formed: parallel arrays, and 1-based coordinates inside the frame. */
  ghost predicate EventsInFrame(ts: seq<nat>, xs: seq<int>, ys: seq<int>, pols: seq<int>, rows: nat, cols: nat) {
    |xs| == |ts| && |ys| == |ts| && |pols| == |ts| &&
    forall k :: 0 <= k < |ts| ==> 1 <= ys[k] <= rows && 1 <= xs[k] <= cols
  }

  /**
   * Lines 58-72 for the tick starting at event `idx`: accumulate every event up to the first
   * one at or after `ts[idx] + dt` into a zero frame at `(y-1, x-1)`, then clamp. The tick
   * takes at least one event (the one at `idx`), never runs past the stream, and its frame
   * is `TickFrame` of exactly those events.
   */
  method BinTick(ts: seq<nat>, xs: seq<int>, ys: seq<int>, pols: seq<int>, idx: nat, dt: real, rows: nat, cols: nat)
    returns (frame: Frame, next: nat)
    requires EventsInFrame(ts, xs, ys, pols, rows, cols)
    requires idx < |ts| && dt > 0.0
    ensures next == TickEnd(ts, idx, ts[idx] as real + dt)
    ensures idx < next <= |ts|
    ensures frame == TickFrame(xs, ys, pols, idx, next, rows, cols)
  {
    var t := ts[idx] as real;
    var acc := new int[rows, cols];
    forall r, c | 0 <= r < rows && 0 <= c < cols {
      acc[r, c] := 0;
    }
    next := idx;
    TickEndSpec(ts, idx, t + dt);
    while next < |ts| && (ts[next] as real) < t + dt
      invariant idx <= next <= |ts|
      invariant TickEnd(ts, next, t + dt) == TickEnd(ts, idx, t + dt)
      invariant forall r, c :: 0 <= r < rows && 0 <= c < cols ==>
                  acc[r, c] == TickSum(xs, ys, pols, idx, next, r, c)
      decreases |ts| - next
    {
      acc[ys[next] - 1, xs[next] - 1] := acc[ys[next] - 1, xs[next] - 1] + pols[next];
      next := next + 1;
    }
    frame := seq(rows, r requires 0 <= r < rows reads acc =>
               seq(cols, c requires 0 <= c < cols reads acc => Clamp(acc[r, c])));
    ghost var spec := TickFrame(xs, ys, pols, idx, next, rows, cols);
    forall r | 0 <= r < rows
      ensures frame[r] == spec[r]
    {
      assert forall c :: 0 <= c < cols ==> frame[r][c] == spec[r][c];
    }
  }

  // ---------------------------------------------------------------------------------------
  // the whole stream

  /** The frames of all ticks from event `from` on, one per pass of the outer loop. */
  function Ticks(ts: seq<nat>, xs: seq<int>, ys: seq<int>, pols: seq<int>, dt: real, rows: nat, cols: nat, from: nat): (ticks: seq<Frame>)
    requires EventsInFrame(ts, xs, ys, pols, rows, cols) && dt > 0.0 && from <= |ts|
    ensures |ticks| <= |ts| - from
    decreases |ts| - from
  {
    if from == |ts| then []
    else
      TickEndSpec(ts, from, ts[from] as real + dt);
      var next := TickEnd(ts, from, ts[from] as real + dt);
      [TickFrame(xs, ys, pols, from, next, rows, cols)] + Ticks(ts, xs, ys, pols, dt, rows, cols, next)
  }

  /** Every event makes a tick of its own at most, and a non-empty stream makes at least one. */
  lemma {:induction false} TicksCount(ts: seq<nat>, xs: seq<int>, ys: seq<int>, pols: seq<int>, dt: real, rows: nat, cols: nat, from: nat)
    requires EventsInFrame(ts, xs, ys, pols, rows, cols) && dt > 0.0 && from <= |ts|
    ensures |Ticks(ts, xs, ys, pols, dt, rows, cols, from)| <= |ts| - from
    ensures from < |ts| ==> |Ticks(ts, xs, ys, pols, dt, rows, cols, from)| >= 1
    decreases |ts| - from
  {
    if from < |ts| {
      TickEndSpec(ts, from, ts[from] as real + dt);
      TicksCount(ts, xs, ys, pols, dt, rows, cols, TickEnd(ts, from, ts[from] as real + dt));
    }
  }

  /**
   * `outfile.update(..., frame_number=(frames - (55//2)) + 1)`: the number reported after the
   * tick counted by `frames` (from 0).
   */
  function FrameNumber(frames: int): int {
    frames - WindowDepth / 2 + 1
  }

  /**
   * The reported number is the 1-based number of the tick at the window's centre, index
   * 55//2 = 27, which is also the centre of the slice the convolution reads. While fewer
   * than 28 ticks have happened the centre still holds an initial zero frame and the
   * reported number is at most 0.
   */
  lemma FrameNumberIsCentre(ticks: seq<Frame>, frames: nat, rows: nat, cols: nat)
    requires |ticks| == frames + 1
    ensures var window := PushAll(ZeroWindow(rows, cols), ticks);
            |window| == WindowDepth && |TemporalSlice(window, 1)| == FilterDepth &&
            window[WindowDepth / 2] == TemporalSlice(window, 1)[FilterDepth / 2] &&
            (FrameNumber(frames) >= 1 ==> window[WindowDepth / 2] == ticks[FrameNumber(frames) - 1]) &&
            (FrameNumber(frames) < 1 ==> window[WindowDepth / 2] == ZeroFrame(rows, cols))
  {
    var window := PushAll(ZeroWindow(rows, cols), ticks);
    PushAllAt(ZeroWindow(rows, cols), ticks);
    TemporalSliceCentred(window, 1);
  }

  /** Binning one more tick moves its frame from the ticks still to come to those done. */
  lemma TickStep(ts: seq<nat>, xs: seq<int>, ys: seq<int>, pols: seq<int>, dt: real, rows: nat, cols: nat,
                 idx: nat, next: nat, done: seq<Frame>)
    requires EventsInFrame(ts, xs, ys, pols, rows, cols) && dt > 0.0 && idx < |ts|
    requires next == TickEnd(ts, idx, ts[idx] as real + dt)
    ensures idx < next <= |ts|
    ensures done + [TickFrame(xs, ys, pols, idx, next, rows, cols)] + Ticks(ts, xs, ys, pols, dt, rows, cols, next) ==
            done + Ticks(ts, xs, ys, pols, dt, rows, cols, idx)
  {
    TickEndSpec(ts, idx, ts[idx] as real + dt);
    var frame := TickFrame(xs, ys, pols, idx, next, rows, cols);
    var rest := Ticks(ts, xs, ys, pols, dt, rows, cols, next);
    assert Ticks(ts, xs, ys, pols, dt, rows, cols, idx) == [frame] + rest;
    assert done + [frame] + rest == done + ([frame] + rest);
  }

  /** What the driver produces: one frame and one reported number per tick, and the final window. */
  datatype Run = Run(ticks: seq<Frame>, frameNumbers: seq<int>, window: seq<Frame>)

  /**
   * The driver, lines 41-80, with the I/O left out: `ts[0]` raises `IndexError` on an empty
   * stream; otherwise the tracker is built for `max(y)` x `max(x)` frames, and each pass of
   * the outer loop bins one tick, feeds it to `update` and reports `FrameNumber(frames)`.
   * The ticks are exactly `Ticks` of the stream, the numbers run `-26, -25, ...`, and the
   * tracker's window ends as the zero window with every tick pushed.
   */
  method RunStream(ts: seq<nat>, xs: seq<int>, ys: seq<int>, rawPols: seq<int>, dt: real) returns (r: Result<Run>)
    requires |xs| == |ts| && |ys| == |ts| && |rawPols| == |ts|
    requires forall k :: 0 <= k < |ts| ==> 1 <= xs[k] && 1 <= ys[k] && -128 <= rawPols[k] < 128
    requires dt > 0.0
    ensures |ts| == 0 <==> r == Err(IndexError)
    ensures r.Ok? ==>
              var rows, cols, pols := MaxInt(ys), MaxInt(xs), Polarities(rawPols);
              EventsInFrame(ts, xs, ys, pols, rows, cols) &&
              r.value.ticks == Ticks(ts, xs, ys, pols, dt, rows, cols, 0) &&
              1 <= |r.value.ticks| <= |ts| &&
              |r.value.frameNumbers| == |r.value.ticks| &&
              (forall k :: 0 <= k < |r.value.frameNumbers| ==> r.value.frameNumbers[k] == FrameNumber(k)) &&
              r.value.window == PushAll(ZeroWindow(rows, cols), r.value.ticks)
  {
    if |ts| == 0 {
      return Err(IndexError);
    }
    var pols := Polarities(rawPols);
    var rows, cols := MaxInt(ys), MaxInt(xs);
    var tracker := new GaborTracker.GaborTracker(8.0, rows, cols, false, true);
    var ticks, numbers := TickLoop(tracker, ts, xs, ys, pols, dt);
    TicksCount(ts, xs, ys, pols, dt, rows, cols, 0);
    return Ok(Run(ticks, numbers, tracker.eventFrame));
  }

  /**
   * The outer loop of the driver, lines 56-80: bin a tick, feed it to `update`, report the
   * frame number, until the stream is used up. The ticks are exactly `Ticks` of the stream
   * and the tracker's window ends as its window at the start with every tick pushed.
   */
  method TickLoop(tracker: GaborTracker.GaborTracker, ts: seq<nat>, xs: seq<int>, ys: seq<int>, pols: seq<int>, dt: real)
    returns (ticks: seq<Frame>, numbers: seq<int>)
    requires tracker.Valid() && dt > 0.0
    requires EventsInFrame(ts, xs, ys, pols, tracker.width, tracker.height)
    modifies tracker
    ensures ticks == Ticks(ts, xs, ys, pols, dt, tracker.width, tracker.height, 0)
    ensures |numbers| == |ticks| && forall k :: 0 <= k < |numbers| ==> numbers[k] == FrameNumber(k)
    ensures tracker.Valid() && tracker.eventFrame == PushAll(old(tracker.eventFrame), ticks)
  {
    var rows, cols := tracker.width, tracker.height;
    ghost var start := tracker.eventFrame;
    var idx: nat := 0;
    ticks, numbers := [], [];
    while idx < |ts|
      invariant idx <= |ts|
      invariant tracker.Valid()
      invariant ticks + Ticks(ts, xs, ys, pols, dt, rows, cols, idx) == Ticks(ts, xs, ys, pols, dt, rows, cols, 0)
      invariant |numbers| == |ticks|
      invariant forall k :: 0 <= k < |numbers| ==> numbers[k] == FrameNumber(k)
      invariant tracker.eventFrame == PushAll(start, ticks)
      decreases |ts| - idx
    {
      var frame, next := BinTick(ts, xs, ys, pols, idx, dt, rows, cols);
      var slice := tracker.Update(frame);
      numbers := numbers + [FrameNumber(|ticks|)];
      TickStep(ts, xs, ys, pols, dt, rows, cols, idx, next, ticks);
      PushAllSnoc(start, ticks, frame);
      ticks := ticks + [frame];
      idx := next;
    }
  }

  /** `max(v)` of a non-empty array. */
  function MaxInt(s: seq<int>): (m: int)
    requires |s| > 0
    ensures m in s
    ensures forall k :: 0 <= k < |s| ==> s[k] <= m
  {
    if |s| == 1 then s[0]
    else var m := MaxInt(s[..|s| - 1]); if m < s[|s| - 1] then s[|s| - 1] else m
  }
}
