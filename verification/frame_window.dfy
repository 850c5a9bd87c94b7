/**
 * The tracker's sliding window of event frames (`self.event_frame`, a tensor of 55 frames):
 * `push_to_tensor`, which shifts a new frame in at index 0 and drops the oldest, and the
 * strided temporal slice that `GaborTracker.update` hands to the convolution.
 */
module FrameWindow {
  import opened Common

  /** One event frame: per-pixel accumulated polarity, `rows` lists of `cols` values. */
  type Frame = seq<seq<int>>

  /** Number of frames in the window (`torch.zeros((55, ...))`). */
  const WindowDepth: nat := 55

  /** Temporal depth of every filter kernel, hence of the slice the convolution reads. */
  const FilterDepth: nat := 7

  function ZeroFrame(rows: nat, cols: nat): (f: Frame)
    ensures IsGrid(f, rows, cols)
    ensures forall r, c :: 0 <= r < rows && 0 <= c < cols ==> f[r][c] == 0
  {
    seq(rows, r => seq(cols, c => 0))
  }

  /** The window right after construction: `WindowDepth` zero frames. */
  function ZeroWindow(rows: nat, cols: nat): (w: seq<Frame>)
    ensures |w| == WindowDepth
    ensures forall k :: 0 <= k < |w| ==> w[k] == ZeroFrame(rows, cols)
  {
    seq(WindowDepth, k => ZeroFrame(rows, cols))
  }

  /** `tensor[:-1]`: everything but the last element; empty stays empty. */
  function DropLast<T>(s: seq<T>): seq<T> {
    if |s| == 0 then [] else s[..|s| - 1]
  }

  /** `push_to_tensor(tensor, x) = torch.cat((x[None], tensor[:-1]))`. */
  function Push<T>(window: seq<T>, x: T): (pushed: seq<T>)
    ensures |pushed| == if |window| == 0 then 1 else |window|
    ensures pushed[0] == x
  {
    [x] + DropLast(window)
  }

  /**
   * A push keeps the window's length, puts the new frame at index 0 and moves every other
   * frame one place back, so the old last frame is the one that falls out. On an empty
   * tensor `tensor[:-1]` is empty and the push grows it to one frame; the window is never empty.
   */
  lemma PushShifts<T>(window: seq<T>, x: T)
    ensures |window| >= 1 ==> |Push(window, x)| == |window|
    ensures |window| == 0 ==> Push(window, x) == [x]
    ensures Push(window, x)[0] == x
    ensures forall k :: 1 <= k < |Push(window, x)| ==> Push(window, x)[k] == window[k - 1]
  {
  }

  /** The window after pushing `frames` in order, oldest first. */
  function PushAll<T>(window: seq<T>, frames: seq<T>): seq<T>
    decreases |frames|
  {
    if |frames| == 0 then window else Push(PushAll(window, frames[..|frames| - 1]), frames[|frames| - 1])
  }

  /** Every frame of the window is a `rows` x `cols` grid, stated one frame at a time. */
  ghost predicate AllGrids(window: seq<Frame>, rows: nat, cols: nat)
    decreases |window|
  {
    |window| == 0 || (IsGrid(window[0], rows, cols) && AllGrids(window[1..], rows, cols))
  }

  lemma {:induction false} AllGridsAt(window: seq<Frame>, rows: nat, cols: nat)
    ensures AllGrids(window, rows, cols) <==> forall k :: 0 <= k < |window| ==> IsGrid(window[k], rows, cols)
    decreases |window|
  {
    if |window| > 0 {
      AllGridsAt(window[1..], rows, cols);
      assert forall k :: 1 <= k < |window| ==> window[k] == window[1..][k - 1];
    }
  }

  /** Pushing one more frame after a run of pushes is the run with that frame appended. */
  lemma PushAllSnoc<T>(window: seq<T>, frames: seq<T>, x: T)
    ensures PushAll(window, frames + [x]) == Push(PushAll(window, frames), x)
  {
    assert (frames + [x])[..|frames|] == frames;
  }

  /**
   * However many frames are pushed, the window keeps its length, and index `k` holds the
   * frame pushed `k` pushes ago; once fewer than `k` frames have been pushed, it holds an
   * original frame.
   */
  lemma {:induction false} PushAllAt<T>(window: seq<T>, frames: seq<T>)
    requires |window| >= 1
    ensures |PushAll(window, frames)| == |window|
    ensures forall k :: 0 <= k < |window| ==>
              PushAll(window, frames)[k] ==
                if k < |frames| then frames[|frames| - 1 - k] else window[k - |frames|]
    decreases |frames|
  {
    if |frames| > 0 {
      var init := frames[..|frames| - 1];
      PushAllAt(window, init);
      PushShifts(PushAll(window, init), frames[|frames| - 1]);
    }
  }

  /**
   * Start index of a Python slice `s[start::step]` with a positive step over a sequence of
   * length `n`: a negative start counts from the end and the result is clipped into [0, n].
   */
  function SliceStart(start: int, n: nat): (i: nat)
    ensures i <= n
    ensures 0 <= start <= n ==> i == start
    ensures 0 - n <= start < 0 ==> i == start + n
  {
    if start < 0 then (if start + n < 0 then 0 else start + n)
    else if start > n then n
    else start
  }

  /** `s[from::step]` for a start already normalised by `SliceStart`. */
  function Strided<T>(s: seq<T>, from: nat, step: nat): seq<T>
    requires step >= 1
    decreases |s| - from
  {
    if from >= |s| then [] else [s[from]] + Strided(s, from + step, step)
  }

  /** `s[:k]`. */
  function Take<T>(s: seq<T>, k: nat): seq<T> {
    if |s| <= k then s else s[..k]
  }

  /**
   * `event_frame[(55//2) - ((7//2)*interval)::interval][0:7]`: every `interval`-th frame,
   * starting so that the slice is centred on the window's middle frame, at most seven of them.
   */
  function TemporalSlice<T>(window: seq<T>, interval: int): (slice: seq<T>)
    requires interval >= 1
    ensures |slice| <= FilterDepth
  {
    var start := WindowDepth / 2 - (FilterDepth / 2) * interval;
    Take(Strided(window, SliceStart(start, |window|), interval), FilterDepth)
  }

  /** Element `k` of `s[from::step]` is `s[from + k*step]`, as long as that index exists. */
  lemma {:induction false} StridedAt<T>(s: seq<T>, from: nat, step: nat, k: nat)
    requires step >= 1
    requires from + k * step < |s|
    ensures k < |Strided(s, from, step)|
    ensures Strided(s, from, step)[k] == s[from + k * step]
    decreases k
  {
    if k > 0 {
      var rest := (k - 1) * step;
      assert k * step == rest + step;
      StridedAt(s, from + step, step, k - 1);
      assert Strided(s, from, step) == [s[from]] + Strided(s, from + step, step);
    }
  }

  /**
   * For every interval from 1 to 9 the slice of a 55-frame window has exactly seven frames,
   * `interval` apart, the fourth of which is the window's centre frame 55//2 = 27.
   */
  lemma TemporalSliceCentred<T>(window: seq<T>, interval: int)
    requires |window| == WindowDepth
    requires 1 <= interval <= 9
    ensures |TemporalSlice(window, interval)| == FilterDepth
    ensures forall k :: 0 <= k < FilterDepth ==>
              TemporalSlice(window, interval)[k] == window[27 + (k - 3) * interval]
    ensures TemporalSlice(window, interval)[3] == window[WindowDepth / 2]
  {
    var from := 27 - 3 * interval;
    assert SliceStart(from, |window|) == from;
    StridedAt(window, from, interval, 6);
    forall k | 0 <= k < FilterDepth
      ensures TemporalSlice(window, interval)[k] == window[27 + (k - 3) * interval]
    {
      assert from + k * interval == 27 + (k - 3) * interval;
      StridedAt(window, from, interval, k);
    }
  }

  /** The slice `update` actually takes (`intervals = [1]`) is frames 24 through 30. */
  lemma TemporalSliceUnitInterval<T>(window: seq<T>)
    requires |window| == WindowDepth
    ensures TemporalSlice(window, 1) == window[24..31]
  {
    TemporalSliceCentred(window, 1);
  }
}
