# Gabor tracker bookkeeping, in Dafny

This project models the deterministic core of the SCIMITAR Gabor-filter event tracker
(`pipeline/gabor_tracker/`), plus the event-binning driver `pipeline/examples/gabor_visualizer.py`.

The tracker works in stages:

1. An event camera's events are binned into fixed-duration ticks.
2. Each tick frame is clamped to [-1, 1] and pushed into a 55-frame shift window.
3. The 7 frames at the centre of the window are convolved with a bank of spatio-temporal
   Gabor filters. Optionally, only each row's maxima inside every 64x64 tile are kept.
4. The thresholded activation map is grouped into components, by DBSCAN over the selected
   pixels or by a 4-neighbour flood fill from seed pixels.
5. Each component becomes a bounding box, normalised to the unit square, with a score equal
   to its largest activation.
6. Boxes with a positive score become tracker detections.

The convolution, Gaussian blur, DBSCAN clustering, peak detection and the multi-object
tracker are library calls. The model takes their outputs as inputs. It verifies the
bookkeeping around them:

- the window and its temporal slice;
- tile suppression, in place on an `array3`;
- threshold selection and label grouping;
- the flood fill, in place on `array2` masks;
- bounding boxes and scores;
- detection filtering and min-max normalisation;
- the running-mean timer;
- tick binning, the polarity conversion, the filter flip and the reported frame number.

Files:

| file | contents |
|---|---|
| `common.dfy` | Python error kinds, `Result`, grid points and boxes, sequence max/min, and `np.argwhere` in row-major order |
| `frame_window.dfy` | `push_to_tensor` and the 55-frame window; the strided temporal slice |
| `tile_suppression.dfy` | the 64x64 tile loop of `getGaborFilterValue`, as a specification on sequences and as an in-place method on an `array3` |
| `processing.dfy` | `get_components_dbscan`, `process_filter` and `get_components_dfs` |
| `gabor_tracker.dfy` | `normalize`, `format_detections`, and the `GaborTracker` class: its window field, `update`'s push and slice, and `getGaborFilterValue` |
| `utils.dfy` | the `MovingAverage` class |
| `gabor_visualizer.dfy` | polarity conversion, filter flip, per-tick binning, the tick stream and frame numbering |

## Model

| member | source | states |
|---|---|---|
| Common.MaxOf | pipeline/gabor_tracker/processing.py:101-102 | the maximum of a non-empty sequence is one of its elements and is at least every element (`np.max`) |
| Common.MinOf | pipeline/gabor_tracker/processing.py:126 | the minimum of a non-empty sequence is one of its elements and is at most every element (`min`) |
| Common.ArgWhereSpec | pipeline/gabor_tracker/processing.py:76 | `np.argwhere(mask)` holds exactly the in-grid coordinates where the mask is true, strictly increasing in row-major order (so each appears once) |
| Common.ArgWhereFromSpec | pipeline/gabor_tracker/processing.py:76 | the same statement for the rows from `from` on; this is the induction that carries `ArgWhereSpec` |
| Common.ArgWhereRowSpec | pipeline/gabor_tracker/processing.py:76 | the same statement for one row from column `from` on |
| FrameWindow.ZeroFrame | pipeline/gabor_tracker/gabor_tracker.py:55 | a zero frame has the requested shape and every cell is 0 |
| FrameWindow.ZeroWindow | pipeline/gabor_tracker/gabor_tracker.py:55 | `torch.zeros((55, width, height))`: exactly 55 frames, each a zero frame |
| FrameWindow.Push | pipeline/gabor_tracker/gabor_tracker.py:24-25 | `push_to_tensor`, `torch.cat((x[None], tensor[:-1]))`: the new frame is first and the length is kept, except that an empty tensor grows to one frame; `PushShifts` states where every other frame goes |
| FrameWindow.PushShifts | pipeline/gabor_tracker/gabor_tracker.py:24-25 | a push keeps a non-empty window's length; the new frame lands at index 0; frame `k-1` moves to `k`, so the old last frame is the only one that falls out; an empty tensor grows to the single new frame |
| FrameWindow.PushAllAt | pipeline/gabor_tracker/gabor_tracker.py:24-25 | after pushing `n` frames, the window keeps its length; index `k < n` holds the `k`-th most recent frame, and index `k >= n` holds the original frame `k - n` |
| FrameWindow.PushAllSnoc | pipeline/gabor_tracker/gabor_tracker.py:24-25 | pushing one more frame after a run of pushes is the same as pushing the extended run |
| FrameWindow.AllGridsAt | pipeline/gabor_tracker/gabor_tracker.py:55 | the frame-by-frame shape condition of the window holds iff every frame has the `width x height` shape |
| FrameWindow.SliceStart | pipeline/gabor_tracker/gabor_tracker.py:99 | Python's start index for a slice: a start in range is itself, a negative start counts from the end, and the result never exceeds the length |
| FrameWindow.StridedAt | pipeline/gabor_tracker/gabor_tracker.py:99 | element `k` of `s[from::step]` is `s[from + k*step]` whenever that index exists |
| FrameWindow.TemporalSlice | pipeline/gabor_tracker/gabor_tracker.py:94-99 | `event_frame[55//2 - 7//2*interval::interval][0:7]`, with Python's slice-start rules: it never has more than 7 frames; `TemporalSliceCentred` states which frames they are |
| FrameWindow.TemporalSliceCentred | pipeline/gabor_tracker/gabor_tracker.py:94-99 | for every interval from 1 to 9 the slice has exactly 7 frames; frame `k` is window frame `27 + (k-3)*interval`, so its middle frame is the window's centre `55//2` |
| FrameWindow.TemporalSliceUnitInterval | pipeline/gabor_tracker/gabor_tracker.py:94-99 | with `intervals = [1]` the slice is exactly window frames 24..30 |
| TileSuppression.TileStart | pipeline/gabor_tracker/gabor_tracker.py:74-75 | the tile holding a cell starts at a multiple of 64 at most 63 below that cell |
| TileSuppression.TileEnd | pipeline/gabor_tracker/gabor_tracker.py:76-77 | `min(start + 64, dim)` never passes the border and is past the start of every tile that starts inside the grid |
| TileSuppression.TilesPartition | pipeline/gabor_tracker/gabor_tracker.py:74-77 | every cell lies in its tile, and a tile start `j` (a multiple of 64) covers a cell iff `j` is that cell's tile start, so the tiles partition each axis |
| TileSuppression.Segment | pipeline/gabor_tracker/gabor_tracker.py:79 | the row segment a column shares a tile with is never empty |
| TileSuppression.Keep | pipeline/gabor_tracker/gabor_tracker.py:81 | `window * (window == maxes)` on one entry: the entry if it equals the maximum, else 0 (a plain definition) |
| TileSuppression.SuppressedAt | pipeline/gabor_tracker/gabor_tracker.py:79-81 | what one column holds after suppression: `Keep` against the maximum of its tile row segment (a plain definition; `SuppressedAtSpec` states its properties) |
| TileSuppression.SuppressRow | pipeline/gabor_tracker/gabor_tracker.py:79-81 | suppression keeps a row's length |
| TileSuppression.SuppressAll | pipeline/gabor_tracker/gabor_tracker.py:74-81 | suppression keeps the channel count and the row count of every channel |
| TileSuppression.SuppressedAtSpec | pipeline/gabor_tracker/gabor_tracker.py:79-81 | `window * (window == maxes)`: each cell keeps its value or becomes 0; it keeps it when it is the maximum of its tile row segment (ties all kept), and it becomes 0 when some cell of that segment is larger |
| TileSuppression.SegmentKeepsMax | pipeline/gabor_tracker/gabor_tracker.py:79-81 | every tile row segment still contains its maximum after suppression, and every other cell of it is the maximum or 0 |
| TileSuppression.Values | pipeline/gabor_tracker/gabor_tracker.py:79 | reading a `(channels, rows, cols)` tensor as nested sequences keeps its shape and every value |
| TileSuppression.ValuesEqual | pipeline/gabor_tracker/gabor_tracker.py:81 | two tensors of the same shape that agree on every cell are equal |
| TileSuppression.SegmentMax | pipeline/gabor_tracker/gabor_tracker.py:80 | `window.max(dim=3)` on one row of one tile, computed by a loop, is the maximum of that row segment |
| TileSuppression.MaxOfExtend | pipeline/gabor_tracker/gabor_tracker.py:80 | the maximum of a row segment extended by one column is the larger of the old maximum and the new value |
| TileSuppression.SuppressSegment | pipeline/gabor_tracker/gabor_tracker.py:79-81 | one row segment of one channel gets its suppressed values in place; every other cell of the tensor is unchanged |
| TileSuppression.SuppressTile | pipeline/gabor_tracker/gabor_tracker.py:79-81 | one tile, over all channels, gets its suppressed values in place; every cell outside it is unchanged |
| TileSuppression.SuppressColumnMax | pipeline/gabor_tracker/gabor_tracker.py:74-81 | the nested tile loop turns the tensor, in place, into `SuppressAll` of its old contents |
| Processing.Above | pipeline/gabor_tracker/processing.py:76 | the mask `frame > thresh` has the frame's shape and is true exactly where the value is strictly above the threshold |
| Processing.Selected | pipeline/gabor_tracker/processing.py:76 | `np.argwhere(frame > thresh)` (a plain definition; `SelectedSpec` states which coordinates it holds, and in what order) |
| Processing.SelectedSpec | pipeline/gabor_tracker/processing.py:76 | the selected coordinates are exactly those whose value is strictly greater than `thresh` (a value equal to it is excluded), in row-major order |
| Processing.MaxLabel | pipeline/gabor_tracker/processing.py:91 | the largest label is at least -1, bounds every label, and occurs in the labels when it is not -1 |
| Processing.BelowCard | pipeline/gabor_tracker/processing.py:91 | the set `{0, ..., n-1}` has `n` elements |
| Processing.NonNoiseLabels | pipeline/gabor_tracker/processing.py:89-91 | for DBSCAN-shaped labels, the distinct labels other than -1 are exactly `0..max` |
| Processing.NumClusters | pipeline/gabor_tracker/processing.py:91 | `len(set(labels)) - (1 if -1 in labels else 0)` (a plain definition; `NumClustersSpec` states its value) |
| Processing.NumClustersSpec | pipeline/gabor_tracker/processing.py:91 | `len(set(labels)) - (1 if -1 in labels else 0)` equals the largest label plus one; every label is below it, and every cluster index below it occurs |
| Processing.Labelled | pipeline/gabor_tracker/processing.py:97-99 | the points whose label is `i`, in order (a plain definition; `LabelledSpec` states its contents) |
| Processing.LabelledSpec | pipeline/gabor_tracker/processing.py:97-99 | `[nonzero[idx[0]] for idx in argwhere(labels == i)]` holds each point labelled `i` and only those, in selection order |
| Processing.ValuesAt | pipeline/gabor_tracker/processing.py:101-102 | `[frame[p[0], p[1]] for p in points]` has one value per point, each the frame value at that point |
| Processing.ClusterPoints | pipeline/gabor_tracker/processing.py:95-99 | every cluster index below the count has a non-empty cluster whose points are in the grid and above the threshold |
| Processing.Cluster | pipeline/gabor_tracker/processing.py:95-102 | one cluster dict: the points labelled `i` and `np.max` of their frame values (a plain definition; `ClusterSpec` states its properties) |
| Processing.ClusterSpec | pipeline/gabor_tracker/processing.py:95-102 | cluster `i` is non-empty and row-major sorted; a selected point is in it iff labelled `i`; its values lie strictly above `thresh` and at most `maxGabor`, which one of its points attains |
| Processing.ClustersSpec | pipeline/gabor_tracker/processing.py:91-102 | the statement of `ClusterSpec` for every cluster index below the count at once, together with the label iff for every cluster and selected point |
| Processing.GetComponentsDbscan | pipeline/gabor_tracker/processing.py:74-103 | fewer than 2 selected pixels gives `[]`; otherwise there is one cluster per non-noise label, cluster `k` is the label-`k` cluster, and selected point `j` lies in cluster `k` iff `labels[j] == k`, so noise lies in none; every cluster is non-empty and sorted, its points are in the grid with values in `(thresh, maxGabor]`, and `maxGabor` is one of its values |
| Processing.FractionBelowOne | pipeline/gabor_tracker/processing.py:124-125 | an in-range coordinate divided by its dimension lies in [0, 1) |
| Processing.Xs | pipeline/gabor_tracker/processing.py:124 | `x` holds one entry per point: its column over the column count |
| Processing.Ys | pipeline/gabor_tracker/processing.py:125 | `y` holds one entry per point: its row over the row count |
| Processing.BoundingBox | pipeline/gabor_tracker/processing.py:124-126 | `[min(x), min(y), max(x), max(y)]` over the normalised coordinates (a plain definition; `BoundingBoxSpec` and `BoundingBoxInUnitSquare` state its properties) |
| Processing.BoundingBoxSpec | pipeline/gabor_tracker/processing.py:124-126 | `[min x, min y, max x, max y]` is ordered, contains every point, and each of its four edges is attained by some point |
| Processing.BoundingBoxInUnitSquare | pipeline/gabor_tracker/processing.py:124-126 | for in-grid points every box coordinate lies in [0, 1) |
| Processing.ProcessFilter | pipeline/gabor_tracker/processing.py:120-129 | one box and one score per component, in component order; box `k` is component `k`'s bounding box and score `k` is its `maxGabor` |
| Processing.ComponentDetection | pipeline/gabor_tracker/processing.py:101-102 | a component of in-grid cells above `thresh` and at most `maxGabor` scores above `thresh` and yields a box inside the unit square |
| Processing.Detect | pipeline/gabor_tracker/processing.py:108-129 | `process_filter(frame, get_components_dbscan, thresh)`: as many scores as boxes; none when fewer than 2 pixels pass; otherwise one per cluster, score `k` is the `maxGabor` of cluster `k` and box `k` its bounding box; every score is above `thresh` and every box lies in the unit square |
| Processing.ZeroBelow | pipeline/gabor_tracker/processing.py:32 | `frame[frame < thresh] = 0` in place: cells below the threshold become 0 and all others keep their value |
| Processing.RowCellsSpec | pipeline/gabor_tracker/processing.py:52-53 | the cells of row `r` are exactly the points of that row with an in-range column |
| Processing.CellsSpec | pipeline/gabor_tracker/processing.py:52-53 | the grid cells are exactly the in-grid points, which bounds how many cells the fill can take |
| Processing.Flood | pipeline/gabor_tracker/processing.py:44-67 | the stack loop takes a component of distinct, untaken, nonzero in-grid cells and clears exactly those in the mask, which stays true exactly on untaken nonzero cells; the component is exactly the set of cells reachable from the seed by 4-neighbour steps through untaken nonzero cells; it is non-empty iff the seed was live, and then contains it; the taken set stays closed under nonzero 4-neighbours; `maxGabor` is `max(0, largest value)` |
| Processing.Pop | pipeline/gabor_tracker/processing.py:49-67 | one iteration of `while stack`: pop the last point, skip it if it is off the grid or cleared, otherwise visit it; the fill invariant is kept and either fewer cells remain untaken or the stack shrinks, so the loop terminates |
| Processing.SkipDead | pipeline/gabor_tracker/processing.py:52-55 | popping a point that is off the grid or already cleared keeps the fill invariant |
| Processing.Visit | pipeline/gabor_tracker/processing.py:55-67 | visiting a live cell appends it to the component, takes it, clears its mask bit, raises `maxGabor` to it, pushes its four neighbours, keeps the fill invariant, and leaves one fewer untaken grid cell |
| Processing.FloodStep | pipeline/gabor_tracker/processing.py:57-67 | a visited cell that was pushed onto the stack and is open is reachable from the seed, and after its neighbours are pushed every stack entry is again the seed or a neighbour of a visited cell |
| Processing.FillDone | pipeline/gabor_tracker/processing.py:49 | when the stack is empty the taken cells are closed, the component is exactly the region reachable from the seed, it is non-empty iff the seed was open, and it then contains the seed |
| Processing.FloodRegion | pipeline/gabor_tracker/processing.py:44-67 | a component whose cells are all reachable from the seed, whose union with the earlier taken cells is closed, and which holds the seed when the seed is open, is exactly the seed's reachable region |
| Processing.Neighbours | pipeline/gabor_tracker/processing.py:62-67 | the four points `stack.extend` pushes, in the source's order (a plain definition; `AdjacentNeighbours` states that they are exactly the 4-neighbours) |
| Processing.AdjacentNeighbours | pipeline/gabor_tracker/processing.py:62-67 | the four points `stack.extend` pushes are exactly the 4-neighbours of the point |
| Processing.ReachableInClosed | pipeline/gabor_tracker/processing.py:62-67 | everything reachable from a cell of a set closed under nonzero 4-neighbours lies in that set |
| Processing.ReachableAvoidingClosed | pipeline/gabor_tracker/processing.py:42-67 | from a seed outside a closed set, the cells reachable while avoiding that set are exactly the cells reachable at all, so earlier components do not cut a later region short |
| Processing.RegionFromScratch | pipeline/gabor_tracker/processing.py:42-69 | a region flooded from an untaken seed after earlier closed components is the seed's whole connected region of nonzero cells |
| Processing.PopLast | pipeline/gabor_tracker/processing.py:51 | `stack.pop()` splits the stack into its prefix and its last element |
| Processing.DistinctAppend | pipeline/gabor_tracker/processing.py:58 | appending a point not yet in a list of distinct points keeps them distinct |
| Processing.TakeOneMore | pipeline/gabor_tracker/processing.py:60 | taking a cell not yet taken shrinks the set of untaken cells, which bounds the loop |
| Processing.FrontierInitially | pipeline/gabor_tracker/processing.py:44 | before a fill starts, a closed taken set has no live neighbour that needs the stack |
| Processing.FrontierPop | pipeline/gabor_tracker/processing.py:51-55 | popping a point that is out of the grid or already cleared loses no live neighbour of a taken cell |
| Processing.ClearCell | pipeline/gabor_tracker/processing.py:57-67 | visiting a live cell clears exactly its mask bit; the mask invariant then holds with the cell taken, and pushing its four neighbours keeps every live neighbour on the stack |
| Processing.FrontierClosed | pipeline/gabor_tracker/processing.py:49 | once the stack is empty, the taken cells are closed under nonzero neighbours |
| Processing.AppendComponent | pipeline/gabor_tracker/processing.py:68-69 | appending a component disjoint from all earlier ones keeps all components pairwise disjoint and adds exactly its points |
| Processing.NonzeroMask | pipeline/gabor_tracker/processing.py:38 | `frame.astype(bool)` is a fresh mask that is true exactly on the nonzero cells, with nothing taken yet |
| Processing.NoSeeds | pipeline/gabor_tracker/processing.py:36-37 | an empty `argwhere` of the seed mask means no seed cell is set |
| Processing.SeedsTaken | pipeline/gabor_tracker/processing.py:42 | once every seed of `argwhere` has been processed, every nonzero seed cell is taken |
| Processing.AddSeed | pipeline/gabor_tracker/processing.py:43-69 | one seed iteration keeps the loop invariant (mask, closure, disjointness, non-empty components, `maxGabor`); it keeps every earlier component unchanged and appends at most one, which is the seed's whole connected region of nonzero cells; it only grows the taken cells, and takes the seed if it is nonzero |
| Processing.TallyAppend | pipeline/gabor_tracker/processing.py:68-69 | appending a non-empty, closed, fresh component with its `maxGabor` keeps the components disjoint, non-empty, nonzero, in the grid and closed, each with its maximum |
| Processing.FromSeedsStep | pipeline/gabor_tracker/processing.py:42-69 | after seed `i` either no component was added or the added one is the region of seed `i`, so every component is still the region of some seed processed so far |
| Processing.FromSeedsDone | pipeline/gabor_tracker/processing.py:42 | a component that is the region of an entry of `np.argwhere(init_mask)` is the region of a set seed cell |
| Processing.ArgWhereSeed | pipeline/gabor_tracker/processing.py:42 | every entry of `np.argwhere(init_mask)` is a set cell of the mask |
| Processing.CollectComponents | pipeline/gabor_tracker/processing.py:36-71 | no seeds gives `[]`; the components are non-empty, pairwise disjoint, made of nonzero in-grid cells and closed under nonzero 4-neighbours; each is exactly the connected region of nonzero cells around some set seed cell; they cover every nonzero seed; each carries `max(0, largest value)` |
| Processing.GetComponentsDfs | pipeline/gabor_tracker/processing.py:19-71 | the frame is zeroed below `thresh` in place; then all of `CollectComponents`' guarantees hold on the thresholded frame, including that each component is the connected region around a seed, and every component cell is nonzero and at least `thresh` |
| GaborTracker.Normalize | pipeline/gabor_tracker/gabor_tracker.py:28-31 | a successful result has one value per input value |
| GaborTracker.RescaleUnit | pipeline/gabor_tracker/gabor_tracker.py:31 | `(v - min) / (max - min)` lies in [0, 1], is 0 iff `v` is the minimum and 1 iff it is the maximum, and scaling back recovers `v` |
| GaborTracker.RescaleMonotonic | pipeline/gabor_tracker/gabor_tracker.py:31 | rescaling preserves and reflects order |
| GaborTracker.NormalizedAt | pipeline/gabor_tracker/gabor_tracker.py:31 | a non-constant input maps entry `i` to its rescaled value, which lies between the minimum and the maximum |
| GaborTracker.NormalizeValue | pipeline/gabor_tracker/gabor_tracker.py:31 | each entry of a non-constant input normalises into [0, 1], to 0 iff it is the minimum and to 1 iff it is the maximum |
| GaborTracker.NormalizeSpec | pipeline/gabor_tracker/gabor_tracker.py:28-31 | an empty input is a `ValueError` (`x.max()` of an empty array) and nothing else is; a constant input gives all zeros; otherwise every output is in [0, 1], the minimum maps to 0, the maximum to 1, and nothing else to either |
| GaborTracker.NormalizeMonotonic | pipeline/gabor_tracker/gabor_tracker.py:28-31 | normalisation keeps the relative order of every pair of entries |
| GaborTracker.ToDetection | pipeline/gabor_tracker/gabor_tracker.py:46-47 | `norfair.Detection(np.array([box[0:2], box[2:4]]), np.array([score, score]))`: the box's two corners as points, each scored with the box's score (a plain definition, used by `FormatPrefixSpec`) |
| GaborTracker.Kept | pipeline/gabor_tracker/gabor_tracker.py:43-44 | the positions among the first `n` whose score passes `score > 0`: at most `n` of them, each below `n` and with a positive score; `KeptSpec` adds that every such position is kept, in increasing order |
| GaborTracker.ZipLength | pipeline/gabor_tracker/gabor_tracker.py:43 | `zip` stops at the shorter of its two arguments |
| GaborTracker.KeptSpec | pipeline/gabor_tracker/gabor_tracker.py:43-44 | the kept positions are exactly those below `n` with a positive score, in increasing order |
| GaborTracker.FormatPrefixSpec | pipeline/gabor_tracker/gabor_tracker.py:42-48 | after `n` pairs the list holds one detection per kept position, in order, each built from that position's box and score |
| GaborTracker.FormatDetections | pipeline/gabor_tracker/gabor_tracker.py:41-49 | `format_detections`: never more detections than boxes or scores; `FormatDetectionsSpec` states which detections they are |
| GaborTracker.FormatDetectionsSpec | pipeline/gabor_tracker/gabor_tracker.py:41-49 | the detections are exactly the zipped pairs with score > 0, in input order; each carries points `box[0:2]`, `box[2:4]` and its score twice; with all scores positive every zipped pair is kept |
| GaborTracker.AllKept | pipeline/gabor_tracker/gabor_tracker.py:44 | with all scores positive, all of the first `n` positions are kept |
| GaborTracker.GaborTracker.constructor | pipeline/gabor_tracker/gabor_tracker.py:53-62 | the window is 55 zero frames of `width x height`, so every frame has the tracker's shape; the threshold and flags are stored |
| GaborTracker.GaborTracker.Update | pipeline/gabor_tracker/gabor_tracker.py:86-99 | given a new frame of the window's `width x height` shape, the window becomes the push of the new frame: it stays at 55 frames all of that shape, the new frame is at 0 and the others move back one; the frames handed to the convolution are window frames 24..30, centred on frame 27 |
| GaborTracker.GaborTracker.GaborFilterValue | pipeline/gabor_tracker/gabor_tracker.py:68-82 | without `column_max` the convolution output is returned unchanged; with it, the output becomes its tile-suppressed version in place |
| GaborTracker.WindowAfterTicks | pipeline/gabor_tracker/gabor_tracker.py:24-25 | after any number of ticks from the initial window, the window has 55 frames: the latest ticks newest first, then zero frames |
| Utils.Mean | pipeline/gabor_tracker/utils.py:9 | `self.sum / self.count` as an exact real (a plain definition; `MeanBounds` bounds it, and `MovingAverage.Update` and `Get` return it) |
| Utils.SumBounds | pipeline/gabor_tracker/utils.py:7 | a sum of `n` values bounded by `lo` and `hi` lies between `n*lo` and `n*hi` |
| Utils.QuotientBounds | pipeline/gabor_tracker/utils.py:9 | dividing by a positive count keeps bounds that hold for the dividend as multiples of the count |
| Utils.MeanBounds | pipeline/gabor_tracker/utils.py:9 | the mean lies between any bounds on the values averaged |
| Utils.MovingAverage.constructor | pipeline/gabor_tracker/utils.py:2-4 | a fresh average has `sum = 0`, `count = 0` and has seen nothing |
| Utils.MovingAverage.Update | pipeline/gabor_tracker/utils.py:6-9 | `x` is added to the values seen; `sum` and `count` stay their sum and number; the result is the mean of all values seen, including `x` |
| Utils.MovingAverage.Get | pipeline/gabor_tracker/utils.py:11-12 | `ZeroDivisionError` iff nothing has been seen; otherwise the mean of all values seen, which changes no state and so equals what the last `update` returned |
| GaborVisualizer.Int8 | pipeline/examples/gabor_visualizer.py:35 | `int8` wrap-around lands in [-128, 127], is congruent modulo 256, and is the identity in range |
| GaborVisualizer.PolaritySign | pipeline/examples/gabor_visualizer.py:35 | `pol * 2 - 1` evaluated in `int8`: the result is again an `int8`; `PolaritySignSpec` gives its values |
| GaborVisualizer.PolaritySignSpec | pipeline/examples/gabor_visualizer.py:35 | `pol * 2 - 1` on `int8` maps a stored 0 to -1 and 1 to +1, wraps like `int8` arithmetic, and is always odd |
| GaborVisualizer.Polarities | pipeline/examples/gabor_visualizer.py:35 | the conversion is applied element-wise |
| GaborVisualizer.Reverse | pipeline/examples/gabor_visualizer.py:31 | `flip` on one axis keeps the length and moves index `i` to `len-1-i` |
| GaborVisualizer.ReverseReverse | pipeline/examples/gabor_visualizer.py:31 | flipping one axis twice is the identity |
| GaborVisualizer.FlipFilters | pipeline/examples/gabor_visualizer.py:31 | `filters.flip(2).flip(3)`: keeps the kernel count and every kernel's temporal depth; `FlipFiltersAt` states where each entry goes |
| GaborVisualizer.FlipFiltersAt | pipeline/examples/gabor_visualizer.py:31 | `flip(2).flip(3)` keeps the shape and the kernel and temporal order, and moves spatial entry `(i, j)` to `(rows-1-i, cols-1-j)` |
| GaborVisualizer.FlipSliceTwice | pipeline/examples/gabor_visualizer.py:31 | flipping both spatial axes twice is the identity on one slice |
| GaborVisualizer.FlipFiltersInvolution | pipeline/examples/gabor_visualizer.py:31 | the filter flip applied twice is the identity on the whole bank |
| GaborVisualizer.TickEnd | pipeline/examples/gabor_visualizer.py:65-67 | the index at which `while idx < len(ts) and ts[idx] < t + dt` stops (a plain definition; `TickEndSpec` states its properties) |
| GaborVisualizer.TickEndSpec | pipeline/examples/gabor_visualizer.py:65-67 | the inner loop stops at or after `idx` and within the stream; it consumes exactly the consecutive events with timestamp below `t + dt`; it stops at the first event not below it; it consumes at least the first event when that one is below the limit |
| GaborVisualizer.TickSumUntouched | pipeline/examples/gabor_visualizer.py:66 | a cell no consumed event maps to (`y-1`, `x-1`) accumulates nothing |
| GaborVisualizer.Clamp | pipeline/examples/gabor_visualizer.py:72 | `clamp(min=-1, max=1)` lands in [-1, 1], keeps in-range values, and maps everything below to -1 and everything above to 1 |
| GaborVisualizer.TickFrame | pipeline/examples/gabor_visualizer.py:61-72 | the tick frame has the frame's shape and every cell in [-1, 1] |
| GaborVisualizer.BinTick | pipeline/examples/gabor_visualizer.py:58-72 | the in-place accumulation loop ends where `TickEnd` says, strictly after `idx` and within the stream; the frame it builds is the clamped sum of exactly those events' polarities |
| GaborVisualizer.Ticks | pipeline/examples/gabor_visualizer.py:56-72 | the tick frames the outer loop bins from index `from` on, one per pass: never more than the events left; `TicksCount`, `TickStep` and `TickLoop` tie it to the loop |
| GaborVisualizer.TicksCount | pipeline/examples/gabor_visualizer.py:56-80 | a non-empty stream yields at least one tick and never more ticks than events, so the outer loop terminates |
| GaborVisualizer.TickStep | pipeline/examples/gabor_visualizer.py:56-68 | one pass of the outer loop produces the first of the remaining ticks and moves `idx` strictly forward, within the stream |
| GaborVisualizer.TickLoop | pipeline/examples/gabor_visualizer.py:56-80 | the outer loop bins exactly the ticks `Ticks` gives, reports frame number `k - 26` for tick `k`, and leaves the tracker's window as its earlier window with every tick pushed, all frames keeping the tracker's shape |
| GaborVisualizer.FrameNumber | pipeline/examples/gabor_visualizer.py:78 | `frame_number=(frames-((55)//2))+1` (a plain definition; `FrameNumberIsCentre` states what the number means) |
| GaborVisualizer.FrameNumberIsCentre | pipeline/examples/gabor_visualizer.py:78 | the reported number `frames - 55//2 + 1` is the 1-based number of the tick at the window's centre, which is also the middle of the convolved slice; before 28 ticks that centre is still a zero frame |
| GaborVisualizer.MaxInt | pipeline/examples/gabor_visualizer.py:44 | `max(y)` and `max(x)` are elements of their streams and bound every element |
| GaborVisualizer.RunStream | pipeline/examples/gabor_visualizer.py:40-80 | an empty stream is an `IndexError` (`ts[0]`) and nothing else is; otherwise every event lies in the `max(y) x max(x)` frame; the ticks are exactly `Ticks` of the stream (at least one, at most one per event); tick `k` reports frame number `k - 26`; the tracker's window is the initial window with every tick pushed |

## Left out

- Convolution (`F.conv2d`), `TF.gaussian_blur`, and the `amax`/`clamp` reduction over filters are torch calls on float tensors. `GaborFilterValue` takes the convolution output as its argument, and `Update` returns the slice that would be convolved.
- `Update` models the push and the slice. It leaves out the rest of `update`:
  - the per-tick detection chain (blur, max over filters, `process_filter`);
  - the box denormalisation to pixels;
  - the norfair tracker update;
  - the preview image.
  Of that chain, only `process_filter` (modelled as `Processing.Detect`) and `format_detections` (modelled as `GaborTracker.FormatDetections`) are modelled. The blur and the max over filters are abstracted: `Detect` takes their output frame as its argument.
- The `use_filt_max = False` branch (gabor_tracker.py:120-132) is left out. It is a thread-pool map of `process_filter` over channels, a division of scores by `maxGabor`, and `ensemble_boxes.weighted_boxes_fusion`. The fusion and the concurrency are foreign code.
- The DBSCAN clustering (`sklearn.cluster.DBSCAN`) is an input. `GetComponentsDbscan` takes its `labels_` as a sequence the same length as the selected points. Its values are -1 or `0..k-1`, and every label below a used one is also used (`DbscanLabels`).
- `detect_peaks` (scipy `maximum_filter`/`binary_erosion`) is left out.
  - `Processing.GetComponentsDfs` takes the seed mask it would produce as an input.
  - The `init_mask` argument, which the source overwrites at line 35, and the `high_thresh` pre-filter at lines 33-34 therefore do not appear.
- `Processing.GetComponentsDfs`: the array's `NaN` and `-0.0` cases of `astype(bool)` are not modelled, since reals have neither.
- Everything the tracker times is left out:
  - `time.time_ns` and the `MovingAverage` timers inside the tracker and `process_filter`;
  - `print_times`.
  `MovingAverage` itself is modelled over integer samples.
- The thread pool, the norfair tracker and its drawing (`draw_boxes`, `draw_tracked_boxes`), `cv2` windows and video output, `PredictionsTextFile`, `tqdm`, and `loadmat`/`np.fromfile` are left out as I/O. So are the early `break`s at gabor_visualizer.py:83-87, which depend on that I/O. `RunStream` takes the event arrays as parameters.
- The filter bank's scaling to a 6-bit range (gabor_visualizer.py:28) and the float cast are left out. It is a floating-point rescale of an input that the model never inspects.
- `GaborVisualizer.BinTick`: the accumulation in a `float32` frame is modelled exactly, on integers. The converted polarities lie in [-128, 127] (a raw `int8` of 63 gives 125 and -64 gives 127), so the two agree as long as every partial sum of a cell stays within 2^24 in magnitude; beyond that the `float32` sum rounds and the model does not.
- `GaborVisualizer.BinTick`: the timestamp comparison `ts[idx] < t + dt` is modelled on exact reals. The `uint64`-to-`float64` rounding of `t + dt` for timestamps beyond 2^53 is not modelled.
- `GaborVisualizer.RunStream` requires every event coordinate to be at least 1. A coordinate 0 would index row or column -1, which numpy wraps to the last row or column; that case is not modelled.
- `GaborVisualizer.RunStream` does not carry the filter bank, because the convolution that consumes it is abstracted. The flip applied to the bank is `FlipFilters`, and its properties are proved separately.
- The convolution input's batch dimension of size 1 is dropped: `GaborFilterValue` works on `(filters, rows, cols)`.
- `FrameWindow.TemporalSliceCentred` is proved for intervals 1 to 9. From 10 on, the start `27 - 3*interval` is negative and Python's slice start wraps around; `TemporalSlice` models that wrap, but no property is claimed for it. The source only uses interval 1.
- `GaborTracker.NormalizeSpec`: the round trip `min + r*(max - min) == x` is stated per value in `RescaleUnit`, not over the whole array.
- `Utils.MovingAverage.Update`, `Utils.MovingAverage.Get`: the mean is the exact real quotient `sum / count`; Python's true division rounds it to the nearest `float`, which the model does not capture.
- `GaborTracker.GaborTracker.Update`, `FrameWindow.Frame`: window frames are grids of integers, so `Update` accepts only integer frames where `update` takes any `float32` frame. This is exact for the program as written: the only frames it pushes are clamped tick sums, whose cells lie in {-1, 0, 1}. Other callers are not modelled.
- Apart from the window frames above, the source's arrays are numpy/torch `float32` and `float64` values. They are modelled as exact reals, so rounding, overflow and NaN are not captured.

Where the code and its documentation differ, the model follows the code:

- The filter flip reverses only the two spatial axes (`flip(2).flip(3)`); the temporal axis keeps its order.
- The temporal slice is truncated to at most 7 frames (`[0:7]`).
- On an empty tensor `push_to_tensor` produces a one-frame tensor. The tracker's window is never empty, so its length stays 55.
- `get_components_dfs`'s `maxGabor` starts at 0, so it is `max(0, largest value)`, which is 0 for a component of negative values.
