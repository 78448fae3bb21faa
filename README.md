# rasterio window algebra and merge tool, modelled in Dafny

This project models two parts of rasterio as its tests pin them down.

**Window algebra.** A window is a pair of half-open integer intervals
`((row_start, row_stop), (col_start, col_stop))`.

- `index` converts a georeferenced point to a pixel.
- `window` converts bounds to a window.
- `window_bounds` converts a window back to bounds.
- `window_union`, `window_intersection` and `windows_intersect` combine lists of windows.
- `get_data_window` finds the bounding window of an array's valid pixels, across all bands.

**Merge tool.** `rasterio.tools.merge.merge` works in four steps:

1. It sizes an output grid from the inputs' footprints, at the finest or an explicit resolution.
2. It chooses a fill value.
3. It places every input on the output grid.
4. It composites the inputs in input order over a canvas filled with the fill value. Only an input's valid pixels overwrite, so the last valid writer wins.

Files:

- `wrappers.dfy`: `Option` and `Result`.
- `windows.dfy` (module `Windows`): intervals, windows and bounds.
  - A north-up affine transform `Transform(xres, yres, west, north)` over exact reals.
  - The conversions `Index`, `ToWindow` and `WindowBounds`.
  - The list operations `Union`, `Intersect` and `Intersection`.
  - Their laws, and the test cases of `tests/test_indexing.py`.
- `data_window.dfy` (module `DataWindow`): `GetDataWindow` over a band-major array.
  - Validity is one of three kinds: a mask, a nodata value, or neither.
- `composite.dfy` (module `Compositing`): the imperative compositor.
  - The canvas is an `array3<real>` (band, row, column), filled and then pasted over in place, tile by tile.
  - Each method is proved against the specification function `Composited`.
- `merge.dfy` (module `Merge`): the rest of the merge tool.
  - Output grid sizing, the fill value and its warning, and the placement of each input.
  - The driver `Run`, which returns the canvas, the output transform and the warning flag.
- `merge_scenarios.dfy` (module `MergeScenarios`): the fixtures and expected outputs of `tests/test_merge_tool.py`, proved pixel by pixel against `Merge.Merged`.

Conventions the model fixes:

- **Transforms.** A transform is north-up: there is no rotation, and the y pixel size is negated. Column `c` has x coordinate `west + c * xres`, and row `r` has y coordinate `north - r * yres`.
- **Index and window.**
  - `index` takes the floor of the continuous pixel position plus a tolerance of 1e-6 pixel.
  - `window` takes that floor for the starts. It takes the ceiling of the position minus the same tolerance for the stops.
  - Stops are rounded up: `tests/test_indexing.py:53` needs `((0, 2), (0, 2))` for a 400 by 400 box on pixels about 300 units in size, and rounding the stop down would give `((0, 1), (0, 1))`.
- **Boundless windows.** Bounds beyond the dataset give a window beyond its array, with no clipping and no error. This holds whether or not `boundless` is passed, so the flag has no parameter here.
- **Output grid.** The merge output grid has its origin at the north-west corner of the target bounds. Its width and height are the extent divided by the resolution, rounded up.
- **Placement.** An input's footprint is clipped to the output's footprint. Its window runs from the `index` of the clipped north-west corner to the `index` of the clipped south-east corner, both rounded down.
  - This is what `tests/test_merge_tool.py:239-251` needs at resolution 2. Rounding the stop up would paste input a's 40 into row 1, and input d's 120 over input c's 90.
  - On grid-aligned inputs, rounding the stop down and rounding it up agree.
  - An input outside the output bounds gets an empty window and contributes nothing.
- **Validity.** An input pixel is valid when it differs from that input's nodata value. An input without a declared nodata counts 0 as its nodata value.
  - `tests/test_merge_tool.py:92-100` pins this: the second input's zeros must not erase the first input's data.
- **Fill value and warning.**
  - The requested nodata is the explicit `nodata` if given, else the first input's.
  - If it lies in the range of the first input's data type, it fills the canvas.
  - Otherwise the canvas stays 0 and the warning flag is raised.
  - `tests/test_merge_tool.py:83-89` pins the warning for `nodata=-1` on 8-bit inputs.
- **Default resolution.** Without an explicit `res`, the output resolution is the finest input resolution on each axis.

## Model

| member | source | states |
|---|---|---|
| Windows.Index | tests/test_indexing.py:36-40 | the (row, col) returned is the pixel whose column edges bracket x and whose row edges bracket y, once the point is moved the snapping tolerance east and south |
| Windows.ToWindow | tests/test_indexing.py:43-54 | the window's footprint covers the requested bounds (less the tolerance), and it is the smallest such window: dropping its first or last row or column would uncover part of the bounds |
| Windows.WindowBounds | tests/test_indexing.py:57-60 | the north-west corner of a window's bounds indexes back to the window's starts, and the south-east corner to its stops |
| Windows.RoundTrip | tests/test_indexing.py:57-60 | the window of a window's bounds is that same window, for every window and every valid transform |
| Windows.CoverExtended | tests/test_indexing.py:63-78 | a window's bounds are extended south and east by more than the tolerance and at most a pixel; the bounds of the window of the result cover the extended rectangle |
| Windows.CornerIndices | tests/test_indexing.py:13-19 | a dataset's four corners index to (0, 0), (0, width), (height, width) and (height, 0) |
| Windows.FullWindowOfBounds | tests/test_indexing.py:22-25 | the window of a dataset's own bounds is ((0, height), (0, width)) |
| Windows.BoundlessWest | tests/test_indexing.py:28-33 | on pixels about 300 units wide, bounds extended 1000 units west give column start -4 and leave the other three edges of the full window, with no error |
| Windows.IndexValues | tests/test_indexing.py:36-52 | on pixels about 300 units in size: the origin is (0, 0); 400 east is column 1; 700 south is row 2; (400, 400) is (1, 1); one pixel plus an epsilon south-east is (1, 1) |
| Windows.FullWindowOfInsetBounds | tests/test_indexing.py:47-50 | bounds inset by an epsilon of up to half a pixel on every side still give the full window |
| Windows.FourHundredBox | tests/test_indexing.py:53 | a 400 by 400 box at the origin of pixels about 300 units in size covers two pixels each way |
| Windows.TwoPixelWindows | tests/test_indexing.py:54 | a box two pixels each way, less an epsilon within the tolerance on its south and east edges, is the window ((0, 2), (0, 2)) |
| Windows.Span | tests/test_indexing.py:131-135 | the interval contains every interval of the list, and its start and stop are each some interval's start and stop |
| Windows.Meet | tests/test_indexing.py:138-142 | the interval lies inside every interval of the list, and its start and stop are each some interval's start and stop |
| Windows.PairwiseOverlap | tests/test_indexing.py:165-194 | the test is true exactly when every two intervals of the list overlap or touch |
| Windows.Union | tests/test_indexing.py:131-135 | the union contains every window of the list, and each of its four edges is the matching edge of some window |
| Windows.UnionIsLeast | tests/test_indexing.py:131-135 | any window containing every window of the list contains their union |
| Windows.Intersect | tests/test_indexing.py:165-194 | the test is true exactly when every two windows overlap or touch on both axes |
| Windows.Intersection | tests/test_indexing.py:138-162 | it fails with DoNotIntersect exactly when the intersect test is false; on success the window lies inside every window and each of its edges is the matching edge of some window |
| Windows.IntersectionIsGreatest | tests/test_indexing.py:138-153 | any window inside every window of the list lies inside their intersection |
| Windows.PairwiseIffMeet | tests/test_indexing.py:178-194 | for intervals that are not reversed, all pairs overlap exactly when the greatest start does not pass the least stop |
| Windows.IntersectIffMeet | tests/test_indexing.py:165-194 | the intersect test is false exactly when, on some axis, the greatest start passes the least stop; so a successful intersection of proper windows is never reversed |
| Windows.SharedPixelIntersects | tests/test_indexing.py:165-175 | windows that all hold one pixel intersect, and their intersection holds it |
| Windows.UnionExample | tests/test_indexing.py:131-135 | the union of ((0, 6), (3, 6)) and ((2, 4), (1, 5)) is ((0, 6), (1, 6)) |
| Windows.IntersectionOfTwo | tests/test_indexing.py:139-142 | the intersection of ((0, 6), (3, 6)) and ((2, 4), (1, 5)) is ((2, 4), (3, 5)) |
| Windows.IntersectionOfTouching | tests/test_indexing.py:144-147 | windows touching along row 6 intersect in ((6, 6), (3, 5)), a window of no rows |
| Windows.IntersectionOfThree | tests/test_indexing.py:149-153 | the intersection of the three windows is ((3, 4), (3, 5)) |
| Windows.IntersectionDisjointExample | tests/test_indexing.py:156-162 | a list holding a disjoint pair has no intersection: the result is the DoNotIntersect error |
| Windows.IntersectExamples | tests/test_indexing.py:165-194 | the two lists of the positive test intersect; the three lists of the negative test do not |
| DataWindow.GetDataWindow | tests/test_indexing.py:88-119 | with neither mask nor nodata, the full window. Otherwise the window contains every valid pixel, its first and last rows and columns each hold a valid pixel, and it is ((0, 0), (0, 0)) when no pixel is valid |
| DataWindow.DataWindowIsBoundingBox | tests/test_indexing.py:93-101 | when a box contains every valid pixel and each of its edge rows and columns holds one, the data window is exactly that box |
| DataWindow.UnusedNodataGivesFullWindow | tests/test_indexing.py:103-104 | a nodata value that no pixel takes gives the full window |
| DataWindow.BlockUnmarked | tests/test_indexing.py:88-90 | the block array with no mask and no nodata gives the full window ((0, 10), (0, 10)) |
| DataWindow.BlockMasked | tests/test_indexing.py:93-96 | the mask marks exactly the block array's zeros, and the masked array's data window is ((3, 5), (2, 6)) |
| DataWindow.BlockNodata | tests/test_indexing.py:99-101 | the block array with nodata 0 gives ((3, 5), (2, 6)) |
| DataWindow.OnesNodata | tests/test_indexing.py:103-104 | an array of ones with nodata 0 gives the full window |
| DataWindow.ClustersNodata | tests/test_indexing.py:107-113 | three bands, each holding its own cluster, give the one window ((0, 6), (1, 8)) bounding all of them |
| DataWindow.AllNodata | tests/test_indexing.py:116-119 | an array of nothing but nodata gives ((0, 0), (0, 0)) rather than an error |
| Compositing.LastWriterWins | tests/test_merge_tool.py:72-80 | at any position, the composite holds the pixel of the last tile that has a valid pixel there, whatever earlier tiles hold |
| Compositing.UnwrittenKeepsFill | tests/test_merge_tool.py:172-180 | a position that no tile writes keeps the fill value |
| Compositing.PasteRow | tests/test_merge_tool.py:183-184 | one row of one band of the tile is pasted: each canvas cell of that row takes the tile's pixel where it is valid; every other cell keeps its old value |
| Compositing.PasteBand | tests/test_merge_tool.py:183-184 | every cell of one band is pasted over; the other bands are untouched |
| Compositing.Paste | tests/test_merge_tool.py:183-184 | every canvas cell equals its old value with the tile pasted over it; cells outside the tile's window, or under its invalid pixels, are unchanged |
| Compositing.Composite | tests/test_merge_tool.py:72-80 | the canvas is a newly allocated array of the requested shape, and every cell equals the fill value with the tiles pasted over it in order |
| Merge.UnionExtent | tests/test_merge_tool.py:131-138 | the union covers every input's footprint, and each of its edges is some input's edge |
| Merge.FinestRes | tests/test_merge_tool.py:220-236 | on each axis, the resolution is at most every input's pixel size and equals some input's |
| Merge.OutputRes | tests/test_merge_tool.py:239-267 | the resolution is positive. With no explicit res it is, on each axis, some input's pixel size and no coarser than any input's: the finest. An explicit single value applies to both axes, and an explicit pair gives (x, y) |
| Merge.OutputGrid | tests/test_merge_tool.py:136-138 | the grid's origin is the north-west corner of the bounds, and its footprint covers the bounds with no spare whole column or row |
| Merge.MergeGrid | tests/test_merge_tool.py:131-142 | the output grid's pixel size is the output resolution. It starts at the target's north-west corner, covers the target, and has no spare whole column or row: its shape is the extent divided by the resolution, rounded up. With no explicit bounds it covers every input |
| Merge.FillValue | tests/test_merge_tool.py:83-89 | the fill is in range for the first input's type. The warning is raised exactly when the requested nodata is out of that range, and then the fill is 0. Otherwise the requested nodata is the fill, and 0 when none is requested |
| Merge.Placement | tests/test_merge_tool.py:239-251 | an input's window always lies within the output array, even when it reaches past the output bounds |
| Merge.AlignedPlacement | tests/test_merge_tool.py:220-236 | an input whose edges are output pixel edges lands on exactly the cells its footprint covers |
| Merge.NoSeam | tests/test_merge_tool.py:183-184 | when one input's east (south) edge is another's west (north) edge, the first's window stops where the second's starts, at any output resolution: no skipped and no doubled cell |
| Merge.SharedGrid | tests/test_merge_tool.py:72-80 | inputs sharing one grid merge onto that grid, and each fills the whole canvas |
| Merge.Tiles | tests/test_merge_tool.py:72-80 | there is one tile per input, in input order: tile i is input i's placement window, input i's pixels read onto that window, and input i's nodata; every tile fits the canvas |
| Merge.Run | tests/test_merge_tool.py:72-100 | the result has the first input's band count and the output grid's shape, and its transform is the output grid's. Every cell is the merged value there. The warning flag is the fill value's. The result is a newly allocated array |
| Merge.LastInputWins | tests/test_merge_tool.py:131-142 | for any number of bands and any reader: the merged value at a cell is the pixel of the last input, in input order, that holds a valid pixel there on the output grid |
| Merge.NoInputKeepsFill | tests/test_merge_tool.py:172-180 | for any number of bands and any reader: a cell where no input holds a valid pixel keeps the fill value |
| MergeScenarios.CompositeOfInputs | tests/test_merge_tool.py:72-80 | compositing one-band inputs leaves, at each position, the last input holding a valid pixel there, else the fill |
| MergeScenarios.MergedInputs | tests/test_merge_tool.py:72-80 | a merged pixel of one-band inputs is the last valid input pixel at that position on the output grid, else the fill |
| MergeScenarios.CoincidentAt | tests/test_merge_tool.py:72-100 | for two inputs on one grid, the merged pixel is the second input's if valid, else the first's if valid, else the fill |
| MergeScenarios.StackedAt | tests/test_merge_tool.py:72-80 | a 255 block over rows and columns 0-5 and a 254 block over 4-7, on a background equal to nodata, merge to 254 over 255 over the fill |
| MergeScenarios.MergeWithNodata | tests/test_merge_tool.py:72-80 | inputs declaring nodata 1 merge onto their own grid with fill 1 and no warning; 254 lies over 255 over 1 |
| MergeScenarios.MergeWithoutNodata | tests/test_merge_tool.py:92-100 | inputs declaring no nodata merge with fill 0; the second input's zeros do not erase the first input's 255 block |
| MergeScenarios.MergeWarn | tests/test_merge_tool.py:83-89 | nodata -1 for 8-bit inputs raises the warning and leaves the fill at 0, and the merge still gives the composite |
| MergeScenarios.MergeFloat | tests/test_merge_tool.py:172-180 | float inputs with explicit nodata -1.5: every untouched pixel is -1.5, with 254 over 255 elsewhere |
| MergeScenarios.OffsetGrid | tests/test_merge_tool.py:131-137 | two 10 by 10 inputs offset by five pixels merge onto a 15 by 15 grid from (-114, 46) |
| MergeScenarios.MergeOverlapping | tests/test_merge_tool.py:131-142 | the output is 15 by 15 with bounds (-114, 43, -111, 46). The second input's 2 wins in the overlap, and the cells neither input covers are 0 |
| MergeScenarios.TinyPlacements | tests/test_merge_tool.py:220-236 | at resolution 1, each one-pixel input lands on exactly the cells its footprint covers |
| MergeScenarios.TinyDefaultGrid | tests/test_merge_tool.py:220-236 | the default resolution is the finest, 1, giving a 4 by 4 grid from (1, 4) |
| MergeScenarios.MergeTiny | tests/test_merge_tool.py:220-236 | the 4 by 4 output holds 120 in rows 0-1 of columns 1-2, 90 in rows 0-1 of column 3, 60 at (2, 1), 40 at (3, 0), and 0 elsewhere |
| MergeScenarios.CoarseA | tests/test_merge_tool.py:239-251 | at resolution 2, input a covers no whole coarse column and gets an empty window |
| MergeScenarios.CoarseB | tests/test_merge_tool.py:239-251 | at resolution 2, input b covers no whole coarse row and gets an empty window |
| MergeScenarios.CoarseC | tests/test_merge_tool.py:239-251 | at resolution 2, input c lands on the north-east coarse cell |
| MergeScenarios.CoarseD | tests/test_merge_tool.py:239-251 | at resolution 2, input d lands on the north-west coarse cell |
| MergeScenarios.CoarseRes | tests/test_merge_tool.py:239-267 | the pair (2, 2) and the single value 2 both give output resolution (2, 2) |
| MergeScenarios.MergeTinyRes | tests/test_merge_tool.py:239-267 | with res (2, 2) or 2, the output is 2 by 2 from (1, 4): [[120, 90], [0, 0]] |

## Left out

- File creation and opening, drivers, the GTiff format, temporary directories and the CRS keyword are I/O plumbing. An input is described by its band count, grid, declared nodata and data type.
- Reading an input onto its placement window, including any resampling at a coarser output resolution, is left to the dataset reader. It is the `Merge.Reader` parameter, assumed to return arrays of the window's shape.
- IEEE floating-point rounding is not modelled. Coordinates and pixel values are exact reals, so the float drift of transforms such as 0.2 and -0.1 is absent.
- Rotated and sheared transforms are not modelled; only north-up transforms are.
- The 64-bit float range is taken as unbounded; `Merge.DType.InRange` accepts every value for `Float64`.
- NumPy's masked-array machinery is left out. Validity is a mask of booleans, a nodata value, or neither.
- Logging and the warning's message text are left out. The warning is the boolean flag `Run` returns.
- The literal window ((3, 714), (13, 770)) of `tests/data/RGB.byte.tif` at `tests/test_indexing.py:122-128` depends on that file's pixels, which are not part of this model.
- The dataset `tests/data/RGB.byte.tif` is not part of this model. The window tests that read it are stated for any transform whose pixel sizes lie between 250 and 330 units (`Windows.NearThreeHundred`), and the corner and full-window laws for any grid.
- The debugging breakpoint at `tests/test_merge_tool.py:266` is not behaviour.
- `Merge.ValidRequest` excludes three kinds of request, none of which the tool can merge meaningfully: a zero or negative explicit resolution; explicit bounds whose west edge lies east of their east edge or whose south edge lies north of their north edge; and an empty input list. A missing resolution is allowed and gives the finest input resolution.
- Band-count mismatches between inputs are excluded by the reader's contract: every read has the first input's band count.
- No warning is raised when inputs declare different nodata values and no explicit one is given. The warning modelled is the one for a requested nodata outside the first input's type range (`tests/test_merge_tool.py:83-89`), and no test exhibits another.
- Only two pixel data types are modelled, 8-bit unsigned (`UInt8`) and 64-bit float (`Float64`), the two the tests use. The other integer and float types, and their ranges in the fill-value check, are left out.
- An input lying wholly outside explicit output bounds does not make the merge fail. It gets the empty window and contributes nothing. No test passes explicit bounds, and the model takes the non-failing choice.
- Merge.Placement: its contract states only that the window lies within the output array. The exact windows are stated by `Merge.AlignedPlacement`, `Merge.NoSeam` and the `MergeScenarios` placement lemmas.
