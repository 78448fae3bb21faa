/**
 * The merge tool on the fixtures of its tests: two coincident 10 by 10
 * inputs, two overlapping ones offset by five pixels, and four one-pixel
 * inputs at resolutions 1 and 2. Input pixel data is given as a function
 * of output pixel position, which is what reading an input onto its
 * placement window yields.
 */
module MergeScenarios {
  import opened Wrappers
  import opened Windows
  import opened Compositing
  import opened Merge
  import DataWindow

  function Zero(r: int, c: int): real { 0.0 }

  /** A one-band read of `f` over the window, indexed from the window's corner. */
  function Sampled(f: (int, int) -> real, w: Window): (a: Raster)
    requires w.WellFormed()
    ensures |a| == 1
    ensures DataWindow.Shaped(a, w.rows.stop - w.rows.start, w.cols.stop - w.cols.start)
  {
    [seq(w.rows.stop - w.rows.start, i =>
       seq(w.cols.stop - w.cols.start, j => f(w.rows.start + i, w.cols.start + j)))]
  }

  /** Input `i` reads as `fs[i]` (zero beyond the list). */
  function Inputs(fs: seq<(int, int) -> real>): Reader {
    (i: nat, w: Window) => if !w.WellFormed() then [] else Sampled(if i < |fs| then fs[i] else Zero, w)
  }

  lemma InputsFit(fs: seq<(int, int) -> real>)
    ensures ReadFits(Inputs(fs), 1)
  {
  }

  /** What the first `n` inputs leave at (r, c): the last valid pixel, else the fill. */
  function LastValid(g: Grid, srcs: seq<Source>, fs: seq<(int, int) -> real>, fill: real, n: nat, r: int, c: int): real
    requires g.Valid() && n <= |srcs| && n <= |fs|
  {
    if n == 0 then fill
    else if Placement(g, srcs[n - 1]).Contains(r, c) && fs[n - 1](r, c) != SourceNodata(srcs[n - 1]) then fs[n - 1](r, c)
    else LastValid(g, srcs, fs, fill, n - 1, r, c)
  }

  /** With every input covering the whole canvas, the last valid pixel among two inputs. */
  lemma TwoCovering(g: Grid, srcs: seq<Source>, fs: seq<(int, int) -> real>, fill: real, r: int, c: int)
    requires g.Valid() && |srcs| == 2 && |fs| == 2
    requires forall i :: 0 <= i < 2 ==> Placement(g, srcs[i]) == g.FullWindow()
    requires 0 <= r < g.height && 0 <= c < g.width
    ensures LastValid(g, srcs, fs, fill, 2, r, c) ==
      if fs[1](r, c) != SourceNodata(srcs[1]) then fs[1](r, c)
      else if fs[0](r, c) != SourceNodata(srcs[0]) then fs[0](r, c)
      else fill
  {
    assert Placement(g, srcs[1]).Contains(r, c) && Placement(g, srcs[0]).Contains(r, c);
    assert LastValid(g, srcs, fs, fill, 0, r, c) == fill;
  }

  /** The last valid pixel among four inputs, from the last input back. */
  lemma FourInputs(g: Grid, srcs: seq<Source>, fs: seq<(int, int) -> real>, fill: real, r: int, c: int)
    requires g.Valid() && |srcs| == 4 && |fs| == 4
    ensures LastValid(g, srcs, fs, fill, 4, r, c) ==
      if Placement(g, srcs[3]).Contains(r, c) && fs[3](r, c) != SourceNodata(srcs[3]) then fs[3](r, c)
      else if Placement(g, srcs[2]).Contains(r, c) && fs[2](r, c) != SourceNodata(srcs[2]) then fs[2](r, c)
      else if Placement(g, srcs[1]).Contains(r, c) && fs[1](r, c) != SourceNodata(srcs[1]) then fs[1](r, c)
      else if Placement(g, srcs[0]).Contains(r, c) && fs[0](r, c) != SourceNodata(srcs[0]) then fs[0](r, c)
      else fill
  {
    assert LastValid(g, srcs, fs, fill, 0, r, c) == fill;
    assert LastValid(g, srcs, fs, fill, 2, r, c) ==
      if Placement(g, srcs[1]).Contains(r, c) && fs[1](r, c) != SourceNodata(srcs[1]) then fs[1](r, c)
      else LastValid(g, srcs, fs, fill, 1, r, c);
  }

  lemma SampledAt(f: (int, int) -> real, w: Window, r: int, c: int)
    requires w.WellFormed() && w.Contains(r, c)
    ensures Sampled(f, w)[0][r - w.rows.start][c - w.cols.start] == f(r, c)
  {
  }

  /** Pasting input `k` writes its valid pixels, read as `fs[k]`, inside its placement. */
  lemma PastedInput(g: Grid, srcs: seq<Source>, fs: seq<(int, int) -> real>, k: nat, prev: real, r: int, c: int)
    requires g.Valid() && |srcs| > 0 && srcs[0].bands == 1 && |fs| == |srcs| && k < |srcs|
    requires ReadFits(Inputs(fs), 1)
    ensures var t := Tiles(g, srcs, Inputs(fs))[k];
      Fits(t, CanvasShape(srcs, g)) &&
      Pasted(prev, t, CanvasShape(srcs, g), 0, r, c) ==
        if Placement(g, srcs[k]).Contains(r, c) && fs[k](r, c) != SourceNodata(srcs[k]) then fs[k](r, c) else prev
  {
    var ts := Tiles(g, srcs, Inputs(fs));
    var w := Placement(g, srcs[k]);
    assert ts[k] == Tile(w, Inputs(fs)(k, w), SourceNodata(srcs[k]));
    if w.Contains(r, c) {
      SampledAt(fs[k], w, r, c);
    }
  }

  /** Compositing one-band inputs read as `fs` leaves the last valid pixel at each position. */
  lemma {:induction false} CompositeOfInputs(g: Grid, srcs: seq<Source>, fs: seq<(int, int) -> real>, fill: real,
                                             n: nat, r: int, c: int)
    requires g.Valid() && |srcs| > 0 && srcs[0].bands == 1 && |fs| == |srcs| && n <= |srcs|
    requires ReadFits(Inputs(fs), 1)
    ensures var ts := Tiles(g, srcs, Inputs(fs));
      AllFit(ts[..n], CanvasShape(srcs, g)) &&
      Composited(fill, ts[..n], CanvasShape(srcs, g), 0, r, c) == LastValid(g, srcs, fs, fill, n, r, c)
  {
    var ts := Tiles(g, srcs, Inputs(fs));
    var sh := CanvasShape(srcs, g);
    var pre := ts[..n];
    assert AllFit(pre, sh);
    if n > 0 {
      CompositeOfInputs(g, srcs, fs, fill, n - 1, r, c);
      assert pre[..n - 1] == ts[..n - 1];
      assert pre[n - 1] == ts[n - 1];
      var below := Composited(fill, ts[..n - 1], sh, 0, r, c);
      assert Composited(fill, pre, sh, 0, r, c) == Pasted(below, ts[n - 1], sh, 0, r, c);
      PastedInput(g, srcs, fs, n - 1, below, r, c);
    }
  }

  lemma CompositeOfAllInputs(g: Grid, srcs: seq<Source>, fs: seq<(int, int) -> real>, fill: real, r: int, c: int)
    requires g.Valid() && |srcs| > 0 && srcs[0].bands == 1 && |fs| == |srcs|
    requires ReadFits(Inputs(fs), 1)
    ensures Composited(fill, Tiles(g, srcs, Inputs(fs)), CanvasShape(srcs, g), 0, r, c)
      == LastValid(g, srcs, fs, fill, |srcs|, r, c)
  {
    CompositeOfInputs(g, srcs, fs, fill, |srcs|, r, c);
    assert Tiles(g, srcs, Inputs(fs))[..|srcs|] == Tiles(g, srcs, Inputs(fs));
  }

  /** The merged value at (r, c) of one-band inputs read as `fs`. */
  lemma MergedInputs(srcs: seq<Source>, bounds: Option<Bounds>, res: Option<Res>, nodata: Option<real>,
                     fs: seq<(int, int) -> real>, r: int, c: int)
    requires ValidRequest(srcs, bounds, res) && srcs[0].bands == 1 && |fs| == |srcs|
    ensures ValidMerge(srcs, bounds, res, Inputs(fs))
    ensures Merged(srcs, bounds, res, nodata, Inputs(fs), 0, r, c) ==
      LastValid(MergeGrid(srcs, bounds, res), srcs, fs, FillValue(srcs, nodata).0, |srcs|, r, c)
  {
    InputsFit(fs);
    var g := MergeGrid(srcs, bounds, res);
    CompositeOfAllInputs(g, srcs, fs, FillValue(srcs, nodata).0, r, c);
  }

  // ---------------------------------------------------------------------
  // Two coincident inputs
  // ---------------------------------------------------------------------

  /** The grid of the coincident fixtures: 10 by 10 pixels of 0.2 degrees from (-114, 46). */
  const Square := Grid(10, 10, Transform(0.2, 0.2, -114.0, 46.0))

  /** The same, with pixels 0.1 degrees tall. */
  const Flat := Grid(10, 10, Transform(0.2, 0.1, -114.0, 46.0))

  function Block(inside: real, outside: real, lo: int, hi: int): (int, int) -> real {
    (r: int, c: int) => if lo <= r < hi && lo <= c < hi then inside else outside
  }

  /** The expected result of two coincident inputs: 254 over 255 over the background. */
  function Stacked(background: real, r: int, c: int): real {
    if 4 <= r < 8 && 4 <= c < 8 then 254.0
    else if 0 <= r < 6 && 0 <= c < 6 then 255.0
    else background
  }

  /**
   * Two one-band inputs on one grid: the merged pixel is the second input's
   * if valid, else the first input's if valid, else the fill value.
   */
  lemma CoincidentAt(srcs: seq<Source>, g: Grid, fs: seq<(int, int) -> real>, nodata: Option<real>, r: int, c: int)
    requires ValidSources(srcs) && |srcs| == 2 && srcs[0].bands == 1 && |fs| == 2
    requires srcs[0].grid == g && srcs[1].grid == g
    requires 0 <= r < g.height && 0 <= c < g.width
    ensures MergeGrid(srcs, None, None) == g
    ensures ValidMerge(srcs, None, None, Inputs(fs))
    ensures Merged(srcs, None, None, nodata, Inputs(fs), 0, r, c) ==
      if fs[1](r, c) != SourceNodata(srcs[1]) then fs[1](r, c)
      else if fs[0](r, c) != SourceNodata(srcs[0]) then fs[0](r, c)
      else FillValue(srcs, nodata).0
  {
    SharedGrid(srcs, g);
    MergedInputs(srcs, None, None, nodata, fs, r, c);
    TwoCovering(g, srcs, fs, FillValue(srcs, nodata).0, r, c);
  }

  /**
   * The coincident fixtures pixel by pixel: a 255 block over rows and
   * columns 0 to 5 and a 254 block over 4 to 7, both on a background equal
   * to the inputs' nodata, merge to 254 over 255 over the fill value.
   */
  lemma StackedAt(srcs: seq<Source>, g: Grid, nd: real, nodata: Option<real>, r: int, c: int)
    requires ValidSources(srcs) && |srcs| == 2 && srcs[0].bands == 1
    requires srcs[0].grid == g && srcs[1].grid == g && g.height == 10 && g.width == 10
    requires SourceNodata(srcs[0]) == nd && SourceNodata(srcs[1]) == nd && nd != 255.0 && nd != 254.0
    requires 0 <= r < 10 && 0 <= c < 10
    ensures var fs := [Block(255.0, nd, 0, 6), Block(254.0, nd, 4, 8)];
      && ValidMerge(srcs, None, None, Inputs(fs))
      && Merged(srcs, None, None, nodata, Inputs(fs), 0, r, c) == Stacked(FillValue(srcs, nodata).0, r, c)
  {
    CoincidentAt(srcs, g, [Block(255.0, nd, 0, 6), Block(254.0, nd, 4, 8)], nodata, r, c);
  }

  /**
   * Inputs declaring nodata 1: the canvas is filled with 1, pixels equal to 1
   * never overwrite, and the second input's 254 block lies over the first's
   * 255 block.
   */
  lemma MergeWithNodata()
    ensures var srcs := [Source(1, Square, Some(1.0), UInt8), Source(1, Square, Some(1.0), UInt8)];
      var fs := [Block(255.0, 1.0, 0, 6), Block(254.0, 1.0, 4, 8)];
      && ValidMerge(srcs, None, None, Inputs(fs))
      && MergeGrid(srcs, None, None) == Square
      && FillValue(srcs, None) == (1.0, false)
      && forall r, c :: 0 <= r < 10 && 0 <= c < 10 ==>
           Merged(srcs, None, None, None, Inputs(fs), 0, r, c) == Stacked(1.0, r, c)
  {
    var srcs := [Source(1, Square, Some(1.0), UInt8), Source(1, Square, Some(1.0), UInt8)];
    var fs := [Block(255.0, 1.0, 0, 6), Block(254.0, 1.0, 4, 8)];
    CoincidentAt(srcs, Square, fs, None, 0, 0);
    forall r, c | 0 <= r < 10 && 0 <= c < 10
      ensures Merged(srcs, None, None, None, Inputs(fs), 0, r, c) == Stacked(1.0, r, c)
    {
      StackedAt(srcs, Square, 1.0, None, r, c);
    }
  }

  /**
   * Inputs declaring no nodata merge onto a 0 background, and the second
   * input's zeros do not erase the first input's data.
   */
  lemma MergeWithoutNodata()
    ensures var srcs := [Source(1, Flat, None, UInt8), Source(1, Flat, None, UInt8)];
      var fs := [Block(255.0, 0.0, 0, 6), Block(254.0, 0.0, 4, 8)];
      && ValidMerge(srcs, None, None, Inputs(fs))
      && MergeGrid(srcs, None, None) == Flat
      && FillValue(srcs, None) == (0.0, false)
      && forall r, c :: 0 <= r < 10 && 0 <= c < 10 ==>
           Merged(srcs, None, None, None, Inputs(fs), 0, r, c) == Stacked(0.0, r, c)
  {
    var srcs := [Source(1, Flat, None, UInt8), Source(1, Flat, None, UInt8)];
    var fs := [Block(255.0, 0.0, 0, 6), Block(254.0, 0.0, 4, 8)];
    CoincidentAt(srcs, Flat, fs, None, 0, 0);
    forall r, c | 0 <= r < 10 && 0 <= c < 10
      ensures Merged(srcs, None, None, None, Inputs(fs), 0, r, c) == Stacked(0.0, r, c)
    {
      StackedAt(srcs, Flat, 0.0, None, r, c);
    }
  }

  /**
   * An explicit nodata of -1 is outside the 8-bit range: the warning is
   * raised, the canvas stays 0, and the merge still yields the composite.
   */
  lemma MergeWarn()
    ensures var srcs := [Source(1, Square, Some(1.0), UInt8), Source(1, Square, Some(1.0), UInt8)];
      var fs := [Block(255.0, 1.0, 0, 6), Block(254.0, 1.0, 4, 8)];
      && FillValue(srcs, Some(-1.0)) == (0.0, true)
      && forall r, c :: 0 <= r < 10 && 0 <= c < 10 ==>
           Merged(srcs, None, None, Some(-1.0), Inputs(fs), 0, r, c) == Stacked(0.0, r, c)
  {
    var srcs := [Source(1, Square, Some(1.0), UInt8), Source(1, Square, Some(1.0), UInt8)];
    var fs := [Block(255.0, 1.0, 0, 6), Block(254.0, 1.0, 4, 8)];
    CoincidentAt(srcs, Square, fs, Some(-1.0), 0, 0);
    forall r, c | 0 <= r < 10 && 0 <= c < 10
      ensures Merged(srcs, None, None, Some(-1.0), Inputs(fs), 0, r, c) == Stacked(0.0, r, c)
    {
      StackedAt(srcs, Square, 1.0, Some(-1.0), r, c);
    }
  }

  /** A float merge with explicit nodata -1.5 fills every untouched pixel with -1.5. */
  lemma MergeFloat()
    ensures var srcs := [Source(1, Square, Some(0.0), Float64), Source(1, Square, Some(0.0), Float64)];
      var fs := [Block(255.0, 0.0, 0, 6), Block(254.0, 0.0, 4, 8)];
      && FillValue(srcs, Some(-1.5)) == (-1.5, false)
      && forall r, c :: 0 <= r < 10 && 0 <= c < 10 ==>
           Merged(srcs, None, None, Some(-1.5), Inputs(fs), 0, r, c) == Stacked(-1.5, r, c)
  {
    var srcs := [Source(1, Square, Some(0.0), Float64), Source(1, Square, Some(0.0), Float64)];
    var fs := [Block(255.0, 0.0, 0, 6), Block(254.0, 0.0, 4, 8)];
    CoincidentAt(srcs, Square, fs, Some(-1.5), 0, 0);
    forall r, c | 0 <= r < 10 && 0 <= c < 10
      ensures Merged(srcs, None, None, Some(-1.5), Inputs(fs), 0, r, c) == Stacked(-1.5, r, c)
    {
      StackedAt(srcs, Square, 0.0, Some(-1.5), r, c);
    }
  }

  // ---------------------------------------------------------------------
  // Two overlapping inputs
  // ---------------------------------------------------------------------

  function Const(v: real): (int, int) -> real {
    (r: int, c: int) => v
  }

  /** The south-east fixture: 10 by 10 pixels of 0.2 degrees from (-113, 45). */
  const SouthEast := Grid(10, 10, Transform(0.2, 0.2, -113.0, 45.0))

  /** Their union: 15 by 15 pixels of 0.2 degrees from (-114, 46). */
  const Overlapped := Grid(15, 15, Transform(0.2, 0.2, -114.0, 46.0))

  function Offset(): seq<Source> {
    [Source(1, Square, Some(0.0), UInt8), Source(1, SouthEast, Some(0.0), UInt8)]
  }

  function OffsetValues(): seq<(int, int) -> real> {
    [Const(1.0), Const(2.0)]
  }

  /** The expected 15 by 15 output of the offset inputs. */
  function OffsetExpected(r: int, c: int): real {
    if 5 <= r && 5 <= c then 2.0 else if r < 10 && c < 10 then 1.0 else 0.0
  }

  lemma OffsetExtent()
    ensures UnionExtent(Offset()) == Bounds(-114.0, 43.0, -111.0, 46.0)
  {
    assert Square.Extent() == Bounds(-114.0, 44.0, -112.0, 46.0);
    assert SouthEast.Extent() == Bounds(-113.0, 43.0, -111.0, 45.0);
  }

  lemma OffsetOutputGrid()
    ensures OutputGrid(Bounds(-114.0, 43.0, -111.0, 46.0), 0.2, 0.2) == Overlapped
  {
    CeilIs(3.0 / 0.2, 15);
  }

  lemma OverlappedExtent()
    ensures Overlapped.Extent() == Bounds(-114.0, 43.0, -111.0, 46.0)
  {
    assert 15 as real * 0.2 == 3.0;
  }

  lemma OffsetGrid()
    ensures MergeGrid(Offset(), None, None) == Overlapped
  {
    OffsetExtent();
    assert FinestRes(Offset()) == (0.2, 0.2);
    OffsetOutputGrid();
  }

  lemma OffsetLast(r: int, c: int)
    requires 0 <= r < 15 && 0 <= c < 15
    ensures LastValid(Overlapped, Offset(), OffsetValues(), 0.0, 2, r, c) == OffsetExpected(r, c)
  {
    AlignedPlacement(Overlapped, Offset()[0], 0, 10, 0, 10);
    AlignedPlacement(Overlapped, Offset()[1], 5, 15, 5, 15);
    assert LastValid(Overlapped, Offset(), OffsetValues(), 0.0, 0, r, c) == 0.0;
  }

  lemma OffsetAt(r: int, c: int)
    requires 0 <= r < 15 && 0 <= c < 15
    ensures ValidMerge(Offset(), None, None, Inputs(OffsetValues()))
    ensures Merged(Offset(), None, None, None, Inputs(OffsetValues()), 0, r, c) == OffsetExpected(r, c)
  {
    OffsetGrid();
    assert FillValue(Offset(), None).0 == 0.0;
    MergedInputs(Offset(), None, None, None, OffsetValues(), r, c);
    OffsetLast(r, c);
  }

  /**
   * Two inputs offset by five pixels each way merge onto a 15 by 15 grid
   * with bounds (-114, 43, -111, 46); the second input wins where they
   * overlap, and the pixels neither covers keep the fill value 0.
   */
  lemma MergeOverlapping()
    ensures ValidMerge(Offset(), None, None, Inputs(OffsetValues()))
    ensures MergeGrid(Offset(), None, None) == Overlapped
    ensures Overlapped.Extent() == Bounds(-114.0, 43.0, -111.0, 46.0)
    ensures forall r, c :: 0 <= r < 15 && 0 <= c < 15 ==>
      Merged(Offset(), None, None, None, Inputs(OffsetValues()), 0, r, c) == OffsetExpected(r, c)
  {
    OffsetGrid();
    OverlappedExtent();
    OffsetAt(0, 0);
    forall r, c | 0 <= r < 15 && 0 <= c < 15
      ensures Merged(Offset(), None, None, None, Inputs(OffsetValues()), 0, r, c) == OffsetExpected(r, c)
    {
      OffsetAt(r, c);
    }
  }

  // ---------------------------------------------------------------------
  // Four one-pixel inputs
  // ---------------------------------------------------------------------

  /** One-pixel inputs: a and b of size 1, c and d of size 2. */
  function Tiny(): seq<Source> {
    [ Source(1, Grid(1, 1, Transform(1.0, 1.0, 1.0, 1.0)), None, UInt8),
      Source(1, Grid(1, 1, Transform(1.0, 1.0, 2.0, 2.0)), None, UInt8),
      Source(1, Grid(1, 1, Transform(2.0, 2.0, 3.0, 4.0)), None, UInt8),
      Source(1, Grid(1, 1, Transform(2.0, 2.0, 2.0, 4.0)), None, UInt8) ]
  }

  function TinyValues(): seq<(int, int) -> real> {
    [Const(40.0), Const(60.0), Const(90.0), Const(120.0)]
  }

  lemma TinyExtent()
    ensures UnionExtent(Tiny()) == Bounds(1.0, 0.0, 5.0, 4.0)
  {
    var srcs := Tiny();
    assert srcs[0].grid.Extent() == Bounds(1.0, 0.0, 2.0, 1.0);
    assert srcs[1].grid.Extent() == Bounds(2.0, 1.0, 3.0, 2.0);
    assert srcs[2].grid.Extent() == Bounds(3.0, 2.0, 5.0, 4.0);
    assert srcs[3].grid.Extent() == Bounds(2.0, 2.0, 4.0, 4.0);
  }

  /** The output grid at the default resolution: 4 by 4 pixels of size 1 from (1, 4). */
  const TinyGrid := Grid(4, 4, Transform(1.0, 1.0, 1.0, 4.0))

  lemma TinyOutputGrid()
    ensures OutputGrid(Bounds(1.0, 0.0, 5.0, 4.0), 1.0, 1.0) == TinyGrid
  {
    CeilIs(4.0 / 1.0, 4);
  }

  lemma TinyDefaultGrid()
    ensures MergeGrid(Tiny(), None, None) == TinyGrid
  {
    TinyTarget();
    assert FinestRes(Tiny()) == (1.0, 1.0);
    TinyOutputGrid();
  }

  /** The expected 4 by 4 output of the one-pixel inputs at resolution 1. */
  function TinyExpected(r: int, c: int): real {
    if r <= 1 && (c == 1 || c == 2) then 120.0
    else if r <= 1 && c == 3 then 90.0
    else if r == 2 && c == 1 then 60.0
    else if r == 3 && c == 0 then 40.0
    else 0.0
  }

  lemma TinyPlacements()
    ensures var srcs := Tiny();
      && Placement(TinyGrid, srcs[0]) == Window(Interval(3, 4), Interval(0, 1))
      && Placement(TinyGrid, srcs[1]) == Window(Interval(2, 3), Interval(1, 2))
      && Placement(TinyGrid, srcs[2]) == Window(Interval(0, 2), Interval(2, 4))
      && Placement(TinyGrid, srcs[3]) == Window(Interval(0, 2), Interval(1, 3))
  {
    var srcs := Tiny();
    AlignedPlacement(TinyGrid, srcs[0], 3, 4, 0, 1);
    AlignedPlacement(TinyGrid, srcs[1], 2, 3, 1, 2);
    AlignedPlacement(TinyGrid, srcs[2], 0, 2, 2, 4);
    AlignedPlacement(TinyGrid, srcs[3], 0, 2, 1, 3);
  }

  lemma TinyFill()
    ensures FillValue(Tiny(), None) == (0.0, false)
  {
  }

  lemma TinyLast(r: int, c: int)
    requires 0 <= r < 4 && 0 <= c < 4
    ensures LastValid(TinyGrid, Tiny(), TinyValues(), 0.0, 4, r, c) == TinyExpected(r, c)
  {
    TinyPlacements();
    FourInputs(TinyGrid, Tiny(), TinyValues(), 0.0, r, c);
  }

  lemma TinyAt(r: int, c: int)
    requires 0 <= r < 4 && 0 <= c < 4
    ensures ValidMerge(Tiny(), None, None, Inputs(TinyValues()))
    ensures Merged(Tiny(), None, None, None, Inputs(TinyValues()), 0, r, c) == TinyExpected(r, c)
  {
    TinyDefaultGrid();
    TinyFill();
    MergedInputs(Tiny(), None, None, None, TinyValues(), r, c);
    TinyLast(r, c);
  }

  /**
   * At the finest resolution each input lands on exactly the cells its
   * footprint covers, with no seam and no skipped cell; d's 120 lies over
   * c's 90 where they share cells.
   */
  lemma MergeTiny()
    ensures ValidMerge(Tiny(), None, None, Inputs(TinyValues()))
    ensures MergeGrid(Tiny(), None, None) == TinyGrid
    ensures forall r, c :: 0 <= r < 4 && 0 <= c < 4 ==>
      Merged(Tiny(), None, None, None, Inputs(TinyValues()), 0, r, c) == TinyExpected(r, c)
  {
    TinyDefaultGrid();
    TinyAt(0, 0);
    forall r, c | 0 <= r < 4 && 0 <= c < 4
      ensures Merged(Tiny(), None, None, None, Inputs(TinyValues()), 0, r, c) == TinyExpected(r, c)
    {
      TinyAt(r, c);
    }
  }

  /** The output grid at resolution 2: 2 by 2 pixels of size 2 from (1, 4). */
  const CoarseGrid := Grid(2, 2, Transform(2.0, 2.0, 1.0, 4.0))

  /** An input inside the output lands between the pixels holding its corners. */
  lemma PlacedBetween(out: Grid, s: Source, nw: (int, int), se: (int, int))
    requires out.Valid() && s.grid.Valid() && Covers(out.Extent(), s.grid.Extent())
    requires Index(out.transform, s.grid.Extent().left, s.grid.Extent().top) == nw
    requires Index(out.transform, s.grid.Extent().right, s.grid.Extent().bottom) == se
    ensures Placement(out, s) == Window(Interval(nw.0, se.0), Interval(nw.1, se.1))
  {
    ExtentOrdered(s.grid);
    assert Clip(s.grid.Extent(), out.Extent()) == s.grid.Extent();
  }

  /** Input a (1 by 1 at (1, 1)) covers no whole coarse column. */
  lemma CoarseA()
    ensures Placement(CoarseGrid, Tiny()[0]) == Window(Interval(1, 2), Interval(0, 0))
  {
    var t := CoarseGrid.transform;
    var s := Tiny()[0];
    assert s.grid.Extent() == Bounds(1.0, 0.0, 2.0, 1.0);
    assert CoarseGrid.Extent() == Bounds(1.0, 0.0, 5.0, 4.0);
    assert ColPos(t, 1.0) == 0.0 && RowPos(t, 1.0) == 1.5;
    assert ColPos(t, 2.0) == 0.5 && RowPos(t, 0.0) == 2.0;
    FloorIs(0.0 + Tolerance, 0);
    FloorIs(1.5 + Tolerance, 1);
    FloorIs(0.5 + Tolerance, 0);
    FloorIs(2.0 + Tolerance, 2);
    assert Index(t, 1.0, 1.0) == (1, 0);
    assert Index(t, 2.0, 0.0) == (2, 0);
    PlacedBetween(CoarseGrid, s, (1, 0), (2, 0));
  }

  /** Input b (1 by 1 at (2, 2)) covers no whole coarse row. */
  lemma CoarseB()
    ensures Placement(CoarseGrid, Tiny()[1]) == Window(Interval(1, 1), Interval(0, 1))
  {
    var t := CoarseGrid.transform;
    assert ColPos(t, 2.0) == 0.5 && RowPos(t, 2.0) == 1.0;
    assert ColPos(t, 3.0) == 1.0 && RowPos(t, 1.0) == 1.5;
    FloorIs(0.5 + Tolerance, 0);
    FloorIs(1.0 + Tolerance, 1);
    FloorIs(1.5 + Tolerance, 1);
    PlacedBetween(CoarseGrid, Tiny()[1], (1, 0), (1, 1));
  }

  /** Input c (2 by 2 at (3, 4)) lands on the north-east coarse cell. */
  lemma CoarseC()
    ensures Placement(CoarseGrid, Tiny()[2]) == Window(Interval(0, 1), Interval(1, 2))
  {
    var t := CoarseGrid.transform;
    assert ColPos(t, 3.0) == 1.0 && RowPos(t, 4.0) == 0.0;
    assert ColPos(t, 5.0) == 2.0 && RowPos(t, 2.0) == 1.0;
    FloorIs(0.0 + Tolerance, 0);
    FloorIs(1.0 + Tolerance, 1);
    FloorIs(2.0 + Tolerance, 2);
    PlacedBetween(CoarseGrid, Tiny()[2], (0, 1), (1, 2));
  }

  /** Input d (2 by 2 at (2, 4)) lands on the north-west coarse cell. */
  lemma CoarseD()
    ensures Placement(CoarseGrid, Tiny()[3]) == Window(Interval(0, 1), Interval(0, 1))
  {
    var t := CoarseGrid.transform;
    assert ColPos(t, 2.0) == 0.5 && RowPos(t, 4.0) == 0.0;
    assert ColPos(t, 4.0) == 1.5 && RowPos(t, 2.0) == 1.0;
    FloorIs(0.0 + Tolerance, 0);
    FloorIs(0.5 + Tolerance, 0);
    FloorIs(1.0 + Tolerance, 1);
    FloorIs(1.5 + Tolerance, 1);
    PlacedBetween(CoarseGrid, Tiny()[3], (0, 0), (1, 1));
  }

  lemma TinyTarget()
    ensures Target(Tiny(), None) == Bounds(1.0, 0.0, 5.0, 4.0)
  {
    TinyExtent();
  }

  lemma CoarseRes(res: Res)
    requires res == Pair(2.0, 2.0) || res == Scalar(2.0)
    ensures OutputRes(Tiny(), Some(res)) == (2.0, 2.0)
  {
  }

  lemma CoarseOutputGrid()
    ensures OutputGrid(Bounds(1.0, 0.0, 5.0, 4.0), 2.0, 2.0) == CoarseGrid
  {
    CeilIs(4.0 / 2.0, 2);
  }

  lemma CoarseDefaultGrid(res: Res)
    requires res == Pair(2.0, 2.0) || res == Scalar(2.0)
    ensures MergeGrid(Tiny(), None, Some(res)) == CoarseGrid
  {
    TinyTarget();
    CoarseRes(res);
    CoarseOutputGrid();
  }

  /** The expected 2 by 2 output of the one-pixel inputs at resolution 2. */
  function CoarseExpected(r: int, c: int): real {
    if r == 0 && c == 0 then 120.0
    else if r == 0 && c == 1 then 90.0
    else 0.0
  }

  lemma CoarseLast(r: int, c: int)
    requires 0 <= r < 2 && 0 <= c < 2
    ensures LastValid(CoarseGrid, Tiny(), TinyValues(), 0.0, 4, r, c) == CoarseExpected(r, c)
  {
    CoarseA();
    CoarseB();
    CoarseC();
    CoarseD();
    FourInputs(CoarseGrid, Tiny(), TinyValues(), 0.0, r, c);
  }

  lemma CoarseAt(res: Res, r: int, c: int)
    requires res == Pair(2.0, 2.0) || res == Scalar(2.0)
    requires 0 <= r < 2 && 0 <= c < 2
    ensures ValidMerge(Tiny(), None, Some(res), Inputs(TinyValues()))
    ensures Merged(Tiny(), None, Some(res), None, Inputs(TinyValues()), 0, r, c) == CoarseExpected(r, c)
  {
    MergedInputs(Tiny(), None, Some(res), None, TinyValues(), r, c);
    CoarseDefaultGrid(res);
    TinyFill();
    assert Merged(Tiny(), None, Some(res), None, Inputs(TinyValues()), 0, r, c)
        == LastValid(CoarseGrid, Tiny(), TinyValues(), 0.0, |Tiny()|, r, c);
    CoarseLast(r, c);
  }

  /**
   * An explicit resolution of 2, as the pair (2, 2) or as the single value
   * 2, gives the same 2 by 2 output: d's 120 and c's 90 on the top row, 0
   * below.
   */
  lemma MergeTinyRes(res: Res)
    requires res == Pair(2.0, 2.0) || res == Scalar(2.0)
    ensures ValidMerge(Tiny(), None, Some(res), Inputs(TinyValues()))
    ensures MergeGrid(Tiny(), None, Some(res)) == CoarseGrid
    ensures forall r, c :: 0 <= r < 2 && 0 <= c < 2 ==>
      Merged(Tiny(), None, Some(res), None, Inputs(TinyValues()), 0, r, c) == CoarseExpected(r, c)
  {
    CoarseDefaultGrid(res);
    CoarseAt(res, 0, 0);
    forall r, c | 0 <= r < 2 && 0 <= c < 2
      ensures Merged(Tiny(), None, Some(res), None, Inputs(TinyValues()), 0, r, c) == CoarseExpected(r, c)
    {
      CoarseAt(res, r, c);
    }
  }
}
