/**
 * The merge tool: size an output grid from the inputs' footprints, choose
 * a fill value, place every input on the output grid, and composite the
 * inputs over the filled canvas in input order.
 */
module Merge {
  import opened Wrappers
  import opened Windows
  import opened Compositing
  import DataWindow

  /** The pixel data types the merge distinguishes. */
  datatype DType = UInt8 | Float64 {
    /** `v` lies in the type's range (64-bit floats are taken as unbounded). */
    predicate InRange(v: real) {
      match this
      case UInt8 => 0.0 <= v <= 255.0
      case Float64 => true
    }
  }

  /** An input dataset as the merge sees it: band count, georeferencing, declared nodata, data type. */
  datatype Source = Source(bands: nat, grid: Grid, nodata: Option<real>, dtype: DType)

  /** An explicit output resolution: one size for both axes, or an (x, y) pair. */
  datatype Res = Scalar(size: real) | Pair(x: real, y: real) {
    predicate Valid() {
      match this
      case Scalar(s) => s > 0.0
      case Pair(x, y) => x > 0.0 && y > 0.0
    }
  }

  /** Band-major pixel data. */
  type Raster = seq<seq<seq<real>>>

  /**
   * The read of input `i` resampled onto an output window; how it resamples
   * belongs to the dataset reader, so the merge takes it as a parameter.
   */
  type Reader = (nat, Window) -> Raster

  predicate ValidSources(srcs: seq<Source>) {
    |srcs| > 0 && forall i :: 0 <= i < |srcs| ==> srcs[i].grid.Valid()
  }

  predicate Ordered(b: Bounds) {
    b.left <= b.right && b.bottom <= b.top
  }

  function MinReal(a: real, b: real): real { if a <= b then a else b }

  function MaxReal(a: real, b: real): real { if a >= b then a else b }

  lemma ExtentOrdered(g: Grid)
    requires g.Valid()
    ensures Ordered(g.Extent())
  {
    MulLe(0.0, g.width as real, g.transform.xres);
    MulLe(0.0, g.height as real, g.transform.yres);
  }

  // ---------------------------------------------------------------------
  // Sizing the output grid
  // ---------------------------------------------------------------------

  /** The union of the inputs' footprints: the least bounds covering every input. */
  function UnionExtent(srcs: seq<Source>): (u: Bounds)
    requires |srcs| > 0
    ensures forall i :: 0 <= i < |srcs| ==> Covers(u, srcs[i].grid.Extent())
    ensures exists i :: 0 <= i < |srcs| && u.left == srcs[i].grid.Extent().left
    ensures exists i :: 0 <= i < |srcs| && u.bottom == srcs[i].grid.Extent().bottom
    ensures exists i :: 0 <= i < |srcs| && u.right == srcs[i].grid.Extent().right
    ensures exists i :: 0 <= i < |srcs| && u.top == srcs[i].grid.Extent().top
    decreases |srcs|
  {
    var e := srcs[0].grid.Extent();
    if |srcs| == 1 then e
    else
      var rest := srcs[1..];
      var r := UnionExtent(rest);
      assert forall i :: 0 <= i < |rest| ==> rest[i] == srcs[i + 1];
      Bounds(MinReal(e.left, r.left), MinReal(e.bottom, r.bottom),
             MaxReal(e.right, r.right), MaxReal(e.top, r.top))
  }

  /** The finest resolution among the inputs, on each axis. */
  function FinestRes(srcs: seq<Source>): (res: (real, real))
    requires |srcs| > 0
    ensures forall i :: 0 <= i < |srcs| ==>
      res.0 <= srcs[i].grid.transform.xres && res.1 <= srcs[i].grid.transform.yres
    ensures exists i :: 0 <= i < |srcs| && res.0 == srcs[i].grid.transform.xres
    ensures exists i :: 0 <= i < |srcs| && res.1 == srcs[i].grid.transform.yres
    decreases |srcs|
  {
    var t := srcs[0].grid.transform;
    if |srcs| == 1 then (t.xres, t.yres)
    else
      var rest := srcs[1..];
      var r := FinestRes(rest);
      assert forall i :: 0 <= i < |rest| ==> rest[i] == srcs[i + 1];
      (MinReal(t.xres, r.0), MinReal(t.yres, r.1))
  }

  /** The output resolution: the explicit one if given, else the finest input's. */
  function OutputRes(srcs: seq<Source>, res: Option<Res>): (xy: (real, real))
    requires ValidSources(srcs) && (res.Some? ==> res.value.Valid())
    ensures xy.0 > 0.0 && xy.1 > 0.0
    ensures res.None? ==> forall i :: 0 <= i < |srcs| ==>
      xy.0 <= srcs[i].grid.transform.xres && xy.1 <= srcs[i].grid.transform.yres
    ensures res.None? ==> exists i :: 0 <= i < |srcs| && xy.0 == srcs[i].grid.transform.xres
    ensures res.None? ==> exists i :: 0 <= i < |srcs| && xy.1 == srcs[i].grid.transform.yres
    ensures res.Some? && res.value.Scalar? ==> xy == (res.value.size, res.value.size)
    ensures res.Some? && res.value.Pair? ==> xy == (res.value.x, res.value.y)
  {
    match res
    case None =>
      var f := FinestRes(srcs);
      var i :| 0 <= i < |srcs| && f.0 == srcs[i].grid.transform.xres;
      var j :| 0 <= j < |srcs| && f.1 == srcs[j].grid.transform.yres;
      f
    case Some(Scalar(s)) => (s, s)
    case Some(Pair(x, y)) => (x, y)
  }

  /** A whole number of pixels of size `k` from `lo` reaches `hi`, and one fewer does not. */
  lemma CeilCovers(lo: real, hi: real, k: real)
    requires lo <= hi && k > 0.0
    ensures var n := Ceil((hi - lo) / k);
      n >= 0 && lo + n as real * k >= hi && (n > 0 ==> lo + (n - 1) as real * k < hi)
  {
    var u := (hi - lo) / k;
    var n := Ceil(u);
    DivMul(hi - lo, k);
    MulLe(u, n as real, k);
    assert (n - 1) as real == n as real - 1.0;
    MulLt((n - 1) as real, u, k);
    assert u * k == hi - lo;
    assert (n - 1) as real * k < hi - lo;
    assert u >= 0.0 by {
      if u < 0.0 {
        MulLt(u, 0.0, k);
      }
    }
  }

  /**
   * The output grid for bounds `b` at resolution (xres, yres): its origin is
   * the north-west corner of `b`, and its width and height are the extent
   * divided by the resolution, rounded up.
   */
  function OutputGrid(b: Bounds, xres: real, yres: real): (g: Grid)
    requires Ordered(b) && xres > 0.0 && yres > 0.0
    ensures g.Valid() && g.transform == Transform(xres, yres, b.left, b.top)
    ensures Covers(g.Extent(), b)
    ensures g.width > 0 ==> g.transform.X(g.width - 1) < b.right
    ensures g.height > 0 ==> g.transform.Y(g.height - 1) > b.bottom
  {
    CeilCovers(b.left, b.right, xres);
    CeilCovers(b.bottom, b.top, yres);
    var w := Ceil((b.right - b.left) / xres);
    var h := Ceil((b.top - b.bottom) / yres);
    Grid(h, w, Transform(xres, yres, b.left, b.top))
  }

  /** The bounds the output covers: the explicit ones if given, else the union of the inputs. */
  function Target(srcs: seq<Source>, bounds: Option<Bounds>): Bounds
    requires |srcs| > 0
  {
    bounds.GetOr(UnionExtent(srcs))
  }

  lemma UnionOrdered(srcs: seq<Source>)
    requires ValidSources(srcs)
    ensures Ordered(UnionExtent(srcs))
  {
    var i :| 0 <= i < |srcs| && UnionExtent(srcs).left == srcs[i].grid.Extent().left;
    var j :| 0 <= j < |srcs| && UnionExtent(srcs).bottom == srcs[j].grid.Extent().bottom;
    ExtentOrdered(srcs[i].grid);
    ExtentOrdered(srcs[j].grid);
  }

  predicate ValidRequest(srcs: seq<Source>, bounds: Option<Bounds>, res: Option<Res>) {
    && ValidSources(srcs)
    && (bounds.Some? ==> Ordered(bounds.value))
    && (res.Some? ==> res.value.Valid())
  }

  /** The output grid of a merge. */
  function MergeGrid(srcs: seq<Source>, bounds: Option<Bounds>, res: Option<Res>): (g: Grid)
    requires ValidRequest(srcs, bounds, res)
    ensures g.Valid()
    ensures g.transform.west == Target(srcs, bounds).left && g.transform.north == Target(srcs, bounds).top
    ensures Covers(g.Extent(), Target(srcs, bounds))
    ensures bounds.None? ==> forall i :: 0 <= i < |srcs| ==> Covers(g.Extent(), srcs[i].grid.Extent())
    ensures (g.transform.xres, g.transform.yres) == OutputRes(srcs, res)
    ensures g.width > 0 ==> g.transform.X(g.width - 1) < Target(srcs, bounds).right
    ensures g.height > 0 ==> g.transform.Y(g.height - 1) > Target(srcs, bounds).bottom
  {
    UnionOrdered(srcs);
    var xy := OutputRes(srcs, res);
    OutputGrid(Target(srcs, bounds), xy.0, xy.1)
  }

  // ---------------------------------------------------------------------
  // Fill value
  // ---------------------------------------------------------------------

  /** The nodata value the output asks for: the explicit one, else the first input's. */
  function RequestedNodata(srcs: seq<Source>, nodata: Option<real>): Option<real>
    requires |srcs| > 0
  {
    if nodata.Some? then nodata else srcs[0].nodata
  }

  /**
   * The canvas fill value and the warning flag. A requested nodata value in
   * the range of the first input's data type fills the canvas; one outside
   * it is not used (the canvas stays 0) and raises the warning that
   * suggests overriding it with the nodata option. With no nodata at all
   * the canvas is 0.
   */
  function FillValue(srcs: seq<Source>, nodata: Option<real>): (fw: (real, bool))
    requires |srcs| > 0
    ensures srcs[0].dtype.InRange(fw.0)
    ensures fw.1 ==> fw.0 == 0.0
    ensures fw.1 <==> RequestedNodata(srcs, nodata).Some? && !srcs[0].dtype.InRange(RequestedNodata(srcs, nodata).value)
    ensures !fw.1 && RequestedNodata(srcs, nodata).Some? ==> fw.0 == RequestedNodata(srcs, nodata).value
    ensures RequestedNodata(srcs, nodata).None? ==> fw.0 == 0.0
  {
    match RequestedNodata(srcs, nodata)
    case None => (0.0, false)
    case Some(v) => if srcs[0].dtype.InRange(v) then (v, false) else (0.0, true)
  }

  // ---------------------------------------------------------------------
  // Placement
  // ---------------------------------------------------------------------

  /** The part of `a` inside `b` (disordered when they do not meet). */
  function Clip(a: Bounds, b: Bounds): Bounds {
    Bounds(MaxReal(a.left, b.left), MaxReal(a.bottom, b.bottom),
           MinReal(a.right, b.right), MinReal(a.top, b.top))
  }

  lemma ColPosMono(t: Transform, x1: real, x2: real)
    requires t.Valid() && x1 <= x2
    ensures ColPos(t, x1) <= ColPos(t, x2)
  {
    DivMul(x1 - t.west, t.xres);
    DivMul(x2 - t.west, t.xres);
    if ColPos(t, x1) > ColPos(t, x2) {
      MulLt(ColPos(t, x2), ColPos(t, x1), t.xres);
    }
  }

  lemma RowPosMono(t: Transform, y1: real, y2: real)
    requires t.Valid() && y1 >= y2
    ensures RowPos(t, y1) <= RowPos(t, y2)
  {
    DivMul(t.north - y1, t.yres);
    DivMul(t.north - y2, t.yres);
    if RowPos(t, y1) > RowPos(t, y2) {
      MulLt(RowPos(t, y2), RowPos(t, y1), t.yres);
    }
  }

  /** A column index of a point between the west and east edges of the grid. */
  lemma ColInGrid(g: Grid, x1: real, x2: real)
    requires g.Valid() && g.transform.west <= x1 <= x2 <= g.transform.X(g.width)
    ensures 0 <= Floor(ColPos(g.transform, x1) + Tolerance) <= Floor(ColPos(g.transform, x2) + Tolerance) <= g.width
  {
    var t := g.transform;
    EdgePos(t, 0, 0);
    EdgePos(t, g.width, 0);
    assert t.X(0) == t.west;
    ColPosMono(t, t.X(0), x1);
    ColPosMono(t, x1, x2);
    ColPosMono(t, x2, t.X(g.width));
  }

  /** A row index of a point between the north and south edges of the grid. */
  lemma RowInGrid(g: Grid, y1: real, y2: real)
    requires g.Valid() && g.transform.north >= y1 >= y2 >= g.transform.Y(g.height)
    ensures 0 <= Floor(RowPos(g.transform, y1) + Tolerance) <= Floor(RowPos(g.transform, y2) + Tolerance) <= g.height
  {
    var t := g.transform;
    EdgePos(t, 0, 0);
    EdgePos(t, 0, g.height);
    assert t.Y(0) == t.north;
    RowPosMono(t, t.Y(0), y1);
    RowPosMono(t, y1, y2);
    RowPosMono(t, y2, t.Y(g.height));
  }

  /**
   * Where an input lands on the output grid: its footprint is clipped to the
   * output's, and the window runs from the output pixel holding the clipped
   * north-west corner to the one holding the clipped south-east corner. An
   * input lying outside the output bounds gets an empty window.
   */
  function Placement(out: Grid, s: Source): (w: Window)
    requires out.Valid()
    ensures 0 <= w.rows.start <= w.rows.stop <= out.height
    ensures 0 <= w.cols.start <= w.cols.stop <= out.width
  {
    var c := Clip(s.grid.Extent(), out.Extent());
    if Ordered(c) then
      ExtentOrdered(out);
      ColInGrid(out, c.left, c.right);
      RowInGrid(out, c.top, c.bottom);
      var nw := Index(out.transform, c.left, c.top);
      var se := Index(out.transform, c.right, c.bottom);
      Window(Interval(nw.0, se.0), Interval(nw.1, se.1))
    else
      Window(Interval(0, 0), Interval(0, 0))
  }

  /**
   * An input whose edges lie on output pixel edges lands exactly on the
   * pixels its footprint covers.
   */
  lemma AlignedPlacement(out: Grid, s: Source, r0: int, r1: int, c0: int, c1: int)
    requires out.Valid() && s.grid.Valid()
    requires Covers(out.Extent(), s.grid.Extent())
    requires r0 <= r1 && c0 <= c1
    requires s.grid.Extent() == Bounds(out.transform.X(c0), out.transform.Y(r1), out.transform.X(c1), out.transform.Y(r0))
    ensures Placement(out, s) == Window(Interval(r0, r1), Interval(c0, c1))
  {
    ExtentOrdered(s.grid);
    assert Clip(s.grid.Extent(), out.Extent()) == s.grid.Extent();
    EdgePos(out.transform, c0, r0);
    EdgePos(out.transform, c1, r1);
  }

  /**
   * No seam and no overlap, at any output resolution: when one input's east
   * edge is another's west edge, the first's window stops at the column
   * where the second's starts; likewise for a south edge shared with a north
   * edge. This is the placement convention itself (a shared edge goes
   * through the same `Index` on both sides), stated as the property that
   * rules out a skipped or doubled column or row between abutting inputs.
   */
  lemma NoSeam(out: Grid, a: Source, b: Source)
    requires out.Valid() && a.grid.Valid() && b.grid.Valid()
    requires Covers(out.Extent(), a.grid.Extent()) && Covers(out.Extent(), b.grid.Extent())
    ensures a.grid.Extent().right == b.grid.Extent().left ==>
      Placement(out, a).cols.stop == Placement(out, b).cols.start
    ensures a.grid.Extent().bottom == b.grid.Extent().top ==>
      Placement(out, a).rows.stop == Placement(out, b).rows.start
  {
    ExtentOrdered(a.grid);
    ExtentOrdered(b.grid);
    assert Clip(a.grid.Extent(), out.Extent()) == a.grid.Extent();
    assert Clip(b.grid.Extent(), out.Extent()) == b.grid.Extent();
  }

  /**
   * Inputs sharing one grid merge onto that same grid, each filling the
   * whole canvas.
   */
  lemma SharedGrid(srcs: seq<Source>, g: Grid)
    requires ValidSources(srcs) && forall i :: 0 <= i < |srcs| ==> srcs[i].grid == g
    ensures MergeGrid(srcs, None, None) == g
    ensures forall i :: 0 <= i < |srcs| ==> Placement(g, srcs[i]) == g.FullWindow()
  {
    var t := g.transform;
    assert srcs[0].grid == g;
    EdgePos(t, g.width, g.height);
    assert UnionExtent(srcs) == g.Extent();
    CeilIs(g.width as real, g.width);
    CeilIs(g.height as real, g.height);
    assert t.X(0) == t.west && t.Y(0) == t.north;
    forall i | 0 <= i < |srcs|
      ensures Placement(g, srcs[i]) == g.FullWindow()
    {
      AlignedPlacement(g, srcs[i], 0, g.height, 0, g.width);
    }
  }

  // ---------------------------------------------------------------------
  // Compositing the inputs
  // ---------------------------------------------------------------------

  /** The reader returns `bands` bands shaped like the window asked for. */
  ghost predicate ReadFits(read: Reader, bands: nat) {
    forall i: nat, w: Window :: w.WellFormed() ==>
      |read(i, w)| == bands &&
      DataWindow.Shaped(read(i, w), w.rows.stop - w.rows.start, w.cols.stop - w.cols.start)
  }

  /** A pixel is valid unless it equals its input's nodata; an undeclared nodata counts as 0. */
  function SourceNodata(s: Source): real {
    s.nodata.GetOr(0.0)
  }

  function CanvasShape(srcs: seq<Source>, g: Grid): Shape
    requires |srcs| > 0
  {
    Shape(srcs[0].bands, g.height, g.width)
  }

  /** Each input placed on the output grid, with its pixels read into its window. */
  function Tiles(out: Grid, srcs: seq<Source>, read: Reader): (ts: seq<Tile>)
    requires out.Valid() && |srcs| > 0 && ReadFits(read, srcs[0].bands)
    ensures |ts| == |srcs|
    ensures AllFit(ts, CanvasShape(srcs, out))
    ensures forall i :: 0 <= i < |srcs| ==>
      && ts[i].window == Placement(out, srcs[i])
      && ts[i].pixels == read(i, ts[i].window)
      && ts[i].nodata == SourceNodata(srcs[i])
  {
    var ts := seq(|srcs|, i requires 0 <= i < |srcs| =>
      var w := Placement(out, srcs[i]);
      Tile(w, read(i, w), SourceNodata(srcs[i])));
    assert forall i :: 0 <= i < |ts| ==> ts[i].window == Placement(out, srcs[i]) && ts[i].window.WellFormed();
    ts
  }

  ghost predicate ValidMerge(srcs: seq<Source>, bounds: Option<Bounds>, res: Option<Res>, read: Reader) {
    ValidRequest(srcs, bounds, res) && ReadFits(read, srcs[0].bands)
  }

  /** The value at band b, row r, column c of the merged output. */
  function Merged(srcs: seq<Source>, bounds: Option<Bounds>, res: Option<Res>, nodata: Option<real>,
                  read: Reader, b: int, r: int, c: int): real
    requires ValidMerge(srcs, bounds, res, read) && 0 <= b < srcs[0].bands
  {
    var g := MergeGrid(srcs, bounds, res);
    Composited(FillValue(srcs, nodata).0, Tiles(g, srcs, read), CanvasShape(srcs, g), b, r, c)
  }

  /**
   * Input `k`, read onto its placement on the output grid `g`, holds a
   * valid pixel at band `b`, row `r`, column `c` of the output.
   */
  predicate InputValidAt(g: Grid, srcs: seq<Source>, read: Reader, k: nat, b: int, r: int, c: int)
    requires g.Valid() && k < |srcs| && ReadFits(read, srcs[0].bands) && 0 <= b < srcs[0].bands
  {
    var w := Placement(g, srcs[k]);
    w.Contains(r, c) && read(k, w)[b][r - w.rows.start][c - w.cols.start] != SourceNodata(srcs[k])
  }

  /** The pixel input `k` contributes at (b, r, c) of the output grid `g`. */
  function InputPixel(g: Grid, srcs: seq<Source>, read: Reader, k: nat, b: int, r: int, c: int): real
    requires g.Valid() && k < |srcs| && ReadFits(read, srcs[0].bands) && 0 <= b < srcs[0].bands
    requires Placement(g, srcs[k]).Contains(r, c)
  {
    var w := Placement(g, srcs[k]);
    read(k, w)[b][r - w.rows.start][c - w.cols.start]
  }

  /** Input `k`'s tile writes a cell exactly when the input holds a valid pixel there. */
  lemma TileWrites(g: Grid, srcs: seq<Source>, read: Reader, k: nat, b: int, r: int, c: int)
    requires g.Valid() && k < |srcs| && ReadFits(read, srcs[0].bands) && 0 <= b < srcs[0].bands
    ensures var ts := Tiles(g, srcs, read);
      && (WritesAt(ts[k], CanvasShape(srcs, g), b, r, c) <==> InputValidAt(g, srcs, read, k, b, r, c))
      && (InputValidAt(g, srcs, read, k, b, r, c) ==>
            PixelAt(ts[k], CanvasShape(srcs, g), b, r, c) == InputPixel(g, srcs, read, k, b, r, c))
  {
  }

  /** On any output grid, the composite of the inputs' tiles holds the last valid input's pixel. */
  lemma LastTileWins(g: Grid, srcs: seq<Source>, read: Reader, fill: real, b: int, r: int, c: int, k: nat)
    requires g.Valid() && k < |srcs| && ReadFits(read, srcs[0].bands) && 0 <= b < srcs[0].bands
    requires InputValidAt(g, srcs, read, k, b, r, c)
    requires forall j :: k < j < |srcs| ==> !InputValidAt(g, srcs, read, j, b, r, c)
    ensures Composited(fill, Tiles(g, srcs, read), CanvasShape(srcs, g), b, r, c) == InputPixel(g, srcs, read, k, b, r, c)
  {
    var ts, sh := Tiles(g, srcs, read), CanvasShape(srcs, g);
    forall j | k < j < |srcs| ensures !WritesAt(ts[j], sh, b, r, c) {
      TileWrites(g, srcs, read, j, b, r, c);
    }
    TileWrites(g, srcs, read, k, b, r, c);
    LastWriterWins(fill, ts, sh, b, r, c, k);
  }

  /** On any output grid, a cell no input writes keeps the fill value. */
  lemma NoTileKeepsFill(g: Grid, srcs: seq<Source>, read: Reader, fill: real, b: int, r: int, c: int)
    requires g.Valid() && |srcs| > 0 && ReadFits(read, srcs[0].bands) && 0 <= b < srcs[0].bands
    requires forall j :: 0 <= j < |srcs| ==> !InputValidAt(g, srcs, read, j, b, r, c)
    ensures Composited(fill, Tiles(g, srcs, read), CanvasShape(srcs, g), b, r, c) == fill
  {
    var ts, sh := Tiles(g, srcs, read), CanvasShape(srcs, g);
    forall j | 0 <= j < |srcs| ensures !WritesAt(ts[j], sh, b, r, c) {
      TileWrites(g, srcs, read, j, b, r, c);
    }
    UnwrittenKeepsFill(fill, ts, sh, b, r, c);
  }

  /**
   * Later inputs win: the merged value at a cell is the pixel of the last
   * input holding a valid pixel there, in any band, whatever the reader.
   */
  lemma LastInputWins(srcs: seq<Source>, bounds: Option<Bounds>, res: Option<Res>, nodata: Option<real>,
                      read: Reader, b: int, r: int, c: int, k: nat)
    requires ValidMerge(srcs, bounds, res, read) && 0 <= b < srcs[0].bands && k < |srcs|
    requires InputValidAt(MergeGrid(srcs, bounds, res), srcs, read, k, b, r, c)
    requires forall j :: k < j < |srcs| ==> !InputValidAt(MergeGrid(srcs, bounds, res), srcs, read, j, b, r, c)
    ensures Merged(srcs, bounds, res, nodata, read, b, r, c) == InputPixel(MergeGrid(srcs, bounds, res), srcs, read, k, b, r, c)
  {
    LastTileWins(MergeGrid(srcs, bounds, res), srcs, read, FillValue(srcs, nodata).0, b, r, c, k);
  }

  /** A cell where no input holds a valid pixel keeps the fill value. */
  lemma NoInputKeepsFill(srcs: seq<Source>, bounds: Option<Bounds>, res: Option<Res>, nodata: Option<real>,
                         read: Reader, b: int, r: int, c: int)
    requires ValidMerge(srcs, bounds, res, read) && 0 <= b < srcs[0].bands
    requires forall j :: 0 <= j < |srcs| ==> !InputValidAt(MergeGrid(srcs, bounds, res), srcs, read, j, b, r, c)
    ensures Merged(srcs, bounds, res, nodata, read, b, r, c) == FillValue(srcs, nodata).0
  {
    NoTileKeepsFill(MergeGrid(srcs, bounds, res), srcs, read, FillValue(srcs, nodata).0, b, r, c);
  }

  /**
   * `merge(sources, bounds, res, nodata)`: returns the output raster, its
   * transform, and whether the fill value warning was raised.
   */
  method Run(srcs: seq<Source>, bounds: Option<Bounds>, res: Option<Res>, nodata: Option<real>, read: Reader)
    returns (dest: array3<real>, transform: Transform, warning: bool)
    requires ValidMerge(srcs, bounds, res, read)
    ensures var g := MergeGrid(srcs, bounds, res);
      transform == g.transform &&
      dest.Length0 == srcs[0].bands && dest.Length1 == g.height && dest.Length2 == g.width
    ensures forall b, r, c :: 0 <= b < dest.Length0 && 0 <= r < dest.Length1 && 0 <= c < dest.Length2 ==>
      dest[b, r, c] == Merged(srcs, bounds, res, nodata, read, b, r, c)
    ensures warning == FillValue(srcs, nodata).1
    ensures fresh(dest)
  {
    var g := MergeGrid(srcs, bounds, res);
    var fw := FillValue(srcs, nodata);
    dest := Composite(CanvasShape(srcs, g), fw.0, Tiles(g, srcs, read));
    transform := g.transform;
    warning := fw.1;
  }
}
