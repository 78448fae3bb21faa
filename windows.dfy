/**
 * Window algebra: conversions between georeferenced coordinates and pixel
 * windows for a north-up affine transform, and the union, intersection and
 * overlap test of sets of windows.
 */
module Windows {
  import opened Wrappers

  /** A half-open interval [start, stop) of pixel rows or of pixel columns. */
  datatype Interval = Interval(start: int, stop: int) {
    predicate WellFormed() { start <= stop }
    predicate Contains(i: int) { start <= i < stop }
  }

  /** `inner` lies inside `outer`: its start is not before and its stop not after. */
  predicate Inside(inner: Interval, outer: Interval) {
    outer.start <= inner.start && inner.stop <= outer.stop
  }

  /** Two intervals overlap or touch: neither lies wholly past the other. */
  predicate Overlap(a: Interval, b: Interval) {
    !(a.start > b.stop || a.stop < b.start)
  }

  /** A pixel window `((row_start, row_stop), (col_start, col_stop))`, rows first. */
  datatype Window = Window(rows: Interval, cols: Interval) {
    predicate WellFormed() { rows.WellFormed() && cols.WellFormed() }
    predicate Contains(r: int, c: int) { rows.Contains(r) && cols.Contains(c) }
  }

  predicate WindowInside(inner: Window, outer: Window) {
    Inside(inner.rows, outer.rows) && Inside(inner.cols, outer.cols)
  }

  /** A georeferenced rectangle `(left, bottom, right, top)`. */
  datatype Bounds = Bounds(left: real, bottom: real, right: real, top: real)

  /** `outer` covers `inner`: every edge of `outer` lies on or beyond that of `inner`. */
  predicate Covers(outer: Bounds, inner: Bounds) {
    outer.left <= inner.left && outer.bottom <= inner.bottom &&
    outer.right >= inner.right && outer.top >= inner.top
  }

  /**
   * A north-up affine transform: pixel (col, row) maps to
   * x = west + col * xres and y = north - row * yres.
   */
  datatype Transform = Transform(xres: real, yres: real, west: real, north: real) {
    predicate Valid() { xres > 0.0 && yres > 0.0 }

    /** The x coordinate of the left edge of column `col`. */
    function X(col: int): real { west + col as real * xres }

    /** The y coordinate of the top edge of row `row`. */
    function Y(row: int): real { north - row as real * yres }
  }

  /** A dataset's georeferencing: its pixel shape and its transform. */
  datatype Grid = Grid(height: nat, width: nat, transform: Transform) {
    predicate Valid() { transform.Valid() }

    function Extent(): Bounds {
      Bounds(transform.west, transform.Y(height), transform.X(width), transform.north)
    }

    function FullWindow(): Window {
      Window(Interval(0, height), Interval(0, width))
    }
  }

  /**
   * Positions within a millionth of a pixel of a pixel edge snap to that edge
   * (the default precision of six decimal places, in pixel units), so that
   * coordinates carrying floating-point noise quantize to the intended pixel.
   */
  const Tolerance: real := 0.000001

  function Floor(u: real): (n: int)
    ensures n as real <= u < n as real + 1.0
  {
    u.Floor
  }

  function Ceil(u: real): (n: int)
    ensures n as real - 1.0 < u <= n as real
  {
    -((-u).Floor)
  }

  /** The continuous column position of `x`, in pixels east of the origin. */
  function ColPos(t: Transform, x: real): real
    requires t.Valid()
  {
    (x - t.west) / t.xres
  }

  /** The continuous row position of `y`, in pixels south of the origin. */
  function RowPos(t: Transform, y: real): real
    requires t.Valid()
  {
    (t.north - y) / t.yres
  }

  lemma MulLe(a: real, b: real, k: real)
    requires a <= b && k > 0.0
    ensures a * k <= b * k
  {
  }

  lemma MulLt(a: real, b: real, k: real)
    requires a < b && k > 0.0
    ensures a * k < b * k
  {
  }

  lemma DivMul(p: real, k: real)
    requires k > 0.0
    ensures (p / k) * k == p
  {
  }

  lemma DivLe(a: real, b: real, k: real)
    requires k > 0.0 && a <= b * k
    ensures a / k <= b
  {
  }

  lemma DivGt(a: real, b: real, k: real)
    requires k > 0.0 && a > b * k
    ensures a / k > b
  {
  }

  /** Dividing a multiple of `k` plus an offset by `k`. */
  lemma DivSum(m: real, d: real, k: real)
    requires k > 0.0
    ensures (m * k + d) / k == m + d / k
  {
    DivMul(d, k);
    assert (m + d / k) * k == m * k + (d / k) * k;
  }

  /** A point `d` east of a column edge is `d / xres` pixels past it. */
  lemma ColPosOffset(t: Transform, col: int, d: real)
    requires t.Valid()
    ensures ColPos(t, t.X(col) + d) == col as real + d / t.xres
  {
    assert t.X(col) + d - t.west == col as real * t.xres + d;
    DivSum(col as real, d, t.xres);
  }

  /** A point `d` south of a row edge is `d / yres` pixels past it. */
  lemma RowPosOffset(t: Transform, row: int, d: real)
    requires t.Valid()
    ensures RowPos(t, t.Y(row) - d) == row as real + d / t.yres
  {
    assert t.north - (t.Y(row) - d) == row as real * t.yres + d;
    DivSum(row as real, d, t.yres);
  }

  /** Scaling by a positive factor keeps the bounds on both sides of a value. */
  lemma ScaleBracket(u: real, lo: real, hi: real, k: real, v: real)
    requires k > 0.0 && u * k == v
    ensures lo <= u ==> lo * k <= v
    ensures lo < u ==> lo * k < v
    ensures u <= hi ==> v <= hi * k
    ensures u < hi ==> v < hi * k
  {
    if lo <= u { MulLe(lo, u, k); }
    if lo < u { MulLt(lo, u, k); }
    if u <= hi { MulLe(u, hi, k); }
    if u < hi { MulLt(u, hi, k); }
  }

  /**
   * Snapping a position `p` down after nudging it forward by the tolerance:
   * scaled by `k`, the edge reached brackets the nudged distance `q`.
   */
  lemma FloorScaled(p: real, k: real, q: real)
    requires k > 0.0 && p * k == q
    ensures var n := Floor(p + Tolerance);
      n as real * k <= q + Tolerance * k < (n + 1) as real * k
  {
    var n := Floor(p + Tolerance);
    assert (n + 1) as real == n as real + 1.0;
    assert (p + Tolerance) * k == q + Tolerance * k;
    ScaleBracket(p + Tolerance, n as real, (n + 1) as real, k, q + Tolerance * k);
  }

  /** Snapping a position up after pulling it back by the tolerance. */
  lemma CeilScaled(p: real, k: real, q: real)
    requires k > 0.0 && p * k == q
    ensures var n := Ceil(p - Tolerance);
      (n - 1) as real * k < q - Tolerance * k <= n as real * k
  {
    var n := Ceil(p - Tolerance);
    assert (n - 1) as real == n as real - 1.0;
    assert (p - Tolerance) * k == q - Tolerance * k;
    ScaleBracket(p - Tolerance, (n - 1) as real, n as real, k, q - Tolerance * k);
  }

  /** The column of the point nudged east by the tolerance. */
  lemma ColStart(t: Transform, x: real)
    requires t.Valid()
    ensures var n := Floor(ColPos(t, x) + Tolerance);
      t.X(n) <= x + Tolerance * t.xres < t.X(n + 1)
  {
    DivMul(x - t.west, t.xres);
    FloorScaled(ColPos(t, x), t.xres, x - t.west);
    var n := Floor(ColPos(t, x) + Tolerance);
    assert n as real * t.xres <= x - t.west + Tolerance * t.xres;
    assert x - t.west + Tolerance * t.xres < (n + 1) as real * t.xres;
  }

  /** The column edge at or east of the point nudged west by the tolerance. */
  lemma ColStop(t: Transform, x: real)
    requires t.Valid()
    ensures var n := Ceil(ColPos(t, x) - Tolerance);
      t.X(n - 1) < x - Tolerance * t.xres <= t.X(n)
  {
    DivMul(x - t.west, t.xres);
    CeilScaled(ColPos(t, x), t.xres, x - t.west);
    var n := Ceil(ColPos(t, x) - Tolerance);
    assert (n - 1) as real * t.xres < x - t.west - Tolerance * t.xres;
    assert x - t.west - Tolerance * t.xres <= n as real * t.xres;
  }

  /** The row of the point nudged south by the tolerance. */
  lemma RowStart(t: Transform, y: real)
    requires t.Valid()
    ensures var n := Floor(RowPos(t, y) + Tolerance);
      t.Y(n + 1) < y - Tolerance * t.yres <= t.Y(n)
  {
    DivMul(t.north - y, t.yres);
    FloorScaled(RowPos(t, y), t.yres, t.north - y);
    var n := Floor(RowPos(t, y) + Tolerance);
    assert n as real * t.yres <= t.north - y + Tolerance * t.yres;
    assert t.north - y + Tolerance * t.yres < (n + 1) as real * t.yres;
  }

  /** The row edge at or south of the point nudged north by the tolerance. */
  lemma RowStop(t: Transform, y: real)
    requires t.Valid()
    ensures var n := Ceil(RowPos(t, y) - Tolerance);
      t.Y(n) <= y + Tolerance * t.yres < t.Y(n - 1)
  {
    DivMul(t.north - y, t.yres);
    CeilScaled(RowPos(t, y), t.yres, t.north - y);
    var n := Ceil(RowPos(t, y) - Tolerance);
    assert (n - 1) as real * t.yres < t.north - y - Tolerance * t.yres;
    assert t.north - y - Tolerance * t.yres <= n as real * t.yres;
  }

  /** A pixel edge lies a whole number of pixels from the origin. */
  lemma EdgePos(t: Transform, col: int, row: int)
    requires t.Valid()
    ensures ColPos(t, t.X(col)) == col as real && RowPos(t, t.Y(row)) == row as real
    ensures Floor(col as real + Tolerance) == col && Ceil(col as real - Tolerance) == col
    ensures Floor(row as real + Tolerance) == row && Ceil(row as real - Tolerance) == row
  {
    assert t.X(col) - t.west == col as real * t.xres;
    assert t.north - t.Y(row) == row as real * t.yres;
  }

  /**
   * `index(x, y)`: the (row, col) of the pixel containing the point, taking
   * the floor of its continuous pixel position; a point on a pixel edge, or
   * within the tolerance before it, belongs to the pixel east or south of it.
   */
  function Index(t: Transform, x: real, y: real): (rc: (int, int))
    requires t.Valid()
    ensures t.X(rc.1) <= x + Tolerance * t.xres < t.X(rc.1 + 1)
    ensures t.Y(rc.0 + 1) < y - Tolerance * t.yres <= t.Y(rc.0)
  {
    ColStart(t, x);
    RowStart(t, y);
    (Floor(RowPos(t, y) + Tolerance), Floor(ColPos(t, x) + Tolerance))
  }

  /** The bounds shrunk on every side by the snapping tolerance. */
  function Inset(t: Transform, b: Bounds): Bounds {
    Bounds(b.left + Tolerance * t.xres, b.bottom + Tolerance * t.yres,
           b.right - Tolerance * t.xres, b.top - Tolerance * t.yres)
  }

  /**
   * `window(left, bottom, right, top)`: the smallest pixel-aligned window
   * whose footprint covers the bounds (less the snapping tolerance): starts
   * are rounded down and stops up. Bounds beyond the dataset give a window
   * beyond its array (a boundless window); nothing is clipped or refused.
   */
  function ToWindow(t: Transform, b: Bounds): (w: Window)
    requires t.Valid()
    ensures Covers(WindowBounds(t, w), Inset(t, b))
    ensures t.X(w.cols.start + 1) > b.left + Tolerance * t.xres
    ensures t.X(w.cols.stop - 1) < b.right - Tolerance * t.xres
    ensures t.Y(w.rows.start + 1) < b.top - Tolerance * t.yres
    ensures t.Y(w.rows.stop - 1) > b.bottom + Tolerance * t.yres
  {
    ColStart(t, b.left);
    ColStop(t, b.right);
    RowStart(t, b.top);
    RowStop(t, b.bottom);
    Window(Interval(Floor(RowPos(t, b.top) + Tolerance), Ceil(RowPos(t, b.bottom) - Tolerance)),
           Interval(Floor(ColPos(t, b.left) + Tolerance), Ceil(ColPos(t, b.right) - Tolerance)))
  }

  /**
   * `window_bounds(window)`: the georeferenced rectangle of a window's
   * footprint; its north-west corner indexes back to the window's first
   * pixel and its south-east corner to its stops.
   */
  function WindowBounds(t: Transform, w: Window): (b: Bounds)
    ensures t.Valid() ==> Index(t, b.left, b.top) == (w.rows.start, w.cols.start)
    ensures t.Valid() ==> Index(t, b.right, b.bottom) == (w.rows.stop, w.cols.stop)
  {
    var b := Bounds(t.X(w.cols.start), t.Y(w.rows.stop), t.X(w.cols.stop), t.Y(w.rows.start));
    if t.Valid() then
      EdgePos(t, w.cols.start, w.rows.start);
      EdgePos(t, w.cols.stop, w.rows.stop);
      b
    else
      b
  }

  /** Round trip: the window of a window's bounds is that window. */
  lemma RoundTrip(t: Transform, w: Window)
    requires t.Valid()
    ensures ToWindow(t, WindowBounds(t, w)) == w
  {
    EdgePos(t, w.cols.start, w.rows.start);
    EdgePos(t, w.cols.stop, w.rows.stop);
  }

  /**
   * Covering law: extend a window's bounds south and east by more than the
   * tolerance and at most a pixel; the window of the result, converted back
   * to bounds, covers the extended rectangle.
   */
  lemma CoverExtended(t: Transform, w: Window, south: real, east: real)
    requires t.Valid()
    requires Tolerance * t.yres < south <= t.yres && Tolerance * t.xres < east <= t.xres
    ensures var b := WindowBounds(t, w);
      var ext := Bounds(b.left, b.bottom - south, b.right + east, b.top);
      Covers(WindowBounds(t, ToWindow(t, ext)), ext)
  {
    EdgePos(t, w.cols.start, w.rows.start);
    ExtendCol(t, w.cols.stop, east);
    ExtendRow(t, w.rows.stop, south);
    var b := WindowBounds(t, w);
    var ext := Bounds(b.left, b.bottom - south, b.right + east, b.top);
    assert ToWindow(t, ext) == Window(Interval(w.rows.start, w.rows.stop + 1), Interval(w.cols.start, w.cols.stop + 1));
  }

  /** A column stop edge pushed east by more than the tolerance and at most a pixel moves one column. */
  lemma ExtendCol(t: Transform, col: int, east: real)
    requires t.Valid() && Tolerance * t.xres < east <= t.xres
    ensures Ceil(ColPos(t, t.X(col) + east) - Tolerance) == col + 1
    ensures t.X(col + 1) >= t.X(col) + east
  {
    ColPosOffset(t, col, east);
    DivGt(east, Tolerance, t.xres);
    DivLe(east, 1.0, t.xres);
    CeilIs(col as real + east / t.xres - Tolerance, col + 1);
    assert (col + 1) as real * t.xres == col as real * t.xres + t.xres;
  }

  /** A row stop edge pushed south by more than the tolerance and at most a pixel moves one row. */
  lemma ExtendRow(t: Transform, row: int, south: real)
    requires t.Valid() && Tolerance * t.yres < south <= t.yres
    ensures Ceil(RowPos(t, t.Y(row) - south) - Tolerance) == row + 1
    ensures t.Y(row + 1) <= t.Y(row) - south
  {
    RowPosOffset(t, row, south);
    DivGt(south, Tolerance, t.yres);
    DivLe(south, 1.0, t.yres);
    CeilIs(row as real + south / t.yres - Tolerance, row + 1);
    assert (row + 1) as real * t.yres == row as real * t.yres + t.yres;
  }

  lemma FloorIs(u: real, n: int)
    requires n as real <= u < n as real + 1.0
    ensures Floor(u) == n
  {
  }

  lemma CeilIs(u: real, n: int)
    requires n as real - 1.0 < u <= n as real
    ensures Ceil(u) == n
  {
  }

  /** The corners of a dataset index to the corners of its pixel array. */
  lemma CornerIndices(g: Grid)
    requires g.Valid()
    ensures var b := g.Extent();
      && Index(g.transform, b.left, b.top) == (0, 0)
      && Index(g.transform, b.right, b.top) == (0, g.width)
      && Index(g.transform, b.right, b.bottom) == (g.height, g.width)
      && Index(g.transform, b.left, b.bottom) == (g.height, 0)
  {
    var t := g.transform;
    EdgePos(t, 0, 0);
    EdgePos(t, g.width, g.height);
  }

  /** Pixel sizes near 300 units on both axes, like those of the dataset the window tests read. */
  predicate NearThreeHundred(t: Transform) {
    250.0 <= t.xres <= 330.0 && 250.0 <= t.yres <= 330.0
  }

  /**
   * Fractional positions: 400 units east of the origin is column 1, 700
   * units south is row 2, and one pixel plus a small epsilon south-east of
   * the origin is pixel (1, 1).
   */
  lemma IndexValues(t: Transform, eps: real)
    requires NearThreeHundred(t)
    requires 0.0 <= eps <= t.xres / 2.0 && eps <= t.yres / 2.0
    ensures Index(t, t.west, t.north) == (0, 0)
    ensures Index(t, t.west + 400.0, t.north) == (0, 1)
    ensures Index(t, t.west + 400.0, t.north - 700.0) == (2, 1)
    ensures Index(t, t.west + 400.0, t.north - 400.0) == (1, 1)
    ensures Index(t, t.west + t.xres + eps, t.north - t.yres - eps) == (1, 1)
  {
    FloorIs(0.0 / t.xres + Tolerance, 0);
    FloorIs(0.0 / t.yres + Tolerance, 0);
    FloorIs(400.0 / t.xres + Tolerance, 1);
    FloorIs(700.0 / t.yres + Tolerance, 2);
    FloorIs(400.0 / t.yres + Tolerance, 1);
    assert (t.west + t.xres + eps - t.west) / t.xres == 1.0 + eps / t.xres;
    assert (t.north - (t.north - t.yres - eps)) / t.yres == 1.0 + eps / t.yres;
    FloorIs(1.0 + eps / t.xres + Tolerance, 1);
    FloorIs(1.0 + eps / t.yres + Tolerance, 1);
  }

  /** The window of a dataset's own bounds is the full array window. */
  lemma FullWindowOfBounds(g: Grid)
    requires g.Valid()
    ensures ToWindow(g.transform, g.Extent()) == g.FullWindow()
  {
    RoundTrip(g.transform, g.FullWindow());
  }

  /** Snapping a position a fraction of at most half a pixel past an edge. */
  lemma SnapNear(n: int, f: real)
    requires 0.0 <= f <= 0.5
    ensures Floor(n as real + f + Tolerance) == n
    ensures Ceil(n as real - f - Tolerance) == n
  {
  }

  /** A start edge moved inward by at most half a pixel snaps back to the edge. */
  lemma InsetStarts(t: Transform, eps: real)
    requires t.Valid()
    requires 0.0 <= eps <= t.xres / 2.0 && eps <= t.yres / 2.0
    ensures Floor(ColPos(t, t.west + eps) + Tolerance) == 0
    ensures Floor(RowPos(t, t.north - eps) + Tolerance) == 0
  {
    DivLe(eps, 0.5, t.xres);
    DivLe(eps, 0.5, t.yres);
    ColPosOffset(t, 0, eps);
    assert ColPos(t, t.west + eps) == 0 as real + eps / t.xres;
    SnapNear(0, eps / t.xres);
    RowPosOffset(t, 0, eps);
    assert RowPos(t, t.north - eps) == 0 as real + eps / t.yres;
    SnapNear(0, eps / t.yres);
  }

  /** A stop edge moved inward by at most half a pixel snaps back to the edge. */
  lemma InsetStops(t: Transform, width: nat, height: nat, eps: real)
    requires t.Valid()
    requires 0.0 <= eps <= t.xres / 2.0 && eps <= t.yres / 2.0
    ensures Ceil(ColPos(t, t.X(width) - eps) - Tolerance) == width
    ensures Ceil(RowPos(t, t.Y(height) + eps) - Tolerance) == height
  {
    DivLe(eps, 0.5, t.xres);
    DivLe(eps, 0.5, t.yres);
    ColPosOffset(t, width, -eps);
    assert ColPos(t, t.X(width) - eps) == width as real - eps / t.xres;
    SnapNear(width, eps / t.xres);
    RowPosOffset(t, height, -eps);
    assert RowPos(t, t.Y(height) + eps) == height as real - eps / t.yres;
    SnapNear(height, eps / t.yres);
  }

  /**
   * The window of a dataset's bounds inset by a small epsilon (at most half
   * a pixel) on every side is still the full array window.
   */
  lemma FullWindowOfInsetBounds(g: Grid, eps: real)
    requires g.Valid()
    requires 0.0 <= eps <= g.transform.xres / 2.0 && eps <= g.transform.yres / 2.0
    ensures var b := g.Extent();
      ToWindow(g.transform, Bounds(b.left + eps, b.bottom + eps, b.right - eps, b.top - eps))
        == g.FullWindow()
  {
    InsetStarts(g.transform, eps);
    InsetStops(g.transform, g.width, g.height, eps);
  }

  /**
   * Extending a dataset's bounds 1000 units west of pixels near 300 units
   * wide gives a window starting at column -4, without clipping or failing;
   * the other three edges stay those of the full window.
   */
  lemma BoundlessWest(g: Grid)
    requires g.Valid() && NearThreeHundred(g.transform)
    ensures var b := g.Extent();
      ToWindow(g.transform, Bounds(b.left - 1000.0, b.bottom, b.right, b.top))
        == Window(Interval(0, g.height), Interval(-4, g.width))
  {
    var t, b := g.transform, g.Extent();
    FullWindowOfBounds(g);
    assert (b.left - 1000.0 - t.west) / t.xres == -1000.0 / t.xres;
    FloorIs(-1000.0 / t.xres + Tolerance, -4);
  }

  /** A 400 by 400 box at the dataset origin covers two pixels each way. */
  lemma FourHundredBox(t: Transform)
    requires NearThreeHundred(t)
    ensures ToWindow(t, Bounds(t.west, t.north - 400.0, t.west + 400.0, t.north))
      == Window(Interval(0, 2), Interval(0, 2))
  {
    FloorIs(0.0 / t.xres + Tolerance, 0);
    FloorIs(0.0 / t.yres + Tolerance, 0);
    CeilIs(400.0 / t.xres - Tolerance, 2);
    CeilIs(400.0 / t.yres - Tolerance, 2);
  }

  /** A column stop edge pulled west by less than the tolerance snaps back to it. */
  lemma NearStopCol(t: Transform, col: int, eps: real)
    requires t.Valid() && 0.0 <= eps <= Tolerance * t.xres
    ensures Ceil(ColPos(t, t.X(col) - eps) - Tolerance) == col
  {
    DivLe(eps, Tolerance, t.xres);
    ColPosOffset(t, col, -eps);
    assert ColPos(t, t.X(col) - eps) == col as real - eps / t.xres;
    CeilIs(col as real - eps / t.xres - Tolerance, col);
  }

  /** A row stop edge pushed south by less than the tolerance snaps back to it. */
  lemma NearStopRow(t: Transform, row: int, eps: real)
    requires t.Valid() && 0.0 <= eps <= Tolerance * t.yres
    ensures Ceil(RowPos(t, t.Y(row) - eps) - Tolerance) == row
  {
    DivLe(eps, Tolerance, t.yres);
    RowPosOffset(t, row, eps);
    assert RowPos(t, t.Y(row) - eps) == row as real + eps / t.yres;
    CeilIs(row as real + eps / t.yres - Tolerance, row);
  }

  /**
   * A box two pixels wide less an epsilon and two pixels tall plus an
   * epsilon, the epsilon within the tolerance, covers two pixels each way.
   */
  lemma TwoPixelWindows(t: Transform, eps: real)
    requires NearThreeHundred(t)
    requires 0.0 <= eps <= Tolerance * t.xres && eps <= Tolerance * t.yres
    ensures ToWindow(t, Bounds(t.west, t.Y(2) - eps, t.X(2) - eps, t.north))
      == Window(Interval(0, 2), Interval(0, 2))
  {
    EdgePos(t, 0, 0);
    assert t.X(0) == t.west && t.Y(0) == t.north;
    NearStopCol(t, 2, eps);
    NearStopRow(t, 2, eps);
  }

  // Sets of windows

  /** The error `window_intersection` raises for windows with no common part. */
  datatype WindowError = DoNotIntersect

  function RowsOf(ws: seq<Window>): seq<Interval> {
    seq(|ws|, i requires 0 <= i < |ws| => ws[i].rows)
  }

  function ColsOf(ws: seq<Window>): seq<Interval> {
    seq(|ws|, i requires 0 <= i < |ws| => ws[i].cols)
  }

  function Min(a: int, b: int): int { if a <= b then a else b }

  function Max(a: int, b: int): int { if a >= b then a else b }

  /**
   * The least start and the greatest stop of a non-empty list of intervals:
   * the smallest interval every one of them lies inside.
   */
  function Span(ivs: seq<Interval>): (s: Interval)
    requires |ivs| > 0
    ensures forall i :: 0 <= i < |ivs| ==> Inside(ivs[i], s)
    ensures exists i :: 0 <= i < |ivs| && s.start == ivs[i].start
    ensures exists i :: 0 <= i < |ivs| && s.stop == ivs[i].stop
  {
    if |ivs| == 1 then ivs[0]
    else
      var rest := Span(ivs[1..]);
      Interval(Min(ivs[0].start, rest.start), Max(ivs[0].stop, rest.stop))
  }

  /**
   * The greatest start and the least stop of a non-empty list of intervals:
   * the largest interval lying inside every one of them.
   */
  function Meet(ivs: seq<Interval>): (m: Interval)
    requires |ivs| > 0
    ensures forall i :: 0 <= i < |ivs| ==> Inside(m, ivs[i])
    ensures exists i :: 0 <= i < |ivs| && m.start == ivs[i].start
    ensures exists i :: 0 <= i < |ivs| && m.stop == ivs[i].stop
  {
    if |ivs| == 1 then ivs[0]
    else
      var rest := Meet(ivs[1..]);
      Interval(Max(ivs[0].start, rest.start), Min(ivs[0].stop, rest.stop))
  }

  /** Every two intervals of the list, taken in list order, overlap or touch. */
  function PairwiseOverlap(ivs: seq<Interval>): (ok: bool)
    ensures ok <==> forall i, j :: 0 <= i < j < |ivs| ==> Overlap(ivs[i], ivs[j])
  {
    if |ivs| <= 1 then true
    else
      var rest := PairwiseOverlap(ivs[1..]);
      assert forall i, j :: 1 <= i < j < |ivs| ==> ivs[i] == ivs[1..][i - 1] && ivs[j] == ivs[1..][j - 1];
      (forall j :: 1 <= j < |ivs| ==> Overlap(ivs[0], ivs[j])) && rest
  }

  /**
   * `window_union`: the smallest window containing every window of the
   * list, the least start and greatest stop on each axis; disjoint windows
   * are bridged, not refused.
   */
  function Union(ws: seq<Window>): (u: Window)
    requires |ws| > 0
    ensures forall i :: 0 <= i < |ws| ==> WindowInside(ws[i], u)
    ensures exists i :: 0 <= i < |ws| && u.rows.start == ws[i].rows.start
    ensures exists i :: 0 <= i < |ws| && u.rows.stop == ws[i].rows.stop
    ensures exists i :: 0 <= i < |ws| && u.cols.start == ws[i].cols.start
    ensures exists i :: 0 <= i < |ws| && u.cols.stop == ws[i].cols.stop
  {
    var rows, cols := RowsOf(ws), ColsOf(ws);
    assert forall i :: 0 <= i < |ws| ==> rows[i] == ws[i].rows && cols[i] == ws[i].cols;
    Window(Span(rows), Span(cols))
  }

  /**
   * `windows_intersect`: every two windows of the list overlap or touch on
   * both axes.
   */
  function Intersect(ws: seq<Window>): (ok: bool)
    requires |ws| > 0
    ensures ok <==> forall i, j :: 0 <= i < j < |ws| ==>
      Overlap(ws[i].rows, ws[j].rows) && Overlap(ws[i].cols, ws[j].cols)
  {
    var rows, cols := RowsOf(ws), ColsOf(ws);
    assert forall i :: 0 <= i < |ws| ==> rows[i] == ws[i].rows && cols[i] == ws[i].cols;
    PairwiseOverlap(rows) && PairwiseOverlap(cols)
  }

  /**
   * `window_intersection`: the greatest start and least stop on each axis,
   * a window inside every window of the list; fails with `DoNotIntersect`
   * exactly when `windows_intersect` is false.
   */
  function Intersection(ws: seq<Window>): (r: Result<Window, WindowError>)
    requires |ws| > 0
    ensures r.Success? <==> Intersect(ws)
    ensures r.Success? ==> forall i :: 0 <= i < |ws| ==> WindowInside(r.value, ws[i])
    ensures r.Success? ==> exists i :: 0 <= i < |ws| && r.value.rows.start == ws[i].rows.start
    ensures r.Success? ==> exists i :: 0 <= i < |ws| && r.value.rows.stop == ws[i].rows.stop
    ensures r.Success? ==> exists i :: 0 <= i < |ws| && r.value.cols.start == ws[i].cols.start
    ensures r.Success? ==> exists i :: 0 <= i < |ws| && r.value.cols.stop == ws[i].cols.stop
  {
    if Intersect(ws) then
      var rows, cols := RowsOf(ws), ColsOf(ws);
      assert forall i :: 0 <= i < |ws| ==> rows[i] == ws[i].rows && cols[i] == ws[i].cols;
      Success(Window(Meet(rows), Meet(cols)))
    else
      Failure(DoNotIntersect)
  }

  predicate AllWellFormed(ws: seq<Window>) {
    forall i :: 0 <= i < |ws| ==> ws[i].WellFormed()
  }

  /**
   * For intervals that are not reversed, all pairs overlap exactly when the
   * greatest start does not pass the least stop.
   */
  lemma PairwiseIffMeet(ivs: seq<Interval>)
    requires |ivs| > 0 && forall i :: 0 <= i < |ivs| ==> ivs[i].WellFormed()
    ensures PairwiseOverlap(ivs) <==> Meet(ivs).WellFormed()
  {
    var m := Meet(ivs);
    if PairwiseOverlap(ivs) {
      var i :| 0 <= i < |ivs| && m.start == ivs[i].start;
      var j :| 0 <= j < |ivs| && m.stop == ivs[j].stop;
      if i < j {
        assert Overlap(ivs[i], ivs[j]);
      } else if j < i {
        assert Overlap(ivs[j], ivs[i]);
      }
    } else {
      var i, j :| 0 <= i < j < |ivs| && !Overlap(ivs[i], ivs[j]);
      assert Inside(m, ivs[i]) && Inside(m, ivs[j]);
    }
  }

  /**
   * `windows_intersect` is false exactly when, on some axis, the greatest
   * start passes the least stop; so a successful `window_intersection` of
   * windows that are not reversed is never a reversed window.
   */
  lemma IntersectIffMeet(ws: seq<Window>)
    requires |ws| > 0 && AllWellFormed(ws)
    ensures Intersect(ws) <==> Meet(RowsOf(ws)).WellFormed() && Meet(ColsOf(ws)).WellFormed()
    ensures Intersection(ws).Success? ==> Intersection(ws).value.WellFormed()
  {
    var rows, cols := RowsOf(ws), ColsOf(ws);
    assert forall i :: 0 <= i < |ws| ==> rows[i] == ws[i].rows && cols[i] == ws[i].cols;
    PairwiseIffMeet(rows);
    PairwiseIffMeet(cols);
  }

  /** `window_union` is the least window containing them all. */
  lemma UnionIsLeast(ws: seq<Window>, v: Window)
    requires |ws| > 0
    requires forall i :: 0 <= i < |ws| ==> WindowInside(ws[i], v)
    ensures WindowInside(Union(ws), v)
  {
  }

  /** `window_intersection` is the greatest window inside them all. */
  lemma IntersectionIsGreatest(ws: seq<Window>, v: Window)
    requires |ws| > 0 && Intersect(ws)
    requires forall i :: 0 <= i < |ws| ==> WindowInside(v, ws[i])
    ensures WindowInside(v, Intersection(ws).value)
  {
  }

  /**
   * Windows sharing a pixel intersect, and their intersection holds that
   * pixel.
   */
  lemma SharedPixelIntersects(ws: seq<Window>, r: int, c: int)
    requires |ws| > 0
    requires forall i :: 0 <= i < |ws| ==> ws[i].Contains(r, c)
    ensures Intersect(ws) && Intersection(ws).value.Contains(r, c)
  {
    var x := Intersection(ws);
    var i :| 0 <= i < |ws| && x.value.rows.start == ws[i].rows.start;
    var j :| 0 <= j < |ws| && x.value.rows.stop == ws[j].rows.stop;
    var k :| 0 <= k < |ws| && x.value.cols.start == ws[k].cols.start;
    var l :| 0 <= l < |ws| && x.value.cols.stop == ws[l].cols.stop;
    assert ws[i].Contains(r, c) && ws[j].Contains(r, c) && ws[k].Contains(r, c) && ws[l].Contains(r, c);
  }

  function W(r0: int, r1: int, c0: int, c1: int): Window {
    Window(Interval(r0, r1), Interval(c0, c1))
  }

  /** The union of two windows. */
  lemma UnionExample()
    ensures Union([W(0, 6, 3, 6), W(2, 4, 1, 5)]) == W(0, 6, 1, 6)
  {
  }

  /** The intersection of two windows. */
  lemma IntersectionOfTwo()
    ensures Intersection([W(0, 6, 3, 6), W(2, 4, 1, 5)]) == Success(W(2, 4, 3, 5))
  {
    var ws := [W(0, 6, 3, 6), W(2, 4, 1, 5)];
    assert RowsOf(ws) == [Interval(0, 6), Interval(2, 4)];
    assert ColsOf(ws) == [Interval(3, 6), Interval(1, 5)];
    assert RowsOf(ws)[1..] == [Interval(2, 4)];
    assert ColsOf(ws)[1..] == [Interval(1, 5)];
  }

  /** Two windows that only touch intersect in a window of no rows. */
  lemma IntersectionOfTouching()
    ensures Intersection([W(0, 6, 3, 6), W(6, 10, 1, 5)]) == Success(W(6, 6, 3, 5))
  {
    var ws := [W(0, 6, 3, 6), W(6, 10, 1, 5)];
    assert RowsOf(ws) == [Interval(0, 6), Interval(6, 10)];
    assert ColsOf(ws) == [Interval(3, 6), Interval(1, 5)];
    assert RowsOf(ws)[1..] == [Interval(6, 10)];
    assert ColsOf(ws)[1..] == [Interval(1, 5)];
  }

  /** The intersection of three windows. */
  lemma IntersectionOfThree()
    ensures Intersection([W(0, 6, 3, 6), W(2, 4, 1, 5), W(3, 6, 0, 6)]) == Success(W(3, 4, 3, 5))
  {
    var ws := [W(0, 6, 3, 6), W(2, 4, 1, 5), W(3, 6, 0, 6)];
    assert RowsOf(ws) == [Interval(0, 6), Interval(2, 4), Interval(3, 6)];
    assert ColsOf(ws) == [Interval(3, 6), Interval(1, 5), Interval(0, 6)];
    assert RowsOf(ws)[1..] == [Interval(2, 4), Interval(3, 6)];
    assert ColsOf(ws)[1..] == [Interval(1, 5), Interval(0, 6)];
    assert RowsOf(ws)[1..][1..] == [Interval(3, 6)];
    assert ColsOf(ws)[1..][1..] == [Interval(0, 6)];
  }

  /** A list holding a disjoint pair has no intersection. */
  lemma IntersectionDisjointExample()
    ensures Intersection([W(0, 6, 3, 6), W(100, 200, 0, 12), W(7, 12, 7, 12)]) == Failure(DoNotIntersect)
  {
    var ws := [W(0, 6, 3, 6), W(100, 200, 0, 12), W(7, 12, 7, 12)];
    assert !Overlap(ws[0].rows, ws[1].rows);
  }

  /** The overlap test on lists that intersect and on lists that do not. */
  lemma IntersectExamples()
    ensures Intersect([W(0, 6, 3, 6), W(2, 4, 1, 5)])
    ensures Intersect([W(0, 6, 3, 6), W(2, 4, 1, 5), W(3, 6, 0, 6)])
    ensures !Intersect([W(0, 6, 3, 6), W(10, 20, 0, 6)])
    ensures !Intersect([W(0, 6, 3, 6), W(2, 4, 1, 5), W(5, 6, 0, 6)])
    ensures !Intersect([W(0, 6, 3, 6), W(2, 4, 1, 3), W(3, 6, 4, 6)])
  {
    var a := [W(0, 6, 3, 6), W(10, 20, 0, 6)];
    assert !Overlap(a[0].rows, a[1].rows);
    var b := [W(0, 6, 3, 6), W(2, 4, 1, 5), W(5, 6, 0, 6)];
    assert !Overlap(b[1].rows, b[2].rows);
    var c := [W(0, 6, 3, 6), W(2, 4, 1, 3), W(3, 6, 4, 6)];
    assert !Overlap(c[1].cols, c[2].cols);
  }
}
