/**
 * Data-window detection: the smallest window bounding the valid pixels of a
 * (possibly multi-band) array, by projecting validity onto rows and columns.
 */
module DataWindow {
  import opened Windows

  /**
   * Where a pixel's validity comes from: a mask (true marks an invalid band
   * value), an explicit nodata value, or neither.
   */
  datatype Validity = Masked(mask: seq<seq<seq<bool>>>) | Nodata(value: real) | Unmarked

  /**
   * A band-major array of `height` rows of `width` values per band; a
   * two-dimensional array is an array of one band.
   */
  predicate Shaped<T>(a: seq<seq<seq<T>>>, height: nat, width: nat) {
    forall b :: 0 <= b < |a| ==>
      |a[b]| == height && forall r :: 0 <= r < height ==> |a[b][r]| == width
  }

  /** The array and its mask, if any, have the same shape. */
  predicate WellShaped(a: seq<seq<seq<real>>>, v: Validity, height: nat, width: nat) {
    Shaped(a, height, width) && (v.Masked? ==> |v.mask| == |a| && Shaped(v.mask, height, width))
  }

  /**
   * A pixel is valid when some band of it is unmasked, or differs from the
   * nodata value; with neither a mask nor nodata every pixel is valid.
   */
  predicate PixelValid(a: seq<seq<seq<real>>>, v: Validity, height: nat, width: nat, r: int, c: int)
    requires WellShaped(a, v, height, width)
  {
    0 <= r < height && 0 <= c < width &&
    match v
    case Unmarked => true
    case Nodata(x) => exists b :: 0 <= b < |a| && a[b][r][c] != x
    case Masked(m) => exists b :: 0 <= b < |m| && !m[b][r][c]
  }

  predicate RowHasData(a: seq<seq<seq<real>>>, v: Validity, height: nat, width: nat, r: int)
    requires WellShaped(a, v, height, width)
  {
    exists c :: 0 <= c < width && PixelValid(a, v, height, width, r, c)
  }

  predicate ColHasData(a: seq<seq<seq<real>>>, v: Validity, height: nat, width: nat, c: int)
    requires WellShaped(a, v, height, width)
  {
    exists r :: 0 <= r < height && PixelValid(a, v, height, width, r, c)
  }

  ghost predicate HasData(a: seq<seq<seq<real>>>, v: Validity, height: nat, width: nat)
    requires WellShaped(a, v, height, width)
  {
    exists r, c :: PixelValid(a, v, height, width, r, c)
  }

  /** The least index of [lo, hi) where `p` holds, or `hi` when there is none. */
  function FirstWhere(p: int -> bool, lo: int, hi: int): (k: int)
    requires lo <= hi
    ensures lo <= k <= hi
    ensures forall i :: lo <= i < k ==> !p(i)
    ensures k < hi ==> p(k)
    decreases hi - lo
  {
    if lo == hi || p(lo) then lo else FirstWhere(p, lo + 1, hi)
  }

  /** One past the greatest index of [lo, hi) where `p` holds, or `lo` when there is none. */
  function StopWhere(p: int -> bool, lo: int, hi: int): (k: int)
    requires lo <= hi
    ensures lo <= k <= hi
    ensures forall i :: k <= i < hi ==> !p(i)
    ensures k > lo ==> p(k - 1)
    decreases hi - lo
  {
    if lo == hi || p(hi - 1) then hi else StopWhere(p, lo, hi - 1)
  }

  /**
   * The rows (or columns) where `p` holds, bounded by one interval: from the
   * least such index to one past the greatest, or `(0, 0)` when there is none.
   */
  function DataSpan(p: int -> bool, n: nat): (s: Interval)
    ensures forall i :: 0 <= i < n && p(i) ==> s.Contains(i)
    ensures s.start < s.stop ==> 0 <= s.start && s.stop <= n && p(s.start) && p(s.stop - 1)
    ensures s.start >= s.stop ==> s == Interval(0, 0) && forall i :: 0 <= i < n ==> !p(i)
  {
    var first := FirstWhere(p, 0, n);
    if first == n then Interval(0, 0) else Interval(first, StopWhere(p, 0, n))
  }

  /** A valid pixel puts data in its row and in its column. */
  lemma ValidProjects(a: seq<seq<seq<real>>>, v: Validity, height: nat, width: nat, r: int, c: int)
    requires WellShaped(a, v, height, width)
    requires PixelValid(a, v, height, width, r, c)
    ensures RowHasData(a, v, height, width, r) && ColHasData(a, v, height, width, c)
  {
  }

  /**
   * `get_data_window`: with neither mask nor nodata, the full array window;
   * otherwise the tight bounding window of the valid pixels across all
   * bands (scattered clusters included), or `((0, 0), (0, 0))` when no pixel
   * is valid.
   */
  function GetDataWindow(a: seq<seq<seq<real>>>, v: Validity, height: nat, width: nat): (win: Window)
    requires WellShaped(a, v, height, width)
    ensures v.Unmarked? ==> win == Window(Interval(0, height), Interval(0, width))
    ensures !v.Unmarked? ==> forall r, c :: PixelValid(a, v, height, width, r, c) ==> win.Contains(r, c)
    ensures !v.Unmarked? && !HasData(a, v, height, width) ==> win == Window(Interval(0, 0), Interval(0, 0))
    ensures !v.Unmarked? && HasData(a, v, height, width) ==>
      && 0 <= win.rows.start < win.rows.stop <= height
      && 0 <= win.cols.start < win.cols.stop <= width
      && RowHasData(a, v, height, width, win.rows.start)
      && RowHasData(a, v, height, width, win.rows.stop - 1)
      && ColHasData(a, v, height, width, win.cols.start)
      && ColHasData(a, v, height, width, win.cols.stop - 1)
  {
    if v.Unmarked? then
      Window(Interval(0, height), Interval(0, width))
    else
      var rows := DataSpan((r: int) => RowHasData(a, v, height, width, r), height);
      var cols := DataSpan((c: int) => ColHasData(a, v, height, width, c), width);
      assert forall r, c | PixelValid(a, v, height, width, r, c) :: rows.Contains(r) && cols.Contains(c) by {
        forall r, c | PixelValid(a, v, height, width, r, c) ensures rows.Contains(r) && cols.Contains(c) {
          ValidProjects(a, v, height, width, r, c);
        }
      }
      assert rows.start < rows.stop ==> HasData(a, v, height, width) by {
        if rows.start < rows.stop {
          var c :| 0 <= c < width && PixelValid(a, v, height, width, rows.start, c);
        }
      }
      assert cols.start < cols.stop ==> HasData(a, v, height, width) by {
        if cols.start < cols.stop {
          var r :| 0 <= r < height && PixelValid(a, v, height, width, r, cols.start);
        }
      }
      Window(rows, cols)
  }

  /** The hypotheses of `DataWindowIsBoundingBox`: `box` bounds the valid pixels tightly. */
  ghost predicate TightBox(a: seq<seq<seq<real>>>, v: Validity, height: nat, width: nat, box: Window)
    requires WellShaped(a, v, height, width)
  {
    && (forall r, c :: PixelValid(a, v, height, width, r, c) ==> box.Contains(r, c))
    && RowHasData(a, v, height, width, box.rows.start)
    && RowHasData(a, v, height, width, box.rows.stop - 1)
    && ColHasData(a, v, height, width, box.cols.start)
    && ColHasData(a, v, height, width, box.cols.stop - 1)
  }

  lemma TightRowStart(a: seq<seq<seq<real>>>, v: Validity, height: nat, width: nat, box: Window)
    requires WellShaped(a, v, height, width) && !v.Unmarked? && TightBox(a, v, height, width, box)
    ensures GetDataWindow(a, v, height, width).rows.start == box.rows.start
  {
    var win := GetDataWindow(a, v, height, width);
    var c0 :| 0 <= c0 < width && PixelValid(a, v, height, width, box.rows.start, c0);
    assert win.Contains(box.rows.start, c0);
    assert HasData(a, v, height, width);
    assert RowHasData(a, v, height, width, win.rows.start);
    var c1 :| 0 <= c1 < width && PixelValid(a, v, height, width, win.rows.start, c1);
    assert box.Contains(win.rows.start, c1);
  }

  lemma TightRowStop(a: seq<seq<seq<real>>>, v: Validity, height: nat, width: nat, box: Window)
    requires WellShaped(a, v, height, width) && !v.Unmarked? && TightBox(a, v, height, width, box)
    ensures GetDataWindow(a, v, height, width).rows.stop == box.rows.stop
  {
    var win := GetDataWindow(a, v, height, width);
    assert box.rows.stop <= win.rows.stop by {
      var c0 :| 0 <= c0 < width && PixelValid(a, v, height, width, box.rows.stop - 1, c0);
      assert win.Contains(box.rows.stop - 1, c0);
    }
    assert win.rows.stop <= box.rows.stop by {
      assert HasData(a, v, height, width);
      assert RowHasData(a, v, height, width, win.rows.stop - 1);
      var c1 :| 0 <= c1 < width && PixelValid(a, v, height, width, win.rows.stop - 1, c1);
      assert box.Contains(win.rows.stop - 1, c1);
    }
  }

  lemma TightColStart(a: seq<seq<seq<real>>>, v: Validity, height: nat, width: nat, box: Window)
    requires WellShaped(a, v, height, width) && !v.Unmarked? && TightBox(a, v, height, width, box)
    ensures GetDataWindow(a, v, height, width).cols.start == box.cols.start
  {
    var win := GetDataWindow(a, v, height, width);
    var r0 :| 0 <= r0 < height && PixelValid(a, v, height, width, r0, box.cols.start);
    assert win.Contains(r0, box.cols.start);
    assert HasData(a, v, height, width);
    assert ColHasData(a, v, height, width, win.cols.start);
    var r1 :| 0 <= r1 < height && PixelValid(a, v, height, width, r1, win.cols.start);
    assert box.Contains(r1, win.cols.start);
  }

  lemma TightColStop(a: seq<seq<seq<real>>>, v: Validity, height: nat, width: nat, box: Window)
    requires WellShaped(a, v, height, width) && !v.Unmarked? && TightBox(a, v, height, width, box)
    ensures GetDataWindow(a, v, height, width).cols.stop == box.cols.stop
  {
    var win := GetDataWindow(a, v, height, width);
    assert box.cols.stop <= win.cols.stop by {
      var r0 :| 0 <= r0 < height && PixelValid(a, v, height, width, r0, box.cols.stop - 1);
      assert win.Contains(r0, box.cols.stop - 1);
    }
    assert win.cols.stop <= box.cols.stop by {
      assert HasData(a, v, height, width);
      assert ColHasData(a, v, height, width, win.cols.stop - 1);
      var r1 :| 0 <= r1 < height && PixelValid(a, v, height, width, r1, win.cols.stop - 1);
      assert box.Contains(r1, win.cols.stop - 1);
    }
  }

  /**
   * When every valid pixel lies in `box` and each edge row and edge column of
   * `box` holds a valid pixel, the data window is exactly `box`.
   */
  lemma DataWindowIsBoundingBox(a: seq<seq<seq<real>>>, v: Validity, height: nat, width: nat, box: Window)
    requires WellShaped(a, v, height, width) && !v.Unmarked?
    requires TightBox(a, v, height, width, box)
    ensures GetDataWindow(a, v, height, width) == box
  {
    TightRowStart(a, v, height, width, box);
    TightRowStop(a, v, height, width, box);
    TightColStart(a, v, height, width, box);
    TightColStop(a, v, height, width, box);
  }

  /**
   * A nodata value that no pixel of the first band takes leaves every pixel
   * valid, so the data window is the full array window.
   */
  lemma UnusedNodataGivesFullWindow(a: seq<seq<seq<real>>>, x: real, height: nat, width: nat)
    requires Shaped(a, height, width) && |a| > 0 && height > 0 && width > 0
    requires forall r, c :: 0 <= r < height && 0 <= c < width ==> a[0][r][c] != x
    ensures GetDataWindow(a, Nodata(x), height, width) == Window(Interval(0, height), Interval(0, width))
  {
    var v := Nodata(x);
    forall r, c | 0 <= r < height && 0 <= c < width ensures PixelValid(a, v, height, width, r, c) {
      assert a[0][r][c] != x;
    }
    assert PixelValid(a, v, height, width, 0, 0);
    assert PixelValid(a, v, height, width, height - 1, 0);
    assert PixelValid(a, v, height, width, 0, width - 1);
    assert TightBox(a, v, height, width, Window(Interval(0, height), Interval(0, width)));
    DataWindowIsBoundingBox(a, v, height, width, Window(Interval(0, height), Interval(0, width)));
  }

  /** A 10 by 10 band of zeros holding a block of ones in rows 3-4 and columns 2-5. */
  function Block(): seq<seq<seq<real>>> {
    [seq(10, r => seq(10, c => if 3 <= r < 5 && 2 <= c < 6 then 1.0 else 0.0))]
  }

  /** The block array with no mask and no nodata: the full window. */
  lemma BlockUnmarked()
    ensures GetDataWindow(Block(), Unmarked, 10, 10) == Window(Interval(0, 10), Interval(0, 10))
  {
  }

  /** The block array with nodata 0: the block's window. */
  lemma BlockNodata()
    ensures GetDataWindow(Block(), Nodata(0.0), 10, 10) == Window(Interval(3, 5), Interval(2, 6))
  {
    var a, v := Block(), Nodata(0.0);
    assert WellShaped(a, v, 10, 10);
    forall r, c | PixelValid(a, v, 10, 10, r, c) ensures 3 <= r < 5 && 2 <= c < 6 {
      var b :| 0 <= b < |a| && a[b][r][c] != 0.0;
    }
    assert a[0][3][2] != 0.0 && a[0][4][5] != 0.0;
    assert PixelValid(a, v, 10, 10, 3, 2) && PixelValid(a, v, 10, 10, 4, 5);
    assert TightBox(a, v, 10, 10, Window(Interval(3, 5), Interval(2, 6)));
    DataWindowIsBoundingBox(a, v, 10, 10, Window(Interval(3, 5), Interval(2, 6)));
  }

  /** The mask of the block array's zeros. */
  function BlockMask(): seq<seq<seq<bool>>> {
    [seq(10, r => seq(10, c => !(3 <= r < 5 && 2 <= c < 6)))]
  }

  /** The block array masked where it is zero: the block's window. */
  lemma BlockMasked()
    ensures forall r, c :: 0 <= r < 10 && 0 <= c < 10 ==> (BlockMask()[0][r][c] <==> Block()[0][r][c] == 0.0)
    ensures GetDataWindow(Block(), Masked(BlockMask()), 10, 10) == Window(Interval(3, 5), Interval(2, 6))
  {
    var a, m := Block(), BlockMask();
    var v := Masked(m);
    assert WellShaped(a, v, 10, 10);
    forall r, c | PixelValid(a, v, 10, 10, r, c) ensures 3 <= r < 5 && 2 <= c < 6 {
      var b :| 0 <= b < |m| && !m[b][r][c];
    }
    assert !m[0][3][2] && !m[0][4][5];
    assert PixelValid(a, v, 10, 10, 3, 2) && PixelValid(a, v, 10, 10, 4, 5);
    assert TightBox(a, v, 10, 10, Window(Interval(3, 5), Interval(2, 6)));
    DataWindowIsBoundingBox(a, v, 10, 10, Window(Interval(3, 5), Interval(2, 6)));
  }

  /** An array of ones with nodata 0: the full window. */
  lemma OnesNodata()
    ensures GetDataWindow([seq(10, r => seq(10, c => 1.0))], Nodata(0.0), 10, 10)
      == Window(Interval(0, 10), Interval(0, 10))
  {
    UnusedNodataGivesFullWindow([seq(10, r => seq(10, c => 1.0))], 0.0, 10, 10);
  }

  /** Three bands of zeros, each with its own block of ones. */
  function Clusters(): seq<seq<seq<real>>> {
    [ seq(10, r => seq(10, c => if 0 <= r < 4 && 1 <= c < 4 then 1.0 else 0.0)),
      seq(10, r => seq(10, c => if 2 <= r < 5 && 2 <= c < 8 then 1.0 else 0.0)),
      seq(10, r => seq(10, c => if 1 <= r < 6 && 1 <= c < 6 then 1.0 else 0.0)) ]
  }

  /** Disjoint clusters across bands: one window bounding them all. */
  lemma ClustersNodata()
    ensures GetDataWindow(Clusters(), Nodata(0.0), 10, 10) == Window(Interval(0, 6), Interval(1, 8))
  {
    var a, v := Clusters(), Nodata(0.0);
    assert WellShaped(a, v, 10, 10);
    forall r, c | PixelValid(a, v, 10, 10, r, c) ensures 0 <= r < 6 && 1 <= c < 8 {
      var b :| 0 <= b < |a| && a[b][r][c] != 0.0;
    }
    assert a[0][0][1] != 0.0 && a[2][5][1] != 0.0 && a[1][2][7] != 0.0;
    assert PixelValid(a, v, 10, 10, 0, 1) && PixelValid(a, v, 10, 10, 5, 1);
    assert PixelValid(a, v, 10, 10, 2, 7);
    assert TightBox(a, v, 10, 10, Window(Interval(0, 6), Interval(1, 8)));
    DataWindowIsBoundingBox(a, v, 10, 10, Window(Interval(0, 6), Interval(1, 8)));
  }

  /** Three bands of nothing but nodata: the empty window, not an error. */
  lemma AllNodata()
    ensures GetDataWindow(seq(3, b => seq(10, r => seq(10, c => 0.0))), Nodata(0.0), 10, 10)
      == Window(Interval(0, 0), Interval(0, 0))
  {
    var a, v := seq(3, b => seq(10, r => seq(10, c => 0.0))), Nodata(0.0);
    assert WellShaped(a, v, 10, 10);
    forall r, c ensures !PixelValid(a, v, 10, 10, r, c) {
      assert forall b :: 0 <= b < |a| && 0 <= r < 10 && 0 <= c < 10 ==> a[b][r][c] == 0.0;
    }
  }
}
