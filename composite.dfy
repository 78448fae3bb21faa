/**
 * Compositing: a canvas of `bands` by `height` by `width` pixels is filled
 * with a fill value, then each input tile is pasted over it in input order.
 * Only a tile's valid pixels (those differing from its nodata value) are
 * written, so wherever several tiles hold valid data the last one wins.
 */
module Compositing {
  import opened Windows
  import DataWindow

  /** The dimensions of the output canvas. */
  datatype Shape = Shape(bands: nat, height: nat, width: nat)

  /**
   * One input as the compositor sees it: its placement window on the output
   * grid, its pixels read at the output resolution (band, row, column within
   * the window), and the value that marks its pixels as absent.
   */
  datatype Tile = Tile(window: Window, pixels: seq<seq<seq<real>>>, nodata: real)

  /** The tile lies inside the canvas and its pixels have its window's shape. */
  predicate Fits(t: Tile, sh: Shape) {
    && 0 <= t.window.rows.start <= t.window.rows.stop <= sh.height
    && 0 <= t.window.cols.start <= t.window.cols.stop <= sh.width
    && |t.pixels| == sh.bands
    && DataWindow.Shaped(t.pixels, t.window.rows.stop - t.window.rows.start,
                         t.window.cols.stop - t.window.cols.start)
  }

  predicate AllFit(tiles: seq<Tile>, sh: Shape) {
    forall i :: 0 <= i < |tiles| ==> Fits(tiles[i], sh)
  }

  /** The tile's value at canvas position (b, r, c), which its window must hold. */
  function PixelAt(t: Tile, sh: Shape, b: int, r: int, c: int): real
    requires Fits(t, sh) && 0 <= b < sh.bands && t.window.Contains(r, c)
  {
    t.pixels[b][r - t.window.rows.start][c - t.window.cols.start]
  }

  /** The tile holds a valid pixel at canvas position (b, r, c). */
  predicate WritesAt(t: Tile, sh: Shape, b: int, r: int, c: int)
    requires Fits(t, sh) && 0 <= b < sh.bands
  {
    t.window.Contains(r, c) && PixelAt(t, sh, b, r, c) != t.nodata
  }

  /** The value at (b, r, c) after pasting `t` over a canvas holding `prev` there. */
  function Pasted(prev: real, t: Tile, sh: Shape, b: int, r: int, c: int): real
    requires Fits(t, sh) && 0 <= b < sh.bands
  {
    if WritesAt(t, sh, b, r, c) then PixelAt(t, sh, b, r, c) else prev
  }

  /** The value at (b, r, c) after filling with `fill` and pasting `tiles` in order. */
  function Composited(fill: real, tiles: seq<Tile>, sh: Shape, b: int, r: int, c: int): real
    requires AllFit(tiles, sh) && 0 <= b < sh.bands
  {
    if tiles == [] then fill
    else Pasted(Composited(fill, tiles[..|tiles| - 1], sh, b, r, c), tiles[|tiles| - 1], sh, b, r, c)
  }

  /**
   * Last writer wins: the composite at a position is the pixel of the last
   * tile holding a valid pixel there, whatever the tiles before it hold.
   */
  lemma {:induction false} LastWriterWins(fill: real, tiles: seq<Tile>, sh: Shape, b: int, r: int, c: int, k: nat)
    requires AllFit(tiles, sh) && 0 <= b < sh.bands
    requires k < |tiles| && WritesAt(tiles[k], sh, b, r, c)
    requires forall j :: k < j < |tiles| ==> !WritesAt(tiles[j], sh, b, r, c)
    ensures Composited(fill, tiles, sh, b, r, c) == PixelAt(tiles[k], sh, b, r, c)
  {
    var n := |tiles| - 1;
    var init := tiles[..n];
    assert AllFit(init, sh);
    if k < n {
      assert forall j :: k < j < |init| ==> init[j] == tiles[j];
      LastWriterWins(fill, init, sh, b, r, c, k);
    }
  }

  /** A position no tile writes keeps the fill value. */
  lemma {:induction false} UnwrittenKeepsFill(fill: real, tiles: seq<Tile>, sh: Shape, b: int, r: int, c: int)
    requires AllFit(tiles, sh) && 0 <= b < sh.bands
    requires forall j :: 0 <= j < |tiles| ==> !WritesAt(tiles[j], sh, b, r, c)
    ensures Composited(fill, tiles, sh, b, r, c) == fill
  {
    if tiles != [] {
      var init := tiles[..|tiles| - 1];
      assert AllFit(init, sh);
      assert forall j :: 0 <= j < |init| ==> init[j] == tiles[j];
      UnwrittenKeepsFill(fill, init, sh, b, r, c);
    }
  }

  /**
   * Pastes one row of one band of a tile: each valid pixel overwrites the
   * canvas, every other canvas value is kept.
   */
  method PasteRow(canvas: array3<real>, t: Tile, sh: Shape, b: int, r: int)
    requires canvas.Length0 == sh.bands && canvas.Length1 == sh.height && canvas.Length2 == sh.width
    requires Fits(t, sh) && 0 <= b < sh.bands && t.window.rows.Contains(r)
    modifies canvas
    ensures forall b', r', c' :: 0 <= b' < sh.bands && 0 <= r' < sh.height && 0 <= c' < sh.width ==>
      canvas[b', r', c'] ==
        if b' == b && r' == r then Pasted(old(canvas[b', r', c']), t, sh, b', r', c') else old(canvas[b', r', c'])
  {
    var j := t.window.cols.start;
    while j < t.window.cols.stop
      invariant t.window.cols.start <= j <= t.window.cols.stop
      invariant forall b', r', c' :: 0 <= b' < sh.bands && 0 <= r' < sh.height && 0 <= c' < sh.width ==>
        canvas[b', r', c'] ==
          if b' == b && r' == r && c' < j then Pasted(old(canvas[b', r', c']), t, sh, b', r', c')
          else old(canvas[b', r', c'])
    {
      var p := t.pixels[b][r - t.window.rows.start][j - t.window.cols.start];
      if p != t.nodata {
        canvas[b, r, j] := p;
      }
      j := j + 1;
    }
  }

  /** Pastes every row of one band of a tile. */
  method PasteBand(canvas: array3<real>, t: Tile, sh: Shape, b: int)
    requires canvas.Length0 == sh.bands && canvas.Length1 == sh.height && canvas.Length2 == sh.width
    requires Fits(t, sh) && 0 <= b < sh.bands
    modifies canvas
    ensures forall b', r', c' :: 0 <= b' < sh.bands && 0 <= r' < sh.height && 0 <= c' < sh.width ==>
      canvas[b', r', c'] ==
        if b' == b then Pasted(old(canvas[b', r', c']), t, sh, b', r', c') else old(canvas[b', r', c'])
  {
    var i := t.window.rows.start;
    while i < t.window.rows.stop
      invariant t.window.rows.start <= i <= t.window.rows.stop
      invariant forall b', r', c' :: 0 <= b' < sh.bands && 0 <= r' < sh.height && 0 <= c' < sh.width ==>
        canvas[b', r', c'] ==
          if b' == b && r' < i then Pasted(old(canvas[b', r', c']), t, sh, b', r', c')
          else old(canvas[b', r', c'])
    {
      PasteRow(canvas, t, sh, b, i);
      i := i + 1;
    }
  }

  /** Pastes every band of a tile over the canvas. */
  method Paste(canvas: array3<real>, t: Tile, sh: Shape)
    requires canvas.Length0 == sh.bands && canvas.Length1 == sh.height && canvas.Length2 == sh.width
    requires Fits(t, sh)
    modifies canvas
    ensures forall b, r, c :: 0 <= b < sh.bands && 0 <= r < sh.height && 0 <= c < sh.width ==>
      canvas[b, r, c] == Pasted(old(canvas[b, r, c]), t, sh, b, r, c)
  {
    var k := 0;
    while k < sh.bands
      invariant 0 <= k <= sh.bands
      invariant forall b, r, c :: 0 <= b < sh.bands && 0 <= r < sh.height && 0 <= c < sh.width ==>
        canvas[b, r, c] == if b < k then Pasted(old(canvas[b, r, c]), t, sh, b, r, c) else old(canvas[b, r, c])
    {
      PasteBand(canvas, t, sh, k);
      k := k + 1;
    }
  }

  /**
   * The compositing loop: allocate a canvas filled with `fill`, then paste
   * the tiles one after another in input order.
   */
  method Composite(sh: Shape, fill: real, tiles: seq<Tile>) returns (canvas: array3<real>)
    requires AllFit(tiles, sh)
    ensures fresh(canvas)
    ensures canvas.Length0 == sh.bands && canvas.Length1 == sh.height && canvas.Length2 == sh.width
    ensures forall b, r, c :: 0 <= b < sh.bands && 0 <= r < sh.height && 0 <= c < sh.width ==>
      canvas[b, r, c] == Composited(fill, tiles, sh, b, r, c)
  {
    canvas := new real[sh.bands, sh.height, sh.width]((b, r, c) => fill);
    var i := 0;
    while i < |tiles|
      invariant 0 <= i <= |tiles|
      invariant fresh(canvas)
      invariant canvas.Length0 == sh.bands && canvas.Length1 == sh.height && canvas.Length2 == sh.width
      invariant AllFit(tiles[..i], sh)
      invariant forall b, r, c :: 0 <= b < sh.bands && 0 <= r < sh.height && 0 <= c < sh.width ==>
        canvas[b, r, c] == Composited(fill, tiles[..i], sh, b, r, c)
    {
      Paste(canvas, tiles[i], sh);
      assert tiles[..i + 1][..i] == tiles[..i];
      i := i + 1;
    }
    assert tiles[..|tiles|] == tiles;
  }
}
