/** The tile-mosaic renderer (`aplicar_mosaico`): walk block origins in
    steps of the tile size, take the mean gray of each tile-size × tile-size
    box, map it to a tile index and paste that tile at the origin. */
module Mosaic {
  import opened Outcomes
  import opened Grids
  import opened Histograms
  import opened TileIndexing
  import opened Arith

  /** One output pixel. `Blank` is the black background of the freshly
      created result image; `TilePixel(k, dx, dy)` is pixel (dx, dy) of tile k
      after it has been resized to tile-size × tile-size. */
  datatype Cell = Blank | TilePixel(tile: nat, dx: nat, dy: nat)

  /** `range(start, stop, step)` for a positive step. */
  function Range(start: nat, stop: nat, step: nat): (r: seq<nat>)
    requires step >= 1 && start % step == 0
    ensures forall o :: o in r <==> start <= o < stop && o % step == 0
    ensures forall i :: 0 < i < |r| ==> r[i - 1] + step == r[i]
    ensures r != [] ==> r[0] == start
    decreases stop - start
  {
    if start >= stop then []
    else
      NextMultiple(start, step);
      var rest := Range(start + step, stop, step);
      forall o | start < o < stop && o % step == 0
        ensures o in rest
      {
        MultiplesApart(start, o, step);
      }
      [start] + rest
  }

  /** The block origins along one axis: `range(0, stop, step)`. */
  function Origins(stop: nat, step: nat): seq<nat>
    requires step >= 1
  {
    Range(0, stop, step)
  }

  /** One step of a `for o in range(...)` loop: moving origin o from the
      pending range to the visited prefix keeps prefix + pending intact. */
  lemma AdvanceOrigin(visited: seq<nat>, o: nat, stop: nat, step: nat, all: seq<nat>)
    requires step >= 1 && o % step == 0 && o < stop
    requires visited + Range(o, stop, step) == all
    ensures (o + step) % step == 0
    ensures (visited + [o]) + Range(o + step, stop, step) == all
  {
    NextMultiple(o, step);
    assert Range(o, stop, step) == [o] + Range(o + step, stop, step);
    assert (visited + [o]) + Range(o + step, stop, step) == visited + ([o] + Range(o + step, stop, step));
  }

  /** Along one axis, coordinate x < stop lies in the box of exactly one
      block origin, x − x mod step: it is among the origins, and every
      origin whose box [o, o + step) contains x is that one. */
  lemma OriginOwnsCoordinate(x: nat, stop: nat, step: nat)
    requires step >= 1 && x < stop
    ensures x - x % step in Origins(stop, step)
    ensures forall o :: o in Origins(stop, step) && o <= x < o + step ==> o == x - x % step
  {
    var origins := Origins(stop, step);
    RoundDownIsMultiple(x, step);
    assert x - x % step in origins;
    forall o | o in origins && o <= x < o + step
      ensures o == x - x % step
    {
      assert o % step == 0;
      ModOfOffset(o, x - o, step);
    }
  }

  /** Every pixel of a width × height image is written by the paste of
      exactly one block, the one at (x − x mod t, y − y mod t); boxes of
      different origins never share a pixel. */
  lemma PixelWrittenByOnePaste(width: nat, height: nat, t: nat, x: nat, y: nat)
    requires t >= 1 && x < width && y < height
    ensures x - x % t in Origins(width, t) && y - y % t in Origins(height, t)
    ensures forall ox, oy ::
              ox in Origins(width, t) && oy in Origins(height, t) &&
              ox <= x < ox + t && oy <= y < oy + t
              ==> ox == x - x % t && oy == y - y % t
  {
    OriginOwnsCoordinate(x, width, t);
    OriginOwnsCoordinate(y, height, t);
  }

  /** Total gray of the t × t box at (x0, y0), black beyond the image. */
  function BlockSum(g: Raster<Gray>, x0: int, y0: int, t: nat): int
    requires g.Valid()
  {
    Sum(Pixels(Crop(g, x0, y0, t)))
  }

  /** The tile index chosen for the block at (x0, y0): its mean gray is its
      total over t·t pixels, whether or not the box lies inside the image. */
  function BlockIndex(g: Raster<Gray>, x0: int, y0: int, t: nat, n: nat, invert: bool): (k: nat)
    requires g.Valid() && t >= 1 && n >= 1
    ensures k < n
  {
    TileIndex(BlockSum(g, x0, y0, t), t * t, n, invert)
  }

  /** Every block, edge blocks included, has t·t pixels and a mean gray in
      [0, 255]; its index is the unclamped formula's. */
  lemma BlockMeanInRange(g: Raster<Gray>, x0: int, y0: int, t: nat, n: nat, invert: bool)
    requires g.Valid() && t >= 1 && n >= 1
    ensures |Pixels(Crop(g, x0, y0, t))| == t * t
    ensures 0.0 <= BlockSum(g, x0, y0, t) as real / (t * t) as real <= 255.0
    ensures BlockIndex(g, x0, y0, t, n, invert) == RawIndex(BlockSum(g, x0, y0, t), t * t, n, invert)
  {
    var c := Crop(g, x0, y0, t);
    PixelCount(c);
    SumBounds(Pixels(c));
    var s, d := BlockSum(g, x0, y0, t), t * t;
    assert 0 <= s <= 255 * d;
    assert s as real <= 255.0 * d as real;
    RawIndexInRange(s, d, n, invert);
  }

  /** The box of an edge block overhangs the image and the overhang counts
      as black: a lone white pixel under a 2 × 2 box averages to 255/4 and
      picks tile 2 of 10, where a white block inside the image picks the
      last tile, 9. */
  lemma EdgeBlockCountsOverhangAsBlack()
    ensures var g: Raster<Gray> := Raster(1, 1, [[255]]);
            && g.Valid()
            && BlockIndex(g, 0, 0, 2, 10, false) == 2
            && TileIndex(255 * 4, 4, 10, false) == 9
  {
    var g: Raster<Gray> := Raster(1, 1, [[255]]);
    var clip := Clip(g, 0, 0, 2);
    CropSumIsClipSum(g, 0, 0, 2);
    assert Overlap(0, 2, 1) == 1;
    assert clip.width == 1 && clip.height == 1;
    assert clip.rows[0][0] == 255;
    assert clip.rows[0] == [255];
    assert clip.rows == [[255]];
    assert Pixels(clip) == [255] by {
      assert clip.rows[..0] == [];
    }
    assert Sum(Pixels(clip)) == 255 by {
      assert [255][..0] == [];
    }
    assert BlockSum(g, 0, 0, 2) == 255;
    DivModUnique(255 * 9, 4 * 255, 2, 255);
    TileIndexEndpoints(4, 10);
  }

  /** For every block whose origin lies in the image, the overhang of its
      box counts as black: the block's gray total is that of its in-image
      part alone, but it is spread over all t² pixels. So the block never
      reads brighter than its in-image part: without invert its index is at
      most the one the in-image part's own mean would pick, and with invert
      at least that one. */
  lemma EdgeBlocksReadDarker(g: Raster<Gray>, x0: nat, y0: nat, t: nat, n: nat)
    requires g.Valid() && t >= 1 && n >= 1 && x0 < g.width && y0 < g.height
    ensures var clip := Clip(g, x0, y0, t);
            && BlockSum(g, x0, y0, t) == Sum(Pixels(clip))
            && 1 <= clip.width * clip.height <= t * t
            && BlockIndex(g, x0, y0, t, n, false)
               <= TileIndex(Sum(Pixels(clip)), clip.width * clip.height, n, false)
            && BlockIndex(g, x0, y0, t, n, true)
               >= TileIndex(Sum(Pixels(clip)), clip.width * clip.height, n, true)
  {
    var clip := Clip(g, x0, y0, t);
    var s := Sum(Pixels(clip));
    var cw, ch := clip.width, clip.height;
    CropSumIsClipSum(g, x0, y0, t);
    PixelCount(clip);
    SumBounds(Pixels(clip));
    MulMonotone(1, cw, ch);
    MulMonotone(cw, t, ch);
    MulMonotone(ch, t, t);
    assert 1 <= cw * ch <= t * t;
    MulMonotone(cw * ch, t * t, s);
    assert s * (cw * ch) <= s * (t * t);
    MulMonotone(cw * ch, t * t, 255);
    TileIndexMonotoneInMean(s, t * t, s, cw * ch, n);
  }

  /** The output pixel (x, y) as its owning block paints it. */
  function OwnedCell(g: Raster<Gray>, t: nat, n: nat, invert: bool, x: nat, y: nat): Cell
    requires g.Valid() && t >= 1 && n >= 1
  {
    TilePixel(BlockIndex(g, x - x % t, y - y % t, t, n, invert), x % t, y % t)
  }

  /** The mosaic described pixel by pixel: each pixel shows its offset within
      the tile chosen for the block that owns it. */
  function MosaicOf(g: Raster<Gray>, t: nat, n: nat, invert: bool): (m: Raster<Cell>)
    requires g.Valid() && t >= 1 && n >= 1
    ensures m.Valid() && m.width == g.width && m.height == g.height
    ensures forall y, x :: 0 <= y < m.height && 0 <= x < m.width ==>
              m.rows[y][x].TilePixel? && m.rows[y][x].tile < n &&
              m.rows[y][x].dx < t && m.rows[y][x].dy < t
  {
    Raster(g.width, g.height,
           seq(g.height, (y: nat) => seq(g.width, (x: nat) => OwnedCell(g, t, n, invert, x, y))))
  }

  /** What `aplicar_mosaico` returns, or the exception it raises: a zero
      tile size makes `range` fail; a negative one makes both loops empty,
      leaving the black background; an empty tile list fails on the first
      paste, so only when the image has a pixel. */
  function Render(g: Raster<Gray>, t: int, n: nat, invert: bool): (r: Result<Raster<Cell>>)
    requires g.Valid()
    ensures r.Ok? ==> r.value.Valid() && r.value.width == g.width && r.value.height == g.height
    ensures r.Err? <==> t == 0 || (t > 0 && n == 0 && g.width > 0 && g.height > 0)
  {
    if t == 0 then Err(ZeroTileSize)
    else if t < 0 || g.width == 0 || g.height == 0 then Ok(Filled(g.width, g.height, Blank))
    else if n == 0 then Err(EmptyTileSet)
    else Ok(MosaicOf(g, t, n, invert))
  }

  /** `result.paste(tile, (x0, y0))` of a t × t tile: the box is clipped to
      the result, whose size does not change. */
  function Paste(out: Raster<Cell>, x0: int, y0: int, t: nat, k: nat): (r: Raster<Cell>)
    requires out.Valid()
    ensures r.Valid() && r.width == out.width && r.height == out.height
  {
    Raster(out.width, out.height,
           seq(out.height, y requires 0 <= y < out.height =>
             seq(out.width, x requires 0 <= x < out.width =>
             if x0 <= x < x0 + t && y0 <= y < y0 + t then TilePixel(k, x - x0, y - y0)
             else out.rows[y][x])))
  }

  /** Loop state: every row above y is finished, and in the band of rows
      [y, y + t) every column left of x is; all other pixels are still
      background. */
  ghost predicate PaintedUpTo(out: Raster<Cell>, g: Raster<Gray>, t: nat, n: nat, invert: bool, x: int, y: int)
    requires out.Valid() && g.Valid() && t >= 1 && n >= 1
  {
    forall py, px :: 0 <= py < out.height && 0 <= px < out.width ==>
      out.rows[py][px] ==
        if py < y || (py < y + t && px < x) then OwnedCell(g, t, n, invert, px, py) else Blank
  }

  /** The block walk of `aplicar_mosaico`: for each origin in row-major
      order, crop, average, pick a tile and paste it. The result is the
      pixel-by-pixel mosaic, or the error the Python code raises. */
  method ApplyMosaic(g: Raster<Gray>, t: int, n: nat, invert: bool) returns (r: Result<Raster<Cell>>)
    requires g.Valid()
    ensures r == Render(g, t, n, invert)
  {
    if t == 0 {
      return Err(ZeroTileSize);
    }
    var out := Filled(g.width, g.height, Blank);
    if t < 0 {
      return Ok(out);
    }
    if n == 0 {
      // `tile_images[index]` fails at the first paste, and a first paste
      // happens exactly when the image has a pixel.
      if g.width > 0 && g.height > 0 {
        return Err(EmptyTileSet);
      }
      return Ok(out);
    }
    // The row origins visited so far, in order: the walk visits exactly
    // the elements of range(0, height, t).
    ghost var rowOrigins: seq<nat> := [];
    var y: nat := 0;
    while y < g.height
      invariant y % t == 0
      invariant rowOrigins + Range(y, g.height, t) == Origins(g.height, t)
      invariant out.Valid() && out.width == g.width && out.height == g.height
      invariant PaintedUpTo(out, g, t, n, invert, 0, y)
    {
      out := PaintBand(out, g, t, n, invert, y);
      AdvanceOrigin(rowOrigins, y, g.height, t, Origins(g.height, t));
      rowOrigins := rowOrigins + [y];
      y := y + t;
    }
    assert rowOrigins == Origins(g.height, t);
    if g.width == 0 || g.height == 0 {
      RasterExtensionality(out, Filled(g.width, g.height, Blank));
      return Ok(out);
    }
    RasterExtensionality(out, MosaicOf(g, t, n, invert));
    return Ok(out);
  }

  /** The inner loop of the block walk: for each origin x of
      range(0, width, t), crop the box at (x, y), average it, pick a tile and
      paste it. Afterwards the whole band of rows [y, y + t) is finished. */
  method PaintBand(out: Raster<Cell>, g: Raster<Gray>, t: nat, n: nat, invert: bool, y: nat)
    returns (res: Raster<Cell>)
    requires out.Valid() && g.Valid() && t >= 1 && n >= 1 && y % t == 0
    requires out.width == g.width && out.height == g.height
    requires PaintedUpTo(out, g, t, n, invert, 0, y)
    ensures res.Valid() && res.width == g.width && res.height == g.height
    ensures PaintedUpTo(res, g, t, n, invert, 0, y + t)
  {
    res := out;
    // The column origins visited so far: exactly range(0, width, t).
    ghost var colOrigins: seq<nat> := [];
    var x: nat := 0;
    while x < g.width
      invariant x % t == 0
      invariant colOrigins + Range(x, g.width, t) == Origins(g.width, t)
      invariant res.Valid() && res.width == g.width && res.height == g.height
      invariant PaintedUpTo(res, g, t, n, invert, x, y)
    {
      var region := Crop(g, x, y, t);
      var suma, total := MeanGray(region);
      var k := TileIndex(suma, total, n, invert);
      assert k == BlockIndex(g, x, y, t, n, invert);
      PasteKeepsPainted(res, g, t, n, invert, x, y, k);
      res := Paste(res, x, y, t, k);
      AdvanceOrigin(colOrigins, x, g.width, t, Origins(g.width, t));
      colOrigins := colOrigins + [x];
      x := x + t;
    }
    assert colOrigins == Origins(g.width, t);
  }

  /** Pasting the block at (x, y) extends the finished part of the row band
      by one block. */
  lemma PasteKeepsPainted(out: Raster<Cell>, g: Raster<Gray>, t: nat, n: nat, invert: bool, x: nat, y: nat, k: nat)
    requires out.Valid() && g.Valid() && t >= 1 && n >= 1
    requires x % t == 0 && y % t == 0
    requires k == BlockIndex(g, x, y, t, n, invert)
    requires PaintedUpTo(out, g, t, n, invert, x, y)
    ensures PaintedUpTo(Paste(out, x, y, t, k), g, t, n, invert, x + t, y)
  {
    var p := Paste(out, x, y, t, k);
    forall py, px | 0 <= py < p.height && 0 <= px < p.width
      ensures p.rows[py][px] ==
        if py < y || (py < y + t && px < x + t) then OwnedCell(g, t, n, invert, px, py) else Blank
    {
      if x <= px < x + t && y <= py < y + t {
        ModOfOffset(x, px - x, t);
        ModOfOffset(y, py - y, t);
      }
    }
  }
}
