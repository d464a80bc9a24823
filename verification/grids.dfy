/** Rasters of samples, the grayscale ("L" mode) image, and the box crop
    that the mosaic renderer takes out of it. */
module Grids {

  /** One 8-bit luminance sample. */
  type Gray = v: int | 0 <= v <= 255

  /** A width × height raster stored row by row: `rows[y][x]` is the sample
      at column x of row y. */
  datatype Raster<T> = Raster(width: nat, height: nat, rows: seq<seq<T>>) {
    predicate Valid() {
      && |rows| == height
      && forall y :: 0 <= y < |rows| ==> |rows[y]| == width
    }
  }

  /** A fresh raster holding `v` everywhere (`Image.new` fills with black). */
  function Filled<T>(width: nat, height: nat, v: T): (r: Raster<T>)
    ensures r.Valid() && r.width == width && r.height == height
    ensures forall y, x :: 0 <= y < height && 0 <= x < width ==> r.rows[y][x] == v
  {
    Raster(width, height, seq(height, _ => seq(width, _ => v)))
  }

  /** Two valid rasters of the same size with the same samples are equal. */
  lemma RasterExtensionality<T>(a: Raster<T>, b: Raster<T>)
    requires a.Valid() && b.Valid()
    requires a.width == b.width && a.height == b.height
    requires forall y, x :: 0 <= y < a.height && 0 <= x < a.width ==> a.rows[y][x] == b.rows[y][x]
    ensures a == b
  {
    forall y | 0 <= y < a.height
      ensures a.rows[y] == b.rows[y]
    {
      assert |a.rows[y]| == |b.rows[y]| == a.width;
    }
  }

  /** The sample a crop box sees at (x, y): the image's own sample inside
      the image and black (0) wherever the box runs past its edge. */
  function Sample(g: Raster<Gray>, x: int, y: int): Gray
    requires g.Valid()
  {
    if 0 <= x < g.width && 0 <= y < g.height then g.rows[y][x] else 0
  }

  /** `crop((x0, y0, x0 + size, y0 + size))`: always a size × size region,
      even where the box overhangs the right or bottom edge. */
  function Crop(g: Raster<Gray>, x0: int, y0: int, size: nat): (c: Raster<Gray>)
    requires g.Valid()
    ensures c.Valid() && c.width == size && c.height == size
  {
    Raster(size, size, seq(size, j => seq<Gray>(size, i => Sample(g, x0 + i, y0 + j))))
  }

  /** The samples of a list of rows, row after row. */
  function Flatten(rows: seq<seq<Gray>>): seq<Gray>
  {
    if rows == [] then [] else Flatten(rows[..|rows| - 1]) + rows[|rows| - 1]
  }

  /** Every sample of a raster, in row-major order. */
  function Pixels(g: Raster<Gray>): seq<Gray>
  {
    Flatten(g.rows)
  }

  lemma {:induction false} FlattenLength(rows: seq<seq<Gray>>, width: nat)
    requires forall y :: 0 <= y < |rows| ==> |rows[y]| == width
    ensures |Flatten(rows)| == |rows| * width
  {
    if rows != [] {
      FlattenLength(rows[..|rows| - 1], width);
      assert |Flatten(rows)| == (|rows| - 1) * width + width;
    }
  }

  /** A valid raster has exactly width × height samples. */
  lemma PixelCount(g: Raster<Gray>)
    requires g.Valid()
    ensures |Pixels(g)| == g.width * g.height
  {
    FlattenLength(g.rows, g.width);
  }

  /** The total of a list of samples. */
  function Sum(p: seq<Gray>): int
  {
    if p == [] then 0 else Sum(p[..|p| - 1]) + p[|p| - 1]
  }

  /** A total of k samples lies between 0 and 255·k. */
  lemma {:induction false} SumBounds(p: seq<Gray>)
    ensures 0 <= Sum(p) <= 255 * |p|
  {
    if p != [] {
      SumBounds(p[..|p| - 1]);
    }
  }

  /** Sums split over concatenation. */
  lemma {:induction false} SumConcat(a: seq<Gray>, b: seq<Gray>)
    ensures Sum(a + b) == Sum(a) + Sum(b)
    decreases |b|
  {
    if b == [] {
      assert a + b == a;
    } else {
      assert (a + b)[..|a + b| - 1] == a + b[..|b| - 1];
      assert (a + b)[|a + b| - 1] == b[|b| - 1];
      SumConcat(a, b[..|b| - 1]);
    }
  }

  /** A row of black samples adds nothing. */
  lemma {:induction false} SumBlack(p: seq<Gray>)
    requires forall i :: 0 <= i < |p| ==> p[i] == 0
    ensures Sum(p) == 0
  {
    if p != [] {
      SumBlack(p[..|p| - 1]);
    }
  }

  /** Σ of the row totals of a list of rows. */
  function RowTotals(rows: seq<seq<Gray>>): int
  {
    if rows == [] then 0 else RowTotals(rows[..|rows| - 1]) + Sum(rows[|rows| - 1])
  }

  /** The total of the flattened samples is the total of the row totals. */
  lemma {:induction false} SumFlatten(rows: seq<seq<Gray>>)
    ensures Sum(Flatten(rows)) == RowTotals(rows)
  {
    if rows != [] {
      SumFlatten(rows[..|rows| - 1]);
      SumConcat(Flatten(rows[..|rows| - 1]), rows[|rows| - 1]);
    }
  }

  /** Width of the part of the box [x0, x0 + size) that lies inside [0, extent). */
  function Overlap(x0: nat, size: nat, extent: nat): (c: nat)
    ensures c <= size
    ensures x0 < extent && size >= 1 ==> c >= 1
  {
    if x0 >= extent then 0 else if x0 + size <= extent then size else extent - x0
  }

  /** The part of the crop box at (x0, y0) that lies inside the image: the
      box cut down to the image's right and bottom edges. */
  function Clip(g: Raster<Gray>, x0: nat, y0: nat, size: nat): (c: Raster<Gray>)
    requires g.Valid()
    ensures c.Valid()
    ensures c.width == Overlap(x0, size, g.width) && c.height == Overlap(y0, size, g.height)
    ensures forall j, i :: 0 <= j < c.height && 0 <= i < c.width ==>
              x0 + i < g.width && y0 + j < g.height && c.rows[j][i] == g.rows[y0 + j][x0 + i]
  {
    var cw, ch := Overlap(x0, size, g.width), Overlap(y0, size, g.height);
    var rows := seq(ch, j requires 0 <= j < ch => ClipRow(g, x0, y0 + j, cw));
    assert forall j :: 0 <= j < ch ==> rows[j] == ClipRow(g, x0, y0 + j, cw);
    Raster(cw, ch, rows)
  }

  /** Samples x0 .. x0 + cw − 1 of row y. */
  function ClipRow(g: Raster<Gray>, x0: nat, y: nat, cw: nat): (r: seq<Gray>)
    requires g.Valid() && y < g.height && (cw == 0 || x0 + cw <= g.width)
    ensures |r| == cw
    ensures forall i :: 0 <= i < cw ==> r[i] == g.rows[y][x0 + i]
  {
    if cw == 0 then [] else g.rows[y][x0 .. x0 + cw]
  }

  /** The padded crop box and its in-image part hold the same gray total:
      the overhang is black and adds nothing. */
  lemma CropSumIsClipSum(g: Raster<Gray>, x0: nat, y0: nat, size: nat)
    requires g.Valid()
    ensures Sum(Pixels(Crop(g, x0, y0, size))) == Sum(Pixels(Clip(g, x0, y0, size)))
  {
    var crop, clip := Crop(g, x0, y0, size), Clip(g, x0, y0, size);
    SumFlatten(crop.rows);
    SumFlatten(clip.rows);
    forall j | 0 <= j < size
      ensures Sum(crop.rows[j]) == (if j < clip.height then Sum(clip.rows[j]) else 0)
    {
      CropRowSum(g, x0, y0, size, j);
    }
    RowTotalsAgree(crop.rows, clip.rows, size);
  }

  lemma CropRowSum(g: Raster<Gray>, x0: nat, y0: nat, size: nat, j: nat)
    requires g.Valid() && j < size
    ensures var crop, clip := Crop(g, x0, y0, size), Clip(g, x0, y0, size);
            Sum(crop.rows[j]) == (if j < clip.height then Sum(clip.rows[j]) else 0)
  {
    var crop, clip := Crop(g, x0, y0, size), Clip(g, x0, y0, size);
    var row := crop.rows[j];
    var cw := clip.width;
    assert forall i :: 0 <= i < size ==> row[i] == Sample(g, x0 + i, y0 + j);
    if j < clip.height {
      assert forall i :: 0 <= i < cw ==> row[i] == clip.rows[j][i];
      assert row == clip.rows[j] + row[cw..];
      SumBlack(row[cw..]);
      SumConcat(clip.rows[j], row[cw..]);
    } else {
      SumBlack(row);
    }
  }

  /** Row totals of `a` equal those of `b` when the first |b| rows agree in
      total and the rest of `a` totals 0. */
  lemma {:induction false} RowTotalsAgree(a: seq<seq<Gray>>, b: seq<seq<Gray>>, k: nat)
    requires |b| <= k == |a|
    requires forall j :: 0 <= j < k ==> Sum(a[j]) == (if j < |b| then Sum(b[j]) else 0)
    ensures RowTotals(a) == RowTotals(b)
    decreases k
  {
    if k > 0 {
      if |b| == k {
        RowTotalsAgree(a[..k - 1], b[..k - 1], k - 1);
      } else {
        RowTotalsAgree(a[..k - 1], b, k - 1);
      }
    }
  }
}
