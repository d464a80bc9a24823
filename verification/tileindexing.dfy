/** The gray → tile index mapping of the mosaic renderer. The Python code
    divides floats (`prom = suma / total_pixels`, then
    `int((prom / 255) * (num_tiles - 1))`); here the same quantity is taken
    exactly, as the integer floor of suma·(num_tiles − 1) / (total·255). */
module TileIndexing {
  import opened Arith

  /** `max(0, min(n - 1, i))`. */
  function Clamp(i: int, n: nat): (r: nat)
    requires n >= 1
    ensures r < n
    ensures 0 <= i < n ==> r == i
    ensures i < 0 ==> r == 0
    ensures i >= n ==> r == n - 1
  {
    var upper := if n - 1 < i then n - 1 else i;
    if upper < 0 then 0 else upper
  }

  /** The numerator of the tone the index is read from: the gray total
      itself, or with `invert` the total of 255 − gray over the block. */
  function Toned(sum: int, count: int, invert: bool): int
  {
    if invert then 255 * count - sum else sum
  }

  /** The index before clamping: ⌊(mean / 255)·(n − 1)⌋ with mean = sum / count. */
  function RawIndex(sum: int, count: int, n: nat, invert: bool): int
    requires count >= 1
  {
    (Toned(sum, count, invert) * (n - 1)) / (count * 255)
  }

  /** The tile chosen for a block whose samples total `sum` over `count`
      pixels, out of a set of n tiles. */
  function TileIndex(sum: int, count: int, n: nat, invert: bool): (k: nat)
    requires count >= 1 && n >= 1
    ensures k < n
  {
    Clamp(RawIndex(sum, count, n, invert), n)
  }

  /** For a real block (mean in [0, 255]) the raw index is already within
      [0, n − 1]: the clamp never changes it. */
  lemma RawIndexInRange(sum: int, count: int, n: nat, invert: bool)
    requires count >= 1 && n >= 1 && 0 <= sum <= 255 * count
    ensures 0 <= RawIndex(sum, count, n, invert) <= n - 1
    ensures TileIndex(sum, count, n, invert) == RawIndex(sum, count, n, invert)
  {
    var v := Toned(sum, count, invert);
    assert 0 <= v <= 255 * count;
    MulMonotone(0, v, n - 1);
    MulMonotone(v, 255 * count, n - 1);
    DivMonotone(0, v * (n - 1), count * 255);
    DivMonotone(v * (n - 1), (n - 1) * (count * 255), count * 255);
    DivModUnique((n - 1) * (count * 255), count * 255, n - 1, 0);
  }

  /** The chosen index k is the one whose band [k, k + 1)·(255·count) holds
      tone·(n − 1): the mean falls in the k-th of n − 1 equal slices of
      [0, 255], the brightest mean landing on the last tile. */
  lemma TileIndexBand(sum: int, count: int, n: nat, invert: bool)
    requires count >= 1 && n >= 1 && 0 <= sum <= 255 * count
    ensures var k := TileIndex(sum, count, n, invert);
            var v := Toned(sum, count, invert);
            k * (255 * count) <= v * (n - 1) < (k + 1) * (255 * count)
  {
    RawIndexInRange(sum, count, n, invert);
    var a := Toned(sum, count, invert) * (n - 1);
    var d := count * 255;
    assert a == d * (a / d) + a % d;
  }

  /** Without invert, a black block (mean 0) gets the first tile and a
      white block (mean 255) the last; with invert the two swap. */
  lemma TileIndexEndpoints(count: int, n: nat)
    requires count >= 1 && n >= 1
    ensures TileIndex(0, count, n, false) == 0
    ensures TileIndex(255 * count, count, n, false) == n - 1
    ensures TileIndex(0, count, n, true) == n - 1
    ensures TileIndex(255 * count, count, n, true) == 0
  {
    DivModUnique((255 * count) * (n - 1), count * 255, n - 1, 0);
  }

  /** Inverting the mapping is the same as mapping the mean 255 − mean. */
  lemma TileIndexInvertSymmetry(sum: int, count: int, n: nat)
    requires count >= 1 && n >= 1
    ensures TileIndex(sum, count, n, true) == TileIndex(255 * count - sum, count, n, false)
  {
  }

  /** A brighter block never gets an earlier tile; with invert it never
      gets a later one. */
  lemma TileIndexMonotone(sum1: int, sum2: int, count: int, n: nat)
    requires count >= 1 && n >= 1 && sum1 <= sum2
    ensures TileIndex(sum1, count, n, false) <= TileIndex(sum2, count, n, false)
    ensures TileIndex(sum1, count, n, true) >= TileIndex(sum2, count, n, true)
  {
    MulMonotone(sum1, sum2, n - 1);
    DivMonotone(sum1 * (n - 1), sum2 * (n - 1), count * 255);
    MulMonotone(255 * count - sum2, 255 * count - sum1, n - 1);
    DivMonotone((255 * count - sum2) * (n - 1), (255 * count - sum1) * (n - 1), count * 255);
  }

  /** Monotonicity across pixel counts: if mean s1/c1 is at most mean s2/c2
      then the first block's index is at most the second's without invert
      and at least it with invert. */
  lemma TileIndexMonotoneInMean(s1: int, c1: int, s2: int, c2: int, n: nat)
    requires c1 >= 1 && c2 >= 1 && n >= 1
    requires 0 <= s1 <= 255 * c1 && 0 <= s2 <= 255 * c2
    requires s1 * c2 <= s2 * c1
    ensures TileIndex(s1, c1, n, false) <= TileIndex(s2, c2, n, false)
    ensures TileIndex(s1, c1, n, true) >= TileIndex(s2, c2, n, true)
  {
    PlainIndexMonotoneInMean(s1, c1, s2, c2, n);
    var v1, v2 := 255 * c1 - s1, 255 * c2 - s2;
    assert v2 * c1 == 255 * c1 * c2 - s2 * c1;
    assert v1 * c2 == 255 * c1 * c2 - s1 * c2;
    PlainIndexMonotoneInMean(v2, c2, v1, c1, n);
  }

  lemma PlainIndexMonotoneInMean(s1: int, c1: int, s2: int, c2: int, n: nat)
    requires c1 >= 1 && c2 >= 1 && n >= 1
    requires 0 <= s1 <= 255 * c1 && 0 <= s2 <= 255 * c2
    requires s1 * c2 <= s2 * c1
    ensures TileIndex(s1, c1, n, false) <= TileIndex(s2, c2, n, false)
  {
    RawIndexInRange(s1, c1, n, false);
    RawIndexInRange(s2, c2, n, false);
    TileIndexBand(s1, c1, n, false);
    var k1 := TileIndex(s1, c1, n, false);
    var m := n - 1;
    // k1·255·c1 <= s1·m, so k1·255·c1·c2 <= s1·c2·m <= s2·c1·m.
    MulMonotone(k1 * (255 * c1), s1 * m, c2);
    MulMonotone(s1 * c2, s2 * c1, m);
    assert c1 * (k1 * (255 * c2)) == (k1 * (255 * c1)) * c2;
    assert c1 * (s2 * m) == (s2 * c1) * m;
    assert (s1 * m) * c2 == (s1 * c2) * m;
    MulCancel(c1, k1 * (255 * c2), s2 * m);
    assert k1 * (c2 * 255) <= s2 * m;
    FloorIsMax(k1, s2 * m, c2 * 255);
  }

  /** The index depends on the mean alone: scaling the gray total and the
      pixel count by the same factor picks the same tile. */
  lemma TileIndexDependsOnMeanOnly(sum: int, count: int, m: int, n: nat, invert: bool)
    requires count >= 1 && m >= 1 && n >= 1
    ensures TileIndex(sum * m, count * m, n, invert) == TileIndex(sum, count, n, invert)
  {
    var v := Toned(sum, count, invert);
    assert Toned(sum * m, count * m, invert) == v * m;
    var a, d := v * (n - 1), count * 255;
    var q, r := a / d, a % d;
    assert a == d * q + r;
    assert (v * m) * (n - 1) == m * a;
    assert (count * m) * 255 == m * d;
    assert m * a == (m * d) * q + m * r;
    MulMonotone(r, d - 1, m);
    MulMonotone(0, r, m);
    DivModUnique(m * a, m * d, q, m * r);
  }

  /** Python's `int()` on a float: truncation toward zero. */
  function Trunc(r: real): int
  {
    if r >= 0.0 then r.Floor else -((-r).Floor)
  }

  /** The renderer's index computation read over exact rationals: take the
      mean, replace it by 255 − mean when inverting, scale it by
      (n − 1) / 255, truncate toward zero and clamp to [0, n − 1]. */
  function SourceIndex(mean: real, n: nat, invert: bool): nat
    requires n >= 1
  {
    Clamp(Trunc(ScaledTone(mean, n, invert)), n)
  }

  /** `(val / 255) * (num_tiles - 1)` with `val` the mean or 255 − mean. */
  function ScaledTone(mean: real, n: nat, invert: bool): real
  {
    var v := if invert then 255.0 - mean else mean;
    (v / 255.0) * (n - 1) as real
  }

  /** The integer formula picks the same tile as the renderer's formula
      evaluated without rounding error. */
  lemma TileIndexMatchesSourceFormula(sum: int, count: int, n: nat, invert: bool)
    requires count >= 1 && n >= 1 && 0 <= sum <= 255 * count
    ensures TileIndex(sum, count, n, invert) == SourceIndex(sum as real / count as real, n, invert)
  {
    var mean := sum as real / count as real;
    var v := Toned(sum, count, invert);
    var vr := if invert then 255.0 - mean else mean;
    if invert {
      RealComplement(sum, count);
    }
    assert vr == v as real / count as real;
    var a := v * (n - 1);
    var d := count * 255;
    MulMonotone(0, v, n - 1);
    RealScale(v, count, n - 1);
    var x := ScaledTone(mean, n, invert);
    assert x == a as real / d as real;
    RealFloorOfQuotient(a, d);
    assert Trunc(x) == a / d;
  }
}
