/** The 256-bin histogram of a grayscale region and the mean gray the
    renderer derives from it (`suma += i * h` over `region.histogram()`). */
module Histograms {
  import opened Grids

  /** Number of bins of an "L" mode histogram: one per gray level. */
  const Bins: nat := 256

  /** `region.histogram()`: bin v counts the samples equal to v. Built one
      sample at a time, the way a scan over the region fills it. */
  function Histogram(p: seq<Gray>): (h: seq<nat>)
    ensures |h| == Bins
    ensures forall v: Gray :: h[v] == multiset(p)[v]
  {
    if p == [] then seq(Bins, _ => 0)
    else
      var last := p[|p| - 1];
      assert p == p[..|p| - 1] + [last];
      var h := Histogram(p[..|p| - 1]);
      h[last := h[last] + 1]
  }

  /** Σ i·h[i] over the first k bins. */
  function WeightedSum(h: seq<nat>, k: nat): int
    requires k <= |h|
  {
    if k == 0 then 0 else WeightedSum(h, k - 1) + (k - 1) * h[k - 1]
  }

  /** Σ h[i] over the first k bins. */
  function BinTotal(h: seq<nat>, k: nat): int
    requires k <= |h|
  {
    if k == 0 then 0 else BinTotal(h, k - 1) + h[k - 1]
  }

  /** Adding one sample of gray v to bin v adds v to the weighted sum and 1
      to the bin total, counted over any prefix of bins that includes v. */
  lemma {:induction false} BumpBin(h: seq<nat>, v: nat, k: nat)
    requires v < |h| && k <= |h|
    ensures WeightedSum(h[v := h[v] + 1], k) == WeightedSum(h, k) + (if v < k then v else 0)
    ensures BinTotal(h[v := h[v] + 1], k) == BinTotal(h, k) + (if v < k then 1 else 0)
  {
    if k > 0 {
      BumpBin(h, v, k - 1);
    }
  }

  /** The histogram loses nothing: its bins add up to the number of samples,
      and Σ i·hist[i] is the plain total of the samples. */
  lemma {:induction false} HistogramTotals(p: seq<Gray>)
    ensures BinTotal(Histogram(p), Bins) == |p|
    ensures WeightedSum(Histogram(p), Bins) == Sum(p)
  {
    if p == [] {
      ZeroHistogram(seq(Bins, _ => 0), Bins);
    } else {
      var last := p[|p| - 1];
      HistogramTotals(p[..|p| - 1]);
      BumpBin(Histogram(p[..|p| - 1]), last, Bins);
    }
  }

  lemma {:induction false} ZeroHistogram(h: seq<nat>, k: nat)
    requires k <= |h|
    requires forall i :: 0 <= i < |h| ==> h[i] == 0
    ensures BinTotal(h, k) == 0 && WeightedSum(h, k) == 0
  {
    if k > 0 {
      ZeroHistogram(h, k - 1);
    }
  }

  /** The numerator and denominator of the mean gray of a region, computed
      as the renderer does: histogram the region, accumulate i·hist[i], and
      take the region's width × height as the pixel count. The mean
      `suma / total` is the average of the region's samples and lies in
      [0, 255]. */
  method MeanGray(region: Raster<Gray>) returns (suma: int, total: int)
    requires region.Valid()
    ensures total == region.width * region.height == |Pixels(region)|
    ensures suma == Sum(Pixels(region))
    ensures 0 <= suma <= 255 * total
  {
    var hist := Histogram(Pixels(region));
    total := region.width * region.height;
    suma := 0;
    var i := 0;
    while i < |hist|
      invariant 0 <= i <= |hist| == Bins
      invariant suma == WeightedSum(hist, i)
    {
      suma := suma + i * hist[i];
      i := i + 1;
    }
    HistogramTotals(Pixels(region));
    PixelCount(region);
    SumBounds(Pixels(region));
  }
}
