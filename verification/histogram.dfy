/**
 * Channel histograms of an image, their scaling to a plot height, and the
 * colour correction that shifts each channel so that its histogram peak
 * lines up with the average peak.
 */
module Histogram {
  import opened Outcomes
  import opened JavaInt
  import opened PixelGrid
  import opened Sums
  import Arithmetic
  import ImageTransformer

  /* --------------------------------------------------------- histograms */

  /** Per-channel counts: `red[v]` is the number of pixels whose red channel is `v`. */
  datatype Histograms = Histograms(red: seq<int>, green: seq<int>, blue: seq<int>)

  predicate IsHistograms(h: Histograms) {
    |h.red| == 256 && |h.green| == 256 && |h.blue| == 256
  }

  /** The counts of channel `c` (0 red, 1 green, 2 blue). */
  function Counts(h: Histograms, c: nat): (bins: seq<int>)
    requires c < 3
    ensures IsHistograms(h) ==> |bins| == 256
  {
    if c == 0 then h.red else if c == 1 then h.green else h.blue
  }

  /** `n` zero counts, as in a fresh `new int[n]`. */
  function Zeros(n: nat): (z: seq<int>)
    ensures |z| == n && forall i :: 0 <= i < n ==> z[i] == 0
  {
    if n == 0 then [] else [0] + Zeros(n - 1)
  }

  /** Three fresh `new int[256]` arrays. */
  function EmptyHistograms(): (h: Histograms)
    ensures IsHistograms(h)
  {
    Histograms(Zeros(256), Zeros(256), Zeros(256))
  }

  /** The grid's pixels in the order the nested row/column loops visit them. */
  function Flatten(g: Grid): (ps: seq<Pixel>)
    ensures WellFormed(g) ==> |ps| == |g| * Width(g) && forall k :: 0 <= k < |ps| ==> ValidPixel(ps[k])
  {
    if |g| == 0 then []
    else
      assert WellFormed(g) ==> WellFormed(g[1..]) && (|g| > 1 ==> Width(g[1..]) == Width(g));
      g[0] + Flatten(g[1..])
  }

  /** Reference definition: how many of `ps` have value `v` in channel `c`. */
  function Count(ps: seq<Pixel>, c: nat, v: int): nat
    requires c < 3
  {
    if |ps| == 0 then 0 else (if Channel(ps[0], c) == v then 1 else 0) + Count(ps[1..], c, v)
  }

  /** One loop body of `storeHistogram`: increment the three bins the pixel selects. */
  function Record(h: Histograms, p: Pixel): (r: Histograms)
    requires IsHistograms(h) && ValidPixel(p)
    ensures IsHistograms(r)
  {
    Histograms(h.red[p.r := h.red[p.r] + 1],
               h.green[p.g := h.green[p.g] + 1],
               h.blue[p.b := h.blue[p.b] + 1])
  }

  function Accumulate(h: Histograms, ps: seq<Pixel>): (r: Histograms)
    requires IsHistograms(h)
    requires forall k :: 0 <= k < |ps| ==> ValidPixel(ps[k])
    ensures IsHistograms(r)
    decreases |ps|
  {
    if |ps| == 0 then h else Accumulate(Record(h, ps[0]), ps[1..])
  }

  lemma {:induction false} AccumulateCounts(h: Histograms, ps: seq<Pixel>, c: nat, v: nat)
    requires IsHistograms(h) && c < 3 && v < 256
    requires forall k :: 0 <= k < |ps| ==> ValidPixel(ps[k])
    ensures Counts(Accumulate(h, ps), c)[v] == Counts(h, c)[v] + Count(ps, c, v)
    decreases |ps|
  {
    if |ps| > 0 {
      AccumulateCounts(Record(h, ps[0]), ps[1..], c, v);
    }
  }

  lemma AccumulateCountsAll(h: Histograms, ps: seq<Pixel>)
    requires IsHistograms(h)
    requires forall k :: 0 <= k < |ps| ==> ValidPixel(ps[k])
    ensures forall c, v :: 0 <= c < 3 && 0 <= v < 256 ==>
      Counts(Accumulate(h, ps), c)[v] == Counts(h, c)[v] + Count(ps, c, v)
  {
    forall c, v | 0 <= c < 3 && 0 <= v < 256
      ensures Counts(Accumulate(h, ps), c)[v] == Counts(h, c)[v] + Count(ps, c, v)
    {
      AccumulateCounts(h, ps, c, v);
    }
  }

  lemma {:induction false} AccumulateTotal(h: Histograms, ps: seq<Pixel>, c: nat)
    requires IsHistograms(h) && c < 3
    requires forall k :: 0 <= k < |ps| ==> ValidPixel(ps[k])
    ensures Sum(Counts(Accumulate(h, ps), c)) == Sum(Counts(h, c)) + |ps|
    decreases |ps|
  {
    if |ps| > 0 {
      var p := ps[0];
      assert ValidPixel(p);
      var next := Record(h, p);
      RecordCounts(h, p, c);
      SumIncrement(Counts(h, c), Channel(p, c));
      assert Sum(Counts(next, c)) == Sum(Counts(h, c)) + 1;
      AccumulateTotal(next, ps[1..], c);
      assert Accumulate(h, ps) == Accumulate(next, ps[1..]);
    }
  }

  /** Recording a pixel adds one to the bin its channel `c` selects. */
  lemma RecordCounts(h: Histograms, p: Pixel, c: nat)
    requires IsHistograms(h) && ValidPixel(p) && c < 3
    ensures 0 <= Channel(p, c) < 256
    ensures Counts(Record(h, p), c) == Counts(h, c)[Channel(p, c) := Counts(h, c)[Channel(p, c)] + 1]
  {
  }

  /**
   * `storeHistogram`: bin `v` of channel `c` counts exactly the pixels whose
   * channel `c` equals `v`.
   */
  function StoreHistogram(g: Grid): (h: Histograms)
    requires WellFormed(g)
    ensures IsHistograms(h)
    ensures forall c, v :: 0 <= c < 3 && 0 <= v < 256 ==> Counts(h, c)[v] == Count(Flatten(g), c, v)
  {
    AccumulateCountsAll(EmptyHistograms(), Flatten(g));
    Accumulate(EmptyHistograms(), Flatten(g))
  }

  /** Every pixel lands in exactly one bin of each channel: each channel's bins sum to the pixel count. */
  lemma HistogramTotal(g: Grid, c: nat)
    requires WellFormed(g) && c < 3
    ensures Sum(Counts(StoreHistogram(g), c)) == |g| * Width(g)
  {
    var ps := Flatten(g);
    AccumulateTotal(EmptyHistograms(), ps, c);
    SumOfZeros(Counts(EmptyHistograms(), c));
  }

  /* ------------------------------------------------------------ scaling */

  /**
   * The largest bin of an image's histograms is 0 exactly when the image
   * has no pixels, so `scaleHistogram` divides by zero exactly then.
   */
  lemma MaxCountZeroIffEmpty(g: Grid)
    requires WellFormed(g)
    ensures MaxCount(StoreHistogram(g)) == 0 <==> |g| * Width(g) == 0
  {
    if MaxCount(StoreHistogram(g)) == 0 {
      EmptyWhenMaxZero(g);
    } else if |g| * Width(g) == 0 {
      ZeroBinsWhenEmpty(g);
    }
  }

  lemma EmptyWhenMaxZero(g: Grid)
    requires WellFormed(g) && MaxCount(StoreHistogram(g)) == 0
    ensures |g| * Width(g) == 0
  {
    var h := StoreHistogram(g);
    forall v | 0 <= v < 256
      ensures h.red[v] == 0
    {
      assert Counts(h, 0)[v] == Count(Flatten(g), 0, v);
    }
    SumOfZeros(h.red);
    HistogramTotal(g, 0);
  }

  lemma ZeroBinsWhenEmpty(g: Grid)
    requires WellFormed(g) && |g| * Width(g) == 0
    ensures MaxCount(StoreHistogram(g)) == 0
  {
    var h := StoreHistogram(g);
    assert |Flatten(g)| == 0;
    forall v | 0 <= v < 256
      ensures h.red[v] == 0 && h.green[v] == 0 && h.blue[v] == 0
    {
      assert Counts(h, 0)[v] == Count(Flatten(g), 0, v);
      assert Counts(h, 1)[v] == Count(Flatten(g), 1, v);
      assert Counts(h, 2)[v] == Count(Flatten(g), 2, v);
    }
  }

  /** The largest bin of the three channels, starting from `max = 0` (the first loop of `scaleHistogram`). */
  function MaxCount(h: Histograms): (m: int)
    requires IsHistograms(h)
    ensures m >= 0
    ensures forall i :: 0 <= i < 256 ==> h.red[i] <= m && h.green[i] <= m && h.blue[i] <= m
    ensures m == 0 || exists i :: 0 <= i < 256 && (h.red[i] == m || h.green[i] == m || h.blue[i] == m)
  {
    MaxFrom(h, 0, 0)
  }

  function MaxFrom(h: Histograms, i: nat, acc: int): (m: int)
    requires IsHistograms(h) && i <= 256
    ensures m >= acc
    ensures forall k :: i <= k < 256 ==> h.red[k] <= m && h.green[k] <= m && h.blue[k] <= m
    ensures m == acc || exists k :: i <= k < 256 && (h.red[k] == m || h.green[k] == m || h.blue[k] == m)
    decreases 256 - i
  {
    if i == 256 then acc
    else
      var here := if h.red[i] >= h.green[i] && h.red[i] >= h.blue[i] then h.red[i]
                  else if h.green[i] >= h.blue[i] then h.green[i] else h.blue[i];
      MaxFrom(h, i + 1, if here > acc then here else acc)
  }

  /** One bin of `scaleHistogram` as written: `(count * height) / max` on 32-bit ints. */
  function WrappedScale(count: int, height: Int32, m: int): int
    requires m > 0
  {
    Div(Wrap(count * height), m)
  }

  function WrappedChannel(bins: seq<int>, height: Int32, m: int): (r: seq<int>)
    requires m > 0
    ensures |r| == |bins|
    ensures forall k :: 0 <= k < |bins| ==> r[k] == WrappedScale(bins[k], height, m)
  {
    seq(|bins|, k requires 0 <= k < |bins| => WrappedScale(bins[k], height, m))
  }

  /**
   * `scaleHistogram` as written: every bin becomes `(count * height) / max`
   * in 32-bit arithmetic; an all-zero histogram (an image without pixels)
   * divides by zero.
   */
  function ScaleHistogram(height: Int32, h: Histograms): (r: Result<Histograms>)
    requires IsHistograms(h)
    ensures r.Err? <==> MaxCount(h) == 0
    ensures r.Err? ==> r.error == DivisionByZero
    ensures r.Ok? ==> IsHistograms(r.value)
  {
    var m := MaxCount(h);
    if m == 0 then Err(DivisionByZero)
    else
      Ok(Histograms(WrappedChannel(h.red, height, m),
                    WrappedChannel(h.green, height, m),
                    WrappedChannel(h.blue, height, m)))
  }

  /** The scaled value of one bin, computed without overflow. */
  function ScaleBin(count: int, height: int, m: int): (s: int)
    requires 0 <= count <= m && 0 <= height && m > 0
    ensures 0 <= s <= height
    ensures count == m ==> s == height
    ensures s == (count * height) / m
    ensures s * m <= count * height < s * m + m
  {
    Arithmetic.MulMonotone(count, m, height);
    Arithmetic.QuotientBounded(count * height, m, height);
    if count == m then
      Arithmetic.QuotientUnique(count * height, m, height);
      (count * height) / m
    else
      (count * height) / m
  }

  /** A channel's bins rescaled so that a bin of `m` reaches `height`. */
  function ScaleChannel(bins: seq<int>, height: nat, m: int): (r: seq<int>)
    requires m > 0
    requires forall k :: 0 <= k < |bins| ==> 0 <= bins[k] <= m
    ensures |r| == |bins|
    ensures forall k :: 0 <= k < |bins| ==> 0 <= r[k] <= height && (bins[k] == m ==> r[k] == height)
    ensures forall k :: 0 <= k < |bins| ==> r[k] == (bins[k] * height) / m
  {
    seq(|bins|, k requires 0 <= k < |bins| => ScaleBin(bins[k], height, m))
  }

  predicate NonNegative(h: Histograms)
    requires IsHistograms(h)
  {
    forall i :: 0 <= i < 256 ==> h.red[i] >= 0 && h.green[i] >= 0 && h.blue[i] >= 0
  }

  /** Every bin of every channel lies in [0, height]. */
  predicate FitsHeight(h: Histograms, height: int)
    requires IsHistograms(h)
  {
    forall i :: 0 <= i < 256 ==> 0 <= h.red[i] <= height && 0 <= h.green[i] <= height && 0 <= h.blue[i] <= height
  }

  /**
   * The intended scaling: every bin is its share of the tallest bin, times
   * the plot height, so the plot stays inside [0, height] and the tallest
   * bin reaches the top.
   */
  function ScaleHistogramExact(height: nat, h: Histograms): (r: Result<Histograms>)
    requires IsHistograms(h) && NonNegative(h)
    ensures r.Err? <==> MaxCount(h) == 0
    ensures r.Ok? ==> IsHistograms(r.value) && FitsHeight(r.value, height)
    ensures r.Ok? ==> forall c, i :: 0 <= c < 3 && 0 <= i < 256 ==>
      Counts(r.value, c)[i] == (Counts(h, c)[i] * height) / MaxCount(h)
    ensures r.Ok? ==> forall c, i :: 0 <= c < 3 && 0 <= i < 256 && Counts(h, c)[i] == MaxCount(h) ==>
      Counts(r.value, c)[i] == height
  {
    var m := MaxCount(h);
    if m == 0 then Err(DivisionByZero) else Ok(ScaleChannels(height, h, m))
  }

  /** The three channels rescaled so that a bin of `m` reaches `height`. */
  function ScaleChannels(height: nat, h: Histograms, m: int): (r: Histograms)
    requires IsHistograms(h) && m > 0
    requires forall i :: 0 <= i < 256 ==> 0 <= h.red[i] <= m && 0 <= h.green[i] <= m && 0 <= h.blue[i] <= m
    ensures IsHistograms(r) && FitsHeight(r, height)
    ensures forall c, i :: 0 <= c < 3 && 0 <= i < 256 ==>
      Counts(r, c)[i] == (Counts(h, c)[i] * height) / m && (Counts(h, c)[i] == m ==> Counts(r, c)[i] == height)
  {
    var r := Histograms(ScaleChannel(h.red, height, m),
                        ScaleChannel(h.green, height, m),
                        ScaleChannel(h.blue, height, m));
    assert forall c :: 0 <= c < 3 ==> Counts(r, c) == ScaleChannel(Counts(h, c), height, m);
    r
  }

  /** Below the overflow threshold the 32-bit computation of a channel is the exact one. */
  lemma ChannelAgreesWithoutOverflow(bins: seq<int>, height: Int32, m: int)
    requires m > 0 && height >= 0 && m * height <= IntMax
    requires forall k :: 0 <= k < |bins| ==> 0 <= bins[k] <= m
    ensures WrappedChannel(bins, height, m) == ScaleChannel(bins, height, m)
  {
    forall k | 0 <= k < |bins|
      ensures WrappedChannel(bins, height, m)[k] == ScaleChannel(bins, height, m)[k]
    {
      var v := bins[k];
      var p := v * height;
      Arithmetic.MulMonotone(v, m, height);
      Arithmetic.MulMonotone(0, v, height);
      assert 0 <= p <= IntMax;
      assert WrappedScale(v, height, m) == p / m by {
        assert Wrap(p) == p;
        assert Div(p, m) == p / m;
      }
      assert ScaleBin(v, height, m) == p / m;
    }
  }

  /** While `max * height` fits in an int, the code agrees with the intended scaling. */
  lemma ScaleHistogramAgreesWithoutOverflow(height: Int32, h: Histograms)
    requires IsHistograms(h) && NonNegative(h) && height >= 0
    requires MaxCount(h) * height <= IntMax
    ensures ScaleHistogram(height, h) == ScaleHistogramExact(height, h)
  {
    var m := MaxCount(h);
    if m > 0 {
      ChannelAgreesWithoutOverflow(h.red, height, m);
      ChannelAgreesWithoutOverflow(h.green, height, m);
      ChannelAgreesWithoutOverflow(h.blue, height, m);
    }
  }

  /** The histogram of an image in which 2^23 pixels (a 4096 x 2048 image) are all black. */
  function SolidBlackHistograms(): (h: Histograms)
    ensures IsHistograms(h) && NonNegative(h)
    ensures h.red[0] == 0x80_0000
    ensures MaxCount(h) == 0x80_0000
  {
    var bins := seq(256, i => if i == 0 then 0x80_0000 else 0);
    var h := Histograms(bins, bins, bins);
    MaxCountIs(h, 0, 0x80_0000);
    h
  }

  /** A bin that no bin exceeds holds the tallest count. */
  lemma MaxCountIs(h: Histograms, i: nat, m: int)
    requires IsHistograms(h) && i < 256 && h.red[i] == m && m >= 0
    requires forall k :: 0 <= k < 256 ==> h.red[k] <= m && h.green[k] <= m && h.blue[k] <= m
    ensures MaxCount(h) == m
  {
    var top := MaxCount(h);
    assert m <= top;
    if top != 0 {
      var k :| 0 <= k < 256 && (h.red[k] == top || h.green[k] == top || h.blue[k] == top);
    }
  }

  /**
   * For that histogram the tallest bin's `count * 256` reaches 2^31, which
   * wraps to -2^31: the code scales the tallest bin to -256 instead of 256.
   */
  lemma ScaleHistogramOverflows()
    ensures ScaleHistogram(256, SolidBlackHistograms()).Ok?
    ensures ScaleHistogram(256, SolidBlackHistograms()).value.red[0] == -256
    ensures ScaleHistogramExact(256, SolidBlackHistograms()).Ok?
    ensures ScaleHistogramExact(256, SolidBlackHistograms()).value.red[0] == 256
  {
    var h := SolidBlackHistograms();
    assert WrappedScale(0x80_0000, 256, 0x80_0000) == -256 by {
      assert Wrap(0x80_0000 * 256) == -0x8000_0000;
      assert Div(-0x8000_0000, 0x80_0000) == -256;
    }
  }

  /* ---------------------------------------------------- colour correction */

  /**
   * `findPeak(hist, lo, hi)`: the first index in [lo, hi] holding the largest
   * count; `lo` when the range is empty.
   */
  function FindPeak(hist: seq<int>, lo: nat, hi: int): (peak: int)
    requires hi < |hist|
    requires lo <= hi ==> lo < |hist|
    ensures lo > hi ==> peak == lo
    ensures lo <= hi ==> (lo <= peak <= hi &&
      (forall k :: lo <= k <= hi ==> hist[k] <= hist[peak]) &&
      (forall k :: lo <= k < peak ==> hist[k] < hist[peak]))
  {
    if lo > hi then lo else ScanPeak(hist, lo, hi, lo, lo)
  }

  /** The loop of `findPeak` from index `i` on, with `peak` the best index so far. */
  function ScanPeak(hist: seq<int>, lo: nat, hi: int, i: nat, peak: nat): (r: nat)
    requires lo <= peak <= i <= hi + 1 && hi < |hist| && peak <= hi
    requires forall k :: lo <= k < i ==> hist[k] <= hist[peak]
    requires forall k :: lo <= k < peak ==> hist[k] < hist[peak]
    ensures lo <= r <= hi
    ensures forall k :: lo <= k <= hi ==> hist[k] <= hist[r]
    ensures forall k :: lo <= k < r ==> hist[k] < hist[r]
    decreases hi + 1 - i
  {
    if i > hi then peak
    else ScanPeak(hist, lo, hi, i + 1, if hist[i] > hist[peak] then i else peak)
  }

  /** Histogram peaks are searched in [10, 245], away from clipped extremes. */
  const PeakLow: nat := 10
  const PeakHigh: nat := 245

  /** The peak of channel `c` in the image's histogram. */
  function Peak(g: Grid, c: nat): (peak: int)
    requires WellFormed(g) && c < 3
    ensures PeakLow <= peak <= PeakHigh
  {
    FindPeak(Counts(StoreHistogram(g), c), PeakLow, PeakHigh)
  }

  /** `(rPeak + gPeak + bPeak) / 3` for non-negative peaks. */
  function AveragePeak(rPeak: nat, gPeak: nat, bPeak: nat): (avg: int)
    ensures 3 * avg <= rPeak + gPeak + bPeak < 3 * avg + 3
  {
    Div(rPeak + gPeak + bPeak, 3)
  }

  /** Shifting a pixel's channels by the three offsets, saturating each to [0,255]. */
  function ShiftPixel(p: Pixel, dr: int, dg: int, db: int): (q: Pixel)
    ensures ValidPixel(q)
    ensures ValidPixel(p) && dr == dg == db == 0 ==> q == p
  {
    Pixel(Clamp(p.r + dr), Clamp(p.g + dg), Clamp(p.b + db))
  }

  /** The image with every pixel shifted by the three offsets. */
  function ShiftedImage(g: Grid, dr: int, dg: int, db: int): (r: Grid)
    requires Rectangular(g)
    ensures IsRect(r, |g|, Width(g)) && WellFormed(r)
    ensures forall i, j :: 0 <= i < |g| && 0 <= j < Width(g) ==> r[i][j] == ShiftPixel(g[i][j], dr, dg, db)
  {
    MapPixels(g, (p: Pixel) => ShiftPixel(p, dr, dg, db))
  }

  /**
   * The second half of `correctColor` for given channel peaks: every channel
   * is moved by `avgPeak - peak` and clamped, written to a raster and read
   * back.  The raster is refused for an image without pixels.
   */
  function AlignPeaks(g: Grid, rPeak: nat, gPeak: nat, bPeak: nat): (r: Result<Grid>)
    requires WellFormed(g)
    ensures r.Err? <==> !ImageTransformer.RasterSize(Width(g), |g|)
    ensures r.Err? ==> r.error == EmptyImage
    ensures r.Ok? ==> IsRect(r.value, |g|, Width(g)) && WellFormed(r.value)
    ensures r.Ok? ==> var avg := AveragePeak(rPeak, gPeak, bPeak);
      forall i, j :: 0 <= i < |g| && 0 <= j < Width(g) ==>
        r.value[i][j] == ShiftPixel(g[i][j], avg - rPeak, avg - gPeak, avg - bPeak)
  {
    var avg := AveragePeak(rPeak, gPeak, bPeak);
    match ImageTransformer.ColorBuffer(ShiftedImage(g, avg - rPeak, avg - gPeak, avg - bPeak))
    case Err(e) => Err(e)
    case Ok(b) => Ok(ImageTransformer.BufferToImage(b))
  }

  /** The three offsets nearly cancel: their sum `3 * avg - (rPeak + gPeak + bPeak)` lies in [-2, 0]. */
  lemma ShiftsNearlyCancel(rPeak: nat, gPeak: nat, bPeak: nat)
    ensures var avg := AveragePeak(rPeak, gPeak, bPeak);
      -2 <= (avg - rPeak) + (avg - gPeak) + (avg - bPeak) <= 0
  {
  }

  /** When the three peaks coincide every offset is zero and the image comes back unchanged. */
  lemma AlignEqualPeaksIsIdentity(g: Grid, peak: nat)
    requires WellFormed(g)
    ensures AlignPeaks(g, peak, peak, peak) ==
      if ImageTransformer.RasterSize(Width(g), |g|) then Ok(g) else Err(EmptyImage)
  {
    var r := AlignPeaks(g, peak, peak, peak);
    assert AveragePeak(peak, peak, peak) == peak;
    if r.Ok? {
      forall i | 0 <= i < |g|
        ensures r.value[i] == g[i]
      {
        assert |r.value[i]| == |g[i]|;
      }
      assert r.value == g;
    }
  }

  /**
   * `correctColor`: the peaks of the three channel histograms, searched in
   * [10, 245], are aligned to their average.  An image without pixels gets
   * as far as the raster for the result, which refuses it.
   */
  function CorrectColor(g: Grid): (r: Result<Grid>)
    requires WellFormed(g)
    ensures r.Err? <==> !ImageTransformer.RasterSize(Width(g), |g|)
    ensures r.Err? ==> r.error == EmptyImage
    ensures r.Ok? ==> IsRect(r.value, |g|, Width(g)) && WellFormed(r.value)
    ensures r.Ok? ==> var rp, gp, bp := Peak(g, 0), Peak(g, 1), Peak(g, 2);
      var avg := AveragePeak(rp, gp, bp);
      forall i, j :: 0 <= i < |g| && 0 <= j < Width(g) ==>
        r.value[i][j] == ShiftPixel(g[i][j], avg - rp, avg - gp, avg - bp)
  {
    AlignPeaks(g, Peak(g, 0), Peak(g, 1), Peak(g, 2))
  }

  /** An image with pixels whose three channel peaks already coincide is left unchanged. */
  lemma CorrectColorAlignedIsIdentity(g: Grid)
    requires WellFormed(g)
    requires Peak(g, 0) == Peak(g, 1) == Peak(g, 2)
    ensures CorrectColor(g) ==
      if ImageTransformer.RasterSize(Width(g), |g|) then Ok(g) else Err(EmptyImage)
  {
    AlignEqualPeaksIsIdentity(g, Peak(g, 0));
  }
}
