/**
 * Kernel filtering (`filterImageByKernel`) and its two fixed kernels, blur
 * and sharpen.  Samples outside the image are read from the nearest edge
 * pixel.  Every weight of the two kernels is a dyadic fraction, so each
 * double product `sample * weight` is exact and the model computes it in
 * exact rational arithmetic; the cast `(int)` truncates it toward zero
 * before it is added to the running integer sum.
 */
module Convolution {
  import opened JavaInt
  import opened PixelGrid
  import opened Sums

  type Kernel = seq<seq<real>>

  /** `k` is an n-by-n matrix of weights. */
  predicate IsKernel(k: Kernel, n: nat) {
    |k| == n && forall i :: 0 <= i < n ==> |k[i]| == n
  }

  const BlurKernel: Kernel :=
    [[0.0625, 0.125, 0.0625],
     [0.125, 0.25, 0.125],
     [0.0625, 0.125, 0.0625]]

  const SharpenKernel: Kernel :=
    [[-0.125, -0.125, -0.125, -0.125, -0.125],
     [-0.125, 0.25, 0.25, 0.25, -0.125],
     [-0.125, 0.25, 1.0, 0.25, -0.125],
     [-0.125, 0.25, 0.25, 0.25, -0.125],
     [-0.125, -0.125, -0.125, -0.125, -0.125]]

  /** `Math.min(Math.max(x, 0), n - 1)`: a sample coordinate moved into [0, n). */
  function ClampIndex(x: int, n: nat): (r: nat)
    requires n > 0
    ensures r < n
    ensures 0 <= x < n ==> r == x
    ensures x < 0 ==> r == 0
    ensures x >= n ==> r == n - 1
  {
    if x < 0 then 0 else if x > n - 1 then n - 1 else x
  }

  /** Channel `c` of the pixel read for kernel cell (ki, kj) centred on (row, col). */
  function Sample(g: Grid, row: nat, col: nat, ki: nat, kj: nat, half: nat, c: nat): int
    requires Rectangular(g) && row < |g| && col < Width(g) && c < 3
  {
    Channel(g[ClampIndex(row + ki - half, |g|)][ClampIndex(col + kj - half, Width(g))], c)
  }

  /** Row `ki` of the truncated products `(int)(sample * weight)`, in loop order. */
  function ProductRow(g: Grid, k: Kernel, n: nat, row: nat, col: nat, c: nat, ki: nat): seq<int>
    requires Rectangular(g) && row < |g| && col < Width(g) && c < 3
    requires IsKernel(k, n) && ki < n
  {
    seq(n, kj requires 0 <= kj < n => Trunc(Sample(g, row, col, ki, kj, n / 2, c) as real * k[ki][kj]))
  }

  /** The integer `pixelValue` that the two kernel loops accumulate for one channel. */
  function KernelSum(g: Grid, k: Kernel, n: nat, row: nat, col: nat, c: nat): int
    requires Rectangular(g) && row < |g| && col < Width(g) && c < 3
    requires IsKernel(k, n)
  {
    Sum(seq(n, ki requires 0 <= ki < n => Sum(ProductRow(g, k, n, row, col, c, ki))))
  }

  function FilterPixel(g: Grid, k: Kernel, n: nat, row: nat, col: nat): (p: Pixel)
    requires Rectangular(g) && row < |g| && col < Width(g)
    requires IsKernel(k, n)
    ensures ValidPixel(p)
  {
    Pixel(Clamp(KernelSum(g, k, n, row, col, 0)),
          Clamp(KernelSum(g, k, n, row, col, 1)),
          Clamp(KernelSum(g, k, n, row, col, 2)))
  }

  /** `filterImageByKernel`: each output channel is the clamped sum of truncated products. */
  function FilterByKernel(g: Grid, k: Kernel, n: nat): (r: Grid)
    requires WellFormed(g) && IsKernel(k, n)
    ensures IsRect(r, |g|, Width(g))
    ensures WellFormed(r)
    ensures forall i, j :: 0 <= i < |g| && 0 <= j < Width(g) ==> r[i][j] == FilterPixel(g, k, n, i, j)
  {
    seq(|g|, i requires 0 <= i < |g| =>
      seq(Width(g), j requires 0 <= j < Width(g) => FilterPixel(g, k, n, i, j)))
  }

  /** `blur`: every pixel filtered with the 3x3 blur kernel. */
  function Blur(g: Grid): (r: Grid)
    requires WellFormed(g)
    ensures IsRect(r, |g|, Width(g)) && WellFormed(r)
    ensures forall i, j :: 0 <= i < |g| && 0 <= j < Width(g) ==> r[i][j] == FilterPixel(g, BlurKernel, 3, i, j)
  {
    FilterByKernel(g, BlurKernel, 3)
  }

  /** `sharpen`: every pixel filtered with the 5x5 sharpen kernel. */
  function Sharpen(g: Grid): (r: Grid)
    requires WellFormed(g)
    ensures IsRect(r, |g|, Width(g)) && WellFormed(r)
    ensures forall i, j :: 0 <= i < |g| && 0 <= j < Width(g) ==> r[i][j] == FilterPixel(g, SharpenKernel, 5, i, j)
  {
    FilterByKernel(g, SharpenKernel, 5)
  }

  /* ----------------------------------------------------------- lemmas */

  predicate AllBlack(g: Grid) {
    forall i, j :: 0 <= i < |g| && 0 <= j < |g[i]| ==> g[i][j] == Pixel(0, 0, 0)
  }

  /** Whatever the kernel, filtering an all-black image gives an all-black image. */
  lemma FilterBlack(g: Grid, k: Kernel, n: nat)
    requires WellFormed(g) && IsKernel(k, n) && AllBlack(g)
    ensures AllBlack(FilterByKernel(g, k, n))
  {
    var r := FilterByKernel(g, k, n);
    forall i, j | 0 <= i < |r| && 0 <= j < |r[i]|
      ensures r[i][j] == Pixel(0, 0, 0)
    {
      forall c | 0 <= c < 3
        ensures KernelSum(g, k, n, i, j, c) == 0
      {
        var rows := seq(n, ki requires 0 <= ki < n => Sum(ProductRow(g, k, n, i, j, c, ki)));
        forall ki | 0 <= ki < n
          ensures rows[ki] == 0
        {
          SumOfZeros(ProductRow(g, k, n, i, j, c, ki));
        }
        SumOfZeros(rows);
      }
    }
  }

  /**
   * Blur as written darkens a uniform white image: every product is truncated
   * before the sum, so the nine weights that add up to 1 yield 247, not 255.
   */
  lemma BlurDarkensWhite()
    ensures Blur([[Grey(255)]]) == [[Grey(247)]]
  {
    var g := [[Grey(255)]];
    assert WellFormed(g);
    forall c | 0 <= c < 3
      ensures KernelSum(g, BlurKernel, 3, 0, 0, c) == 247
    {
      WhiteBlurRow(c, 0);
      WhiteBlurRow(c, 1);
      WhiteBlurRow(c, 2);
      var rows := seq(3, ki requires 0 <= ki < 3 => Sum(ProductRow(g, BlurKernel, 3, 0, 0, c, ki)));
      assert rows == [61, 125, 61];
      Sum3(rows);
    }
    var r := Blur(g);
    assert r[0][0] == Grey(247);
    assert r[0] == [Grey(247)];
  }

  /** The truncated products of one kernel row over a single white pixel. */
  lemma WhiteBlurRow(c: nat, ki: nat)
    requires c < 3 && ki < 3
    ensures WellFormed([[Grey(255)]])
    ensures Sum(ProductRow([[Grey(255)]], BlurKernel, 3, 0, 0, c, ki)) == (if ki == 1 then 125 else 61)
  {
    var g := [[Grey(255)]];
    assert Width(g) == 1;
    var row := ProductRow(g, BlurKernel, 3, 0, 0, c, ki);
    forall kj | 0 <= kj < 3
      ensures Sample(g, 0, 0, ki, kj, 1, c) == 255
    {
      assert ClampIndex(ki - 1, 1) == 0 && ClampIndex(kj - 1, 1) == 0;
    }
    assert Trunc(255.0 * 0.0625) == 15;
    assert Trunc(255.0 * 0.125) == 31;
    assert Trunc(255.0 * 0.25) == 63;
    Sum3(row);
  }

  /* ----------------------------------------------------------- exact (sum, then truncate) */

  function ExactRow(g: Grid, k: Kernel, n: nat, row: nat, col: nat, c: nat, ki: nat): seq<real>
    requires Rectangular(g) && row < |g| && col < Width(g) && c < 3
    requires IsKernel(k, n) && ki < n
  {
    seq(n, kj requires 0 <= kj < n => Sample(g, row, col, ki, kj, n / 2, c) as real * k[ki][kj])
  }

  /** The weighted sum of one channel in exact arithmetic. */
  function ExactSum(g: Grid, k: Kernel, n: nat, row: nat, col: nat, c: nat): real
    requires Rectangular(g) && row < |g| && col < Width(g) && c < 3
    requires IsKernel(k, n)
  {
    SumReal(ExactRowSums(g, k, n, row, col, c))
  }

  /** The exact sum of every kernel row, top to bottom. */
  function ExactRowSums(g: Grid, k: Kernel, n: nat, row: nat, col: nat, c: nat): (sums: seq<real>)
    requires Rectangular(g) && row < |g| && col < Width(g) && c < 3
    requires IsKernel(k, n)
    ensures |sums| == n
    ensures forall ki :: 0 <= ki < n ==> sums[ki] == SumReal(ExactRow(g, k, n, row, col, c, ki))
  {
    seq(n, ki requires 0 <= ki < n => SumReal(ExactRow(g, k, n, row, col, c, ki)))
  }

  /** The weighted sum truncated once, at the end. */
  function ExactPixel(g: Grid, k: Kernel, n: nat, row: nat, col: nat): (p: Pixel)
    requires Rectangular(g) && row < |g| && col < Width(g)
    requires IsKernel(k, n)
    ensures ValidPixel(p)
  {
    Pixel(Clamp(Trunc(ExactSum(g, k, n, row, col, 0))),
          Clamp(Trunc(ExactSum(g, k, n, row, col, 1))),
          Clamp(Trunc(ExactSum(g, k, n, row, col, 2))))
  }

  /** Kernel filtering that truncates the weighted sum instead of each product. */
  function FilterByKernelExact(g: Grid, k: Kernel, n: nat): (r: Grid)
    requires WellFormed(g) && IsKernel(k, n)
    ensures IsRect(r, |g|, Width(g))
    ensures WellFormed(r)
  {
    seq(|g|, i requires 0 <= i < |g| =>
      seq(Width(g), j requires 0 <= j < Width(g) => ExactPixel(g, k, n, i, j)))
  }

  /** The total of all weights of an n-by-n kernel. */
  function WeightSum(k: Kernel, n: nat): real
    requires IsKernel(k, n)
  {
    SumReal(RowWeights(k, n))
  }

  /** The total weight of every kernel row, top to bottom. */
  function RowWeights(k: Kernel, n: nat): (sums: seq<real>)
    requires IsKernel(k, n)
    ensures |sums| == n
    ensures forall ki :: 0 <= ki < n ==> sums[ki] == SumReal(k[ki])
  {
    seq(n, ki requires 0 <= ki < n => SumReal(k[ki]))
  }

  predicate Uniform(g: Grid, p: Pixel) {
    forall i, j :: 0 <= i < |g| && 0 <= j < |g[i]| ==> g[i][j] == p
  }

  /** On a uniform image every sample reads the same channel value. */
  lemma SampleUniform(g: Grid, p: Pixel, row: nat, col: nat, ki: nat, kj: nat, half: nat, c: nat)
    requires Rectangular(g) && Uniform(g, p)
    requires row < |g| && col < Width(g) && c < 3
    ensures Sample(g, row, col, ki, kj, half, c) == Channel(p, c)
  {
    var x := ClampIndex(row + ki - half, |g|);
    var y := ClampIndex(col + kj - half, Width(g));
    assert y < |g[x]|;
    assert g[x][y] == p;
  }

  /** On a uniform image every sample of a kernel row is the same value. */
  lemma ExactRowUniform(g: Grid, k: Kernel, n: nat, p: Pixel, row: nat, col: nat, c: nat, ki: nat)
    requires Rectangular(g) && IsKernel(k, n) && Uniform(g, p)
    requires row < |g| && col < Width(g) && c < 3 && ki < n
    ensures SumReal(ExactRow(g, k, n, row, col, c, ki)) == Channel(p, c) as real * SumReal(k[ki])
    ensures ExactRowSums(g, k, n, row, col, c)[ki] == Channel(p, c) as real * RowWeights(k, n)[ki]
  {
    var v := Channel(p, c) as real;
    var er := ExactRow(g, k, n, row, col, c, ki);
    forall kj | 0 <= kj < n
      ensures er[kj] == v * k[ki][kj]
    {
      SampleUniform(g, p, row, col, ki, kj, n / 2, c);
      assert er[kj] == Sample(g, row, col, ki, kj, n / 2, c) as real * k[ki][kj];
    }
    SumRealScale(k[ki], er, v);
  }

  /** On a uniform image the exact sum is the sample value times the total weight. */
  lemma ExactSumUniform(g: Grid, k: Kernel, n: nat, p: Pixel, row: nat, col: nat, c: nat)
    requires Rectangular(g) && IsKernel(k, n) && Uniform(g, p)
    requires row < |g| && col < Width(g) && c < 3
    ensures ExactSum(g, k, n, row, col, c) == Channel(p, c) as real * WeightSum(k, n)
  {
    var rows, weights := ExactRowSums(g, k, n, row, col, c), RowWeights(k, n);
    RowSumsUniform(g, k, n, p, row, col, c);
    SumRealScale(weights, rows, Channel(p, c) as real);
    calc {
      ExactSum(g, k, n, row, col, c);
      SumReal(rows);
      Channel(p, c) as real * SumReal(weights);
      Channel(p, c) as real * WeightSum(k, n);
    }
  }

  /** On a uniform image each kernel row's exact sum is the sample value times that row's weight. */
  lemma RowSumsUniform(g: Grid, k: Kernel, n: nat, p: Pixel, row: nat, col: nat, c: nat)
    requires Rectangular(g) && IsKernel(k, n) && Uniform(g, p)
    requires row < |g| && col < Width(g) && c < 3
    ensures forall ki :: 0 <= ki < n ==>
      ExactRowSums(g, k, n, row, col, c)[ki] == Channel(p, c) as real * RowWeights(k, n)[ki]
  {
    forall ki | 0 <= ki < n
      ensures ExactRowSums(g, k, n, row, col, c)[ki] == Channel(p, c) as real * RowWeights(k, n)[ki]
    {
      ExactRowUniform(g, k, n, p, row, col, c, ki);
    }
  }

  /**
   * With exact summation, a kernel whose weights add up to 1 leaves a
   * uniformly coloured image unchanged.
   */
  lemma ExactFilterKeepsUniform(g: Grid, k: Kernel, n: nat, p: Pixel)
    requires WellFormed(g) && IsKernel(k, n) && Uniform(g, p) && ValidPixel(p)
    requires WeightSum(k, n) == 1.0
    ensures FilterByKernelExact(g, k, n) == g
  {
    var r := FilterByKernelExact(g, k, n);
    forall i | 0 <= i < |g|
      ensures r[i] == g[i]
    {
      forall j | 0 <= j < Width(g)
        ensures r[i][j] == g[i][j]
      {
        ExactSumUniform(g, k, n, p, i, j, 0);
        ExactSumUniform(g, k, n, p, i, j, 1);
        ExactSumUniform(g, k, n, p, i, j, 2);
        assert g[i][j] == p;
      }
    }
  }

  lemma SumReal3(s: seq<real>)
    requires |s| == 3
    ensures SumReal(s) == s[0] + s[1] + s[2]
  {
    assert s[1..][1..] == s[2..];
    assert s[2..][1..] == [];
    assert SumReal(s[2..]) == s[2];
    assert SumReal(s[1..]) == s[1] + s[2];
  }

  lemma SumReal5(s: seq<real>)
    requires |s| == 5
    ensures SumReal(s) == s[0] + s[1] + s[2] + s[3] + s[4]
  {
    assert s[1..][1..] == s[2..];
    assert s[2..][1..] == s[3..];
    assert s[3..][1..] == s[4..];
    assert s[4..][1..] == [];
    assert SumReal(s[4..]) == s[4];
    assert SumReal(s[3..]) == s[3] + s[4];
    assert SumReal(s[2..]) == s[2] + s[3] + s[4];
    assert SumReal(s[1..]) == s[1] + s[2] + s[3] + s[4];
  }

  lemma Sum3(s: seq<int>)
    requires |s| == 3
    ensures Sum(s) == s[0] + s[1] + s[2]
  {
    assert s[1..][1..] == s[2..];
    assert s[2..][1..] == [];
    assert Sum(s[2..]) == s[2];
    assert Sum(s[1..]) == s[1] + s[2];
  }

  lemma BlurWeightsSumToOne()
    ensures IsKernel(BlurKernel, 3) && WeightSum(BlurKernel, 3) == 1.0
  {
    SumReal3(BlurKernel[0]);
    SumReal3(BlurKernel[1]);
    SumReal3(BlurKernel[2]);
    var rows := seq(3, ki requires 0 <= ki < 3 => SumReal(BlurKernel[ki]));
    assert rows == [0.25, 0.5, 0.25];
    SumReal3(rows);
  }

  lemma SharpenWeightsSumToOne()
    ensures IsKernel(SharpenKernel, 5) && WeightSum(SharpenKernel, 5) == 1.0
  {
    SumReal5(SharpenKernel[0]);
    SumReal5(SharpenKernel[1]);
    SumReal5(SharpenKernel[2]);
    SumReal5(SharpenKernel[3]);
    SumReal5(SharpenKernel[4]);
    var rows := seq(5, ki requires 0 <= ki < 5 => SumReal(SharpenKernel[ki]));
    assert rows == [-0.625, 0.5, 1.25, 0.5, -0.625];
    SumReal5(rows);
  }

  /** Blur and sharpen with exact summation leave a uniform image unchanged. */
  lemma ExactBlurAndSharpenKeepUniform(g: Grid, p: Pixel)
    requires WellFormed(g) && Uniform(g, p) && ValidPixel(p)
    ensures FilterByKernelExact(g, BlurKernel, 3) == g
    ensures FilterByKernelExact(g, SharpenKernel, 5) == g
  {
    BlurWeightsSumToOne();
    SharpenWeightsSumToOne();
    ExactFilterKeepsUniform(g, BlurKernel, 3, p);
    ExactFilterKeepsUniform(g, SharpenKernel, 5, p);
  }
}
