/**
 * Haar-wavelet compression (`compressImage` and its private helpers): pad
 * the image to power-of-two sides, transform each channel in 2D, zero the
 * small coefficients, transform back, and crop and clamp to the original
 * size.
 */
module Compression {
  import opened Outcomes
  import opened PixelGrid
  import opened RootTwo
  import opened Haar

  /* ------------------------------------------------------ padding size */

  /** Doubling `p` until it reaches `n`. */
  function PowerAtLeast(n: int, p: nat): (r: nat)
    requires IsPow2(p) && (p == 1 || p / 2 < n)
    ensures IsPow2(r) && r >= n && r >= p
    ensures r == 1 || r / 2 < n
    decreases if n > p then n - p else 0
  {
    if p >= n then p else PowerAtLeast(n, 2 * p)
  }

  /**
   * `nextPowerOfTwo`: the smallest power of two that is at least `n`, and 1
   * for `n <= 1`.  (The source computes it as `2^ceil(log n / log 2)` in
   * floating point; this is the value that expression denotes.)
   */
  function NextPow2(n: int): (r: nat)
    ensures IsPow2(r) && r >= n
    ensures r == 1 || r / 2 < n
    ensures n <= 1 ==> r == 1
  {
    PowerAtLeast(n, 1)
  }

  /** No power of two at least `n` is smaller than `NextPow2(n)`. */
  lemma NextPow2Least(n: int, p: int)
    requires IsPow2(p) && p >= n
    ensures NextPow2(n) <= p
  {
    var r := NextPow2(n);
    if p < r {
      Pow2Gap(p, r);
      assert false;
    }
  }

  /** A power of two is its own padding size. */
  lemma NextPow2OfPow2(n: int)
    requires IsPow2(n)
    ensures NextPow2(n) == n
  {
    NextPow2Least(n, n);
  }

  /* ------------------------------------------------- channel matrices */

  /**
   * `getChannelData(c, resized)` where `resized` is a `w x h` image into
   * which `g` was copied: channel `c` of `g` as exact values, zero outside
   * `g` (a new image starts black).
   */
  function PaddedChannel(g: Grid, c: nat, h: nat, w: nat): (m: Matrix)
    requires Rectangular(g) && c < 3 && |g| <= h && Width(g) <= w
    ensures RowsOfWidth(m, w) && |m| == h
    ensures forall i, j :: 0 <= i < |g| && 0 <= j < Width(g) ==> m[i][j] == Of(Channel(g[i][j], c) as real)
    ensures forall i, j :: 0 <= i < h && 0 <= j < w && (i >= |g| || j >= Width(g)) ==> m[i][j] == Of(0.0)
  {
    seq(h, i requires 0 <= i < h => seq(w, j requires 0 <= j < w =>
      if i < |g| && j < Width(g) then Of(Channel(g[i][j], c) as real) else Of(0.0)))
  }

  /**
   * `applyThreshold(channel, t)`: every coefficient whose magnitude is
   * below `t` becomes 0; the others are kept.
   */
  function Threshold(m: Matrix, w: nat, t: real): (r: Matrix)
    requires RowsOfWidth(m, w)
    ensures RowsOfWidth(r, w) && |r| == |m|
    ensures forall i, j :: 0 <= i < |m| && 0 <= j < w && AbsBelow(m[i][j], t) ==> r[i][j] == Of(0.0)
    ensures forall i, j :: 0 <= i < |m| && 0 <= j < w && !AbsBelow(m[i][j], t) ==> r[i][j] == m[i][j]
  {
    seq(|m|, i requires 0 <= i < |m| => seq(w, j requires 0 <= j < w =>
      if AbsBelow(m[i][j], t) then Of(0.0) else m[i][j]))
  }

  /** A threshold of 0 (or less) zeroes nothing. */
  lemma ThresholdNonPositive(m: Matrix, w: nat, t: real)
    requires RowsOfWidth(m, w) && t <= 0.0
    ensures Threshold(m, w, t) == m
  {
    var r := Threshold(m, w, t);
    forall i | 0 <= i < |m|
      ensures r[i] == m[i]
    {
      forall j | 0 <= j < w
        ensures r[i][j] == m[i][j]
      {
        NotAbsBelowNonPositive(m[i][j], t);
      }
    }
  }

  /**
   * Thresholding at `t1` and then at a higher `t2` is thresholding at `t2`:
   * every coefficient zeroed at `t1` is zeroed at `t2`.
   */
  lemma ThresholdCompose(m: Matrix, w: nat, t1: real, t2: real)
    requires RowsOfWidth(m, w) && t1 <= t2
    ensures Threshold(Threshold(m, w, t1), w, t2) == Threshold(m, w, t2)
  {
    var a := Threshold(Threshold(m, w, t1), w, t2);
    var b := Threshold(m, w, t2);
    forall i | 0 <= i < |m|
      ensures a[i] == b[i]
    {
      forall j | 0 <= j < w
        ensures a[i][j] == b[i][j]
      {
        if AbsBelow(m[i][j], t1) {
          AbsBelowMonotone(m[i][j], t1, t2);
        }
      }
    }
  }

  /** Thresholding twice at the same level is thresholding once. */
  lemma ThresholdIdempotent(m: Matrix, w: nat, t: real)
    requires RowsOfWidth(m, w)
    ensures Threshold(Threshold(m, w, t), w, t) == Threshold(m, w, t)
  {
    ThresholdCompose(m, w, t, t);
  }

  /* ------------------------------------------------------ decompression */

  /**
   * The pixel loop of `decompressImage`: the top-left `h x w` block of the
   * three reconstructed channels, each value clamped to [0,255] and
   * truncated.
   */
  function Reconstruct(red: Matrix, green: Matrix, blue: Matrix, pw: nat, h: nat, w: nat): (g: Grid)
    requires RowsOfWidth(red, pw) && RowsOfWidth(green, pw) && RowsOfWidth(blue, pw)
    requires h <= |red| && h <= |green| && h <= |blue| && w <= pw
    ensures IsRect(g, h, w) && WellFormed(g)
    ensures forall i, j :: 0 <= i < h && 0 <= j < w ==>
      g[i][j] == Pixel(ToChannel(red[i][j]), ToChannel(green[i][j]), ToChannel(blue[i][j]))
  {
    seq(h, i requires 0 <= i < h => seq(w, j requires 0 <= j < w =>
      Pixel(ToChannel(red[i][j]), ToChannel(green[i][j]), ToChannel(blue[i][j]))))
  }

  /** Reconstructing exact integer channels of a well-formed image gives the image. */
  lemma ReconstructPadded(g: Grid, h: nat, w: nat)
    requires WellFormed(g) && |g| <= h && Width(g) <= w
    ensures Reconstruct(PaddedChannel(g, 0, h, w), PaddedChannel(g, 1, h, w), PaddedChannel(g, 2, h, w), w, |g|, Width(g)) == g
  {
    var r := Reconstruct(PaddedChannel(g, 0, h, w), PaddedChannel(g, 1, h, w), PaddedChannel(g, 2, h, w), w, |g|, Width(g));
    forall i | 0 <= i < |g|
      ensures r[i] == g[i]
    {
      forall j | 0 <= j < Width(g)
        ensures r[i][j] == g[i][j]
      {
        var p := g[i][j];
        ToChannelOfInt(p.r);
        ToChannelOfInt(p.g);
        ToChannelOfInt(p.b);
      }
    }
  }

  /**
   * `decompressImage` on three transformed channels of padded width `pw`:
   * the 2D inverse of each, then `Reconstruct`.  The 2D inverse fails on
   * channels taller than wide.
   */
  function Decompress(red: Matrix, green: Matrix, blue: Matrix, pw: nat, h: nat, w: nat): (r: Result<Grid>)
    requires RowsOfWidth(red, pw) && RowsOfWidth(green, pw) && RowsOfWidth(blue, pw)
    requires |red| == |green| == |blue| && h <= |red| && w <= pw
    ensures r.Err? <==> |red| > pw
    ensures r.Err? ==> r.error == IndexOutOfRange
    ensures r.Ok? ==> r.value == Reconstruct(Inverse2D(red, pw).value, Inverse2D(green, pw).value, Inverse2D(blue, pw).value, pw, h, w)
  {
    var ir := Inverse2D(red, pw);
    var ig := Inverse2D(green, pw);
    var ib := Inverse2D(blue, pw);
    if ir.Err? || ig.Err? || ib.Err? then Err(IndexOutOfRange)
    else Ok(Reconstruct(ir.value, ig.value, ib.value, pw, h, w))
  }

  /* -------------------------------------------------------- compression */

  predicate ValidPercentage(percentage: int) {
    0 <= percentage <= 100
  }

  /** The transform-and-threshold step of one channel. */
  function TransformChannel(g: Grid, c: nat, percentage: int): (r: Result<Matrix>)
    requires Rectangular(g) && c < 3
    ensures r.Err? <==> NextPow2(|g|) > NextPow2(Width(g))
    ensures r.Err? ==> r.error == IndexOutOfRange
    ensures r.Ok? ==> RowsOfWidth(r.value, NextPow2(Width(g))) && |r.value| == NextPow2(|g|)
    ensures r.Ok? ==> r.value == Threshold(Forward2D(PaddedChannel(g, c, NextPow2(|g|), NextPow2(Width(g))), NextPow2(Width(g))).value, NextPow2(Width(g)), percentage as real)
  {
    var h, w := NextPow2(|g|), NextPow2(Width(g));
    Pow2Parity(h);
    Pow2Parity(w);
    var f := Forward2D(PaddedChannel(g, c, h, w), w);
    if f.Err? then Err(f.error) else Ok(Threshold(f.value, w, percentage as real))
  }

  /**
   * `compressImage` as written: reject a percentage outside [0,100], then
   * transform, threshold and decompress each channel.  Because the 2D
   * transform bounds its column loop by the row count, an image whose
   * padded height exceeds its padded width fails.
   */
  function Compress(g: Grid, percentage: int): (r: Result<Grid>)
    requires WellFormed(g)
    ensures r.Err? <==> !ValidPercentage(percentage) || NextPow2(|g|) > NextPow2(Width(g))
    ensures !ValidPercentage(percentage) ==> r == Err(InvalidRange)
    ensures ValidPercentage(percentage) && r.Err? ==> r.error == IndexOutOfRange
    ensures r.Ok? ==> IsRect(r.value, |g|, Width(g)) && WellFormed(r.value)
  {
    if !ValidPercentage(percentage) then Err(InvalidRange)
    else
      var red := TransformChannel(g, 0, percentage);
      var green := TransformChannel(g, 1, percentage);
      var blue := TransformChannel(g, 2, percentage);
      if red.Err? || green.Err? || blue.Err? then Err(IndexOutOfRange)
      else Decompress(red.value, green.value, blue.value, NextPow2(Width(g)), |g|, Width(g))
  }

  /** As written, compressing at 0% gives the image back whenever the padded image is not taller than wide. */
  lemma CompressZeroIsLossless(g: Grid)
    requires WellFormed(g) && NextPow2(|g|) <= NextPow2(Width(g))
    ensures Compress(g, 0) == Ok(g)
  {
    var h, w := NextPow2(|g|), NextPow2(Width(g));
    forall c | 0 <= c < 3
      ensures TransformChannel(g, c, 0).Ok?
      ensures Inverse2D(TransformChannel(g, c, 0).value, w) == Ok(PaddedChannel(g, c, h, w))
    {
      var m := PaddedChannel(g, c, h, w);
      Inverse2DForward2D(m, w);
      ThresholdNonPositive(Forward2D(m, w).value, w, 0.0);
    }
    ReconstructPadded(g, h, w);
  }

  /** As written, a two-row, one-column image cannot be compressed at any valid percentage. */
  lemma CompressTallFails(top: Pixel, bottom: Pixel, percentage: int)
    requires ValidPixel(top) && ValidPixel(bottom) && ValidPercentage(percentage)
    ensures Compress([[top], [bottom]], percentage) == Err(IndexOutOfRange)
  {
    var g := [[top], [bottom]];
    assert Width(g) == 1;
    assert NextPow2(2) == 2 && NextPow2(1) == 1;
  }

  /** The corrected transform-and-threshold step: every column is transformed. */
  function TransformChannelFull(g: Grid, c: nat, percentage: int): (m: Matrix)
    requires Rectangular(g) && c < 3
    ensures RowsOfWidth(m, NextPow2(Width(g))) && |m| == NextPow2(|g|)
    ensures Forward2DFull(PaddedChannel(g, c, NextPow2(|g|), NextPow2(Width(g))), NextPow2(Width(g))).Ok?
    ensures m == Threshold(Forward2DFull(PaddedChannel(g, c, NextPow2(|g|), NextPow2(Width(g))), NextPow2(Width(g))).value, NextPow2(Width(g)), percentage as real)
  {
    var h, w := NextPow2(|g|), NextPow2(Width(g));
    Pow2Parity(h);
    Pow2Parity(w);
    Threshold(Forward2DFull(PaddedChannel(g, c, h, w), w).value, w, percentage as real)
  }

  /**
   * The evident intent of `compressImage`: the same steps with the 2D
   * transforms covering every column; only the percentage can be rejected.
   */
  function CompressFull(g: Grid, percentage: int): (r: Result<Grid>)
    requires WellFormed(g)
    ensures r.Err? <==> !ValidPercentage(percentage)
    ensures r.Err? ==> r.error == InvalidRange
    ensures r.Ok? ==> IsRect(r.value, |g|, Width(g)) && WellFormed(r.value)
  {
    if !ValidPercentage(percentage) then Err(InvalidRange)
    else
      var w := NextPow2(Width(g));
      Ok(Reconstruct(
        Inverse2DFull(TransformChannelFull(g, 0, percentage), w),
        Inverse2DFull(TransformChannelFull(g, 1, percentage), w),
        Inverse2DFull(TransformChannelFull(g, 2, percentage), w),
        w, |g|, Width(g)))
  }

  /** The corrected compression at 0% gives every well-formed image back. */
  lemma CompressFullZeroIsLossless(g: Grid)
    requires WellFormed(g)
    ensures CompressFull(g, 0) == Ok(g)
  {
    var h, w := NextPow2(|g|), NextPow2(Width(g));
    forall c | 0 <= c < 3
      ensures Inverse2DFull(TransformChannelFull(g, c, 0), w) == PaddedChannel(g, c, h, w)
    {
      var m := PaddedChannel(g, c, h, w);
      Inverse2DFullForward2DFull(m, w);
      ThresholdNonPositive(Forward2DFull(m, w).value, w, 0.0);
    }
    ReconstructPadded(g, h, w);
  }

  /** Where the as-written compression succeeds, it agrees with the corrected one. */
  lemma CompressAgreesWhenWide(g: Grid, percentage: int)
    requires WellFormed(g) && NextPow2(|g|) == NextPow2(Width(g))
    ensures Compress(g, percentage) == CompressFull(g, percentage)
  {
    if ValidPercentage(percentage) {
      var w := NextPow2(Width(g));
      forall c | 0 <= c < 3
        ensures TransformChannel(g, c, percentage) == Ok(TransformChannelFull(g, c, percentage))
      {
      }
    }
  }
}
