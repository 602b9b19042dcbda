/**
 * Per-pixel operations of the engine: the two flips, brighten, the value and
 * intensity greyscales, and the channel-wise combination of three images.
 */
module Pointwise {
  import opened Outcomes
  import opened JavaInt
  import opened PixelGrid

  /* ---------------------------------------------------------------- flips */

  /** One row read right to left. */
  function MirrorRow(row: seq<Pixel>): (r: seq<Pixel>)
    ensures |r| == |row|
    ensures forall j :: 0 <= j < |row| ==> r[|row| - 1 - j] == row[j]
  {
    seq(|row|, j requires 0 <= j < |row| => row[|row| - 1 - j])
  }

  /** Mirror left-right: the pixel at column j moves to column w-1-j. */
  function FlipHorizontal(g: Grid): (r: Grid)
    requires Rectangular(g)
    ensures IsRect(r, |g|, Width(g))
    ensures forall i, j :: 0 <= i < |g| && 0 <= j < Width(g) ==> r[i][Width(g) - 1 - j] == g[i][j]
  {
    seq(|g|, i requires 0 <= i < |g| => MirrorRow(g[i]))
  }

  /** Mirror top-bottom: the pixel at row i moves to row h-1-i. */
  function FlipVertical(g: Grid): (r: Grid)
    requires Rectangular(g)
    ensures IsRect(r, |g|, Width(g))
    ensures forall i, j :: 0 <= i < |g| && 0 <= j < Width(g) ==> r[|g| - 1 - i][j] == g[i][j]
  {
    seq(|g|, i requires 0 <= i < |g| => g[|g| - 1 - i])
  }

  lemma FlipHorizontalInvolution(g: Grid)
    requires Rectangular(g)
    ensures FlipHorizontal(FlipHorizontal(g)) == g
  {
    var f := FlipHorizontal(g);
    var ff := FlipHorizontal(f);
    assert Width(f) == Width(g);
    forall i | 0 <= i < |g|
      ensures ff[i] == g[i]
    {
      forall j | 0 <= j < Width(g)
        ensures ff[i][j] == g[i][j]
      {
        assert f[i][Width(g) - 1 - j] == g[i][j];
        assert ff[i][Width(g) - 1 - (Width(g) - 1 - j)] == f[i][Width(g) - 1 - j];
      }
    }
  }

  lemma FlipVerticalInvolution(g: Grid)
    requires Rectangular(g)
    ensures FlipVertical(FlipVertical(g)) == g
  {
    var f := FlipVertical(g);
    var ff := FlipVertical(f);
    assert Width(f) == Width(g);
    forall i | 0 <= i < |g|
      ensures ff[i] == g[i]
    {
      forall j | 0 <= j < Width(g)
        ensures ff[i][j] == g[i][j]
      {
        assert f[|g| - 1 - i][j] == g[i][j];
        assert ff[|g| - 1 - (|g| - 1 - i)][j] == f[|g| - 1 - i][j];
      }
    }
  }

  /** The two mirrors commute: both orders rotate the grid by 180 degrees. */
  lemma FlipsCommute(g: Grid)
    requires Rectangular(g)
    ensures FlipHorizontal(FlipVertical(g)) == FlipVertical(FlipHorizontal(g))
  {
    var v, h := FlipVertical(g), FlipHorizontal(g);
    var a, b := FlipHorizontal(v), FlipVertical(h);
    forall i | 0 <= i < |g|
      ensures a[i] == b[i]
    {
      forall j | 0 <= j < Width(g)
        ensures a[i][j] == b[i][j]
      {
        FlipHorizontalAt(v, i, j);
        FlipVerticalAt(g, i, Width(g) - 1 - j);
        FlipVerticalAt(h, i, j);
        FlipHorizontalAt(g, |g| - 1 - i, j);
      }
    }
  }

  /** Entry (i, j) of a horizontal flip, read forwards. */
  lemma FlipHorizontalAt(g: Grid, i: nat, j: nat)
    requires Rectangular(g) && i < |g| && j < Width(g)
    ensures FlipHorizontal(g)[i][j] == g[i][Width(g) - 1 - j]
  {
    assert FlipHorizontal(g)[i][Width(g) - 1 - (Width(g) - 1 - j)] == g[i][Width(g) - 1 - j];
  }

  /** Entry (i, j) of a vertical flip, read forwards. */
  lemma FlipVerticalAt(g: Grid, i: nat, j: nat)
    requires Rectangular(g) && i < |g| && j < Width(g)
    ensures FlipVertical(g)[i][j] == g[|g| - 1 - i][j]
  {
    assert FlipVertical(g)[|g| - 1 - (|g| - 1 - i)][j] == g[|g| - 1 - i][j];
  }

  /* ------------------------------------------------------------- brighten */

  /** One channel of `brighten`: the Java sum `v + increment`, then saturation. */
  function BrightenChannel(v: int, increment: Int32): (r: int)
    ensures InRange(r)
    ensures IntMin <= v + increment <= IntMax ==> r == Clamp(v + increment)
  {
    Clamp(Wrap(v + increment))
  }

  /** One pixel of `brighten`. */
  function BrightenPixel(p: Pixel, increment: Int32): Pixel {
    Pixel(BrightenChannel(p.r, increment), BrightenChannel(p.g, increment), BrightenChannel(p.b, increment))
  }

  /** `brighten`: add `increment` to every channel and saturate to [0,255]. */
  function Brighten(g: Grid, increment: Int32): (r: Grid)
    requires WellFormed(g)
    ensures IsRect(r, |g|, Width(g))
    ensures WellFormed(r)
    ensures forall i, j, c :: 0 <= i < |g| && 0 <= j < Width(g) && 0 <= c < 3 ==>
      Channel(r[i][j], c) == BrightenChannel(Channel(g[i][j], c), increment)
  {
    MapPixels(g, (p: Pixel) => BrightenPixel(p, increment))
  }

  /** Brightening by 0 leaves a well-formed grid unchanged. */
  lemma BrightenZero(g: Grid)
    requires WellFormed(g)
    ensures Brighten(g, 0) == g
  {
    var r := Brighten(g, 0);
    forall i | 0 <= i < |g|
      ensures r[i] == g[i]
    {
      forall j | 0 <= j < Width(g)
        ensures r[i][j] == g[i][j]
      {
        assert Channel(r[i][j], 0) == Channel(g[i][j], 0);
        assert Channel(r[i][j], 1) == Channel(g[i][j], 1);
        assert Channel(r[i][j], 2) == Channel(g[i][j], 2);
      }
    }
  }

  /**
   * Two non-negative brightenings add up, as long as the total does not
   * overflow: saturation at 255 absorbs whatever the first step cut off.
   */
  lemma BrightenCompose(g: Grid, a: Int32, b: Int32)
    requires WellFormed(g)
    requires 0 <= a && 0 <= b && a + b <= IntMax - 255
    ensures Brighten(Brighten(g, a), b) == Brighten(g, a + b)
  {
    var once := Brighten(g, a);
    var twice := Brighten(once, b);
    var direct := Brighten(g, a + b);
    forall i | 0 <= i < |g|
      ensures twice[i] == direct[i]
    {
      forall j | 0 <= j < Width(g)
        ensures twice[i][j] == direct[i][j]
      {
        assert ValidPixel(g[i][j]);
        BrightenPixelCompose(g[i][j], a, b);
      }
    }
  }

  /** `BrightenCompose` for one pixel. */
  lemma BrightenPixelCompose(p: Pixel, a: Int32, b: Int32)
    requires ValidPixel(p)
    requires 0 <= a && 0 <= b && a + b <= IntMax - 255
    ensures BrightenPixel(BrightenPixel(p, a), b) == BrightenPixel(p, a + b)
  {
  }

  /**
   * `brighten` as written: a very large increment wraps the int sum around to
   * a negative value, so a brightening darkens the pixel to black.
   */
  lemma BrightenOverflowDarkens()
    ensures Brighten([[Pixel(1, 1, 1)]], IntMax) == [[Pixel(0, 0, 0)]]
  {
    var g := [[Pixel(1, 1, 1)]];
    var r := Brighten(g, IntMax);
    assert Width(g) == 1;
    assert Wrap(1 + IntMax) == IntMin;
    assert BrightenChannel(1, IntMax) == 0;
    assert Channel(r[0][0], 0) == 0 && Channel(r[0][0], 1) == 0 && Channel(r[0][0], 2) == 0;
    assert r[0][0] == Pixel(0, 0, 0);
    assert r[0] == [Pixel(0, 0, 0)];
  }

  /** `brighten` with the sum taken without wrap-around. */
  function BrightenSaturating(g: Grid, increment: int): (r: Grid)
    requires WellFormed(g)
    ensures IsRect(r, |g|, Width(g))
    ensures WellFormed(r)
  {
    MapPixels(g, (p: Pixel) => Pixel(Clamp(p.r + increment), Clamp(p.g + increment), Clamp(p.b + increment)))
  }

  /** Whenever no channel sum can overflow, `brighten` as written is the saturating brighten. */
  lemma BrightenAgreesWithoutOverflow(g: Grid, increment: Int32)
    requires WellFormed(g) && increment <= IntMax - 255
    ensures Brighten(g, increment) == BrightenSaturating(g, increment)
  {
    var r := Brighten(g, increment);
    var s := BrightenSaturating(g, increment);
    forall i | 0 <= i < |g|
      ensures r[i] == s[i]
    {
      forall j | 0 <= j < Width(g)
        ensures r[i][j] == s[i][j]
      {
        assert Channel(r[i][j], 0) == Channel(s[i][j], 0);
        assert Channel(r[i][j], 1) == Channel(s[i][j], 1);
        assert Channel(r[i][j], 2) == Channel(s[i][j], 2);
      }
    }
  }

  /**
   * The saturating brighten moves every channel in the direction of the
   * increment and never past the bound it saturates at.
   */
  lemma BrightenSaturatingMonotone(g: Grid, increment: int)
    requires WellFormed(g)
    ensures forall i, j, c :: 0 <= i < |g| && 0 <= j < Width(g) && 0 <= c < 3 ==>
      var before := Channel(g[i][j], c);
      var after := Channel(BrightenSaturating(g, increment)[i][j], c);
      (increment >= 0 ==> before <= after) && (increment <= 0 ==> after <= before)
  {
    var r := BrightenSaturating(g, increment);
    forall i, j, c | 0 <= i < |g| && 0 <= j < Width(g) && 0 <= c < 3
      ensures var before := Channel(g[i][j], c);
        var after := Channel(r[i][j], c);
        (increment >= 0 ==> before <= after) && (increment <= 0 ==> after <= before)
    {
      assert r[i][j] == Pixel(Clamp(g[i][j].r + increment), Clamp(g[i][j].g + increment), Clamp(g[i][j].b + increment));
      assert ValidPixel(g[i][j]);
    }
  }

  /* ---------------------------------------------------- value / intensity */

  function Max(a: int, b: int): int {
    if a >= b then a else b
  }

  /** `value` of one pixel: the largest channel, replicated into all three. */
  function ValuePixel(p: Pixel): (q: Pixel)
    ensures IsGrey(q)
    ensures q.r >= p.r && q.r >= p.g && q.r >= p.b
    ensures q.r == p.r || q.r == p.g || q.r == p.b
  {
    Grey(Max(p.r, Max(p.g, p.b)))
  }

  /** `intensity` of one pixel: the channel mean truncated, replicated into all three. */
  function IntensityPixel(p: Pixel): (q: Pixel)
    ensures IsGrey(q)
    ensures ValidPixel(p) ==> ValidPixel(q) && 3 * q.r <= p.r + p.g + p.b < 3 * q.r + 3
  {
    Grey(Div(p.r + p.g + p.b, 3))
  }

  function Value(g: Grid): (r: Grid)
    requires WellFormed(g)
    ensures IsRect(r, |g|, Width(g)) && WellFormed(r)
    ensures forall i, j :: 0 <= i < |g| && 0 <= j < Width(g) ==> r[i][j] == ValuePixel(g[i][j])
  {
    MapPixels(g, ValuePixel)
  }

  function Intensity(g: Grid): (r: Grid)
    requires WellFormed(g)
    ensures IsRect(r, |g|, Width(g)) && WellFormed(r)
    ensures forall i, j :: 0 <= i < |g| && 0 <= j < Width(g) ==> r[i][j] == IntensityPixel(g[i][j])
  {
    MapPixels(g, IntensityPixel)
  }

  /** Both greyscales leave a grey pixel as it is, and the mean never exceeds the maximum. */
  lemma GreyscalesAgreeOnGrey(p: Pixel)
    requires ValidPixel(p)
    ensures IsGrey(p) ==> ValuePixel(p) == p && IntensityPixel(p) == p
    ensures IntensityPixel(p).r <= ValuePixel(p).r
  {
  }

  /* ------------------------------------------------------------- combine */

  /**
   * `combineImage`: red from `red`, green from `green`, blue from `blue`,
   * over the rectangle of `red`; the other two must cover that rectangle.
   */
  function Combine(red: Grid, green: Grid, blue: Grid): (r: Result<Grid>)
    requires Rectangular(red)
    ensures r.Ok? <==> Covers(green, |red|, Width(red)) && Covers(blue, |red|, Width(red))
    ensures r.Err? ==> r.error == DimensionMismatch
    ensures r.Ok? ==> IsRect(r.value, |red|, Width(red))
    ensures r.Ok? ==> forall i, j :: 0 <= i < |red| && 0 <= j < Width(red) ==>
      r.value[i][j].r == red[i][j].r && r.value[i][j].g == green[i][j].g && r.value[i][j].b == blue[i][j].b
  {
    if !Covers(green, |red|, Width(red)) || !Covers(blue, |red|, Width(red)) then
      Err(DimensionMismatch)
    else
      Ok(seq(|red|, i requires 0 <= i < |red| =>
        seq(Width(red), j requires 0 <= j < Width(red) => Pixel(red[i][j].r, green[i][j].g, blue[i][j].b))))
  }

  /** Combining an image with itself gives the image back. */
  lemma CombineSelf(x: Grid)
    requires Rectangular(x)
    ensures Combine(x, x, x) == Ok(x)
  {
    assert Covers(x, |x|, Width(x));
    var r := Combine(x, x, x);
    assert r.Ok?;
    assert |r.value| == |x|;
    forall i | 0 <= i < |x|
      ensures r.value[i] == x[i]
    {
      forall j | 0 <= j < Width(x)
        ensures r.value[i][j] == x[i][j]
      {
        var p := x[i][j];
        assert r.value[i][j] == Pixel(p.r, p.g, p.b);
      }
    }
    assert r.value == x;
  }
}
