/**
 * Levels adjustment: a piecewise-linear curve through (black, 0),
 * (mid, 128) and (white, 255), applied to every channel.  Values below
 * black become 0 and values above white become 255.
 *
 * The curve is evaluated over exact reals; the source evaluates it in IEEE
 * doubles before truncating to int.
 */
module Levels {
  import opened Outcomes
  import opened JavaInt
  import opened PixelGrid

  /** The three points the source accepts: each in [0,255], black <= mid <= white. */
  predicate ValidLevels(black: int, mid: int, white: int) {
    InRange(black) && InRange(mid) && InRange(white) && black <= mid <= white
  }

  /**
   * The argument checks of `adjustLevels`, in order: black, mid and white
   * must each lie in [0,255]; then black <= mid; then mid <= white.
   */
  function CheckLevels(black: int, mid: int, white: int): (e: Option<Error>)
    ensures e.None? <==> ValidLevels(black, mid, white)
    ensures e == Some(InvalidRange) <==> !(InRange(black) && InRange(mid) && InRange(white))
    ensures e == Some(InvalidLevelOrder) <==> InRange(black) && InRange(mid) && InRange(white) && !(black <= mid <= white)
  {
    if !InRange(black) then Some(InvalidRange)
    else if !InRange(mid) then Some(InvalidRange)
    else if !InRange(white) then Some(InvalidRange)
    else if black > mid then Some(InvalidLevelOrder)
    else if mid > white then Some(InvalidLevelOrder)
    else None
  }

  /** `d * ((double) top / span)`: a distance `d` along a segment of length `span` mapped onto [0, top]. */
  function Rescale(d: int, span: int, top: int): (x: real)
    requires span > 0
    ensures 0 <= d <= span && top >= 0 ==> 0.0 <= x <= top as real
    ensures d == span ==> x == top as real
    ensures d == 0 ==> x == 0.0
  {
    var k := top as real / span as real;
    assert k * span as real == top as real;
    assert 0 <= d <= span && top >= 0 ==> d as real * k <= span as real * k by {
      if 0 <= d <= span && top >= 0 {
        assert (span - d) as real * k >= 0.0;
      }
    }
    d as real * k
  }

  lemma RescaleMonotone(d1: int, d2: int, span: int, top: int)
    requires span > 0 && top >= 0 && d1 <= d2
    ensures Rescale(d1, span, top) <= Rescale(d2, span, top)
  {
    var k := top as real / span as real;
    assert (d2 - d1) as real * k >= 0.0;
  }

  /** `(int) x` for a non-negative `x` never decreases as `x` grows. */
  lemma TruncMonotone(x: real, y: real)
    requires 0.0 <= x <= y
    ensures Trunc(x) <= Trunc(y)
  {
  }

  /**
   * `adjustValue`: one channel value through the curve.  With black == mid
   * the lower segment multiplies 0 by an infinite slope; the resulting NaN
   * truncates to 0.  With mid == white the upper segment is never reached.
   */
  function AdjustValue(v: int, black: int, mid: int, white: int): (r: int)
    ensures InRange(r)
    ensures v < black ==> r == 0
    ensures black <= v && v > white ==> r == 255
    ensures ValidLevels(black, mid, white) && v == black ==> r == 0
    ensures black < mid && v == mid && mid <= white ==> r == 128
    ensures mid < white && v == white && black <= white ==> r == 255
  {
    if v < black then 0
    else if v > white then 255
    else if v <= mid then
      (if mid == black then 0 else Trunc(Rescale(v - black, mid - black, 128)))
    else
      assert 0.0 < Rescale(v - mid, white - mid, 127) <= 127.0;
      Trunc(128.0 + Rescale(v - mid, white - mid, 127))
  }

  /** Under a valid curve, a brighter input never gives a darker output. */
  lemma AdjustValueMonotone(v1: int, v2: int, black: int, mid: int, white: int)
    requires ValidLevels(black, mid, white) && v1 <= v2
    ensures AdjustValue(v1, black, mid, white) <= AdjustValue(v2, black, mid, white)
  {
    if black <= v1 && v2 <= mid && mid > black {
      RescaleMonotone(v1 - black, v2 - black, mid - black, 128);
      TruncMonotone(Rescale(v1 - black, mid - black, 128), Rescale(v2 - black, mid - black, 128));
    } else if mid < v1 && v2 <= white {
      RescaleMonotone(v1 - mid, v2 - mid, white - mid, 127);
      TruncMonotone(128.0 + Rescale(v1 - mid, white - mid, 127), 128.0 + Rescale(v2 - mid, white - mid, 127));
    } else if black <= v1 <= mid && mid < v2 <= white {
      if mid > black {
        assert Rescale(v1 - black, mid - black, 128) <= 128.0;
        TruncMonotone(Rescale(v1 - black, mid - black, 128), 128.0);
      }
      assert 128.0 <= 128.0 + Rescale(v2 - mid, white - mid, 127);
      TruncMonotone(128.0, 128.0 + Rescale(v2 - mid, white - mid, 127));
    }
  }

  /** The default curve (0, 128, 255) is the identity on channel values. */
  lemma DefaultLevelsKeepValue(v: int)
    requires InRange(v)
    ensures AdjustValue(v, 0, 128, 255) == v
  {
    if v <= 128 {
      assert Rescale(v, 128, 128) == v as real;
    } else {
      assert Rescale(v - 128, 127, 127) == (v - 128) as real;
    }
  }

  function AdjustPixel(p: Pixel, black: int, mid: int, white: int): (q: Pixel)
    ensures ValidPixel(q)
  {
    Pixel(AdjustValue(p.r, black, mid, white), AdjustValue(p.g, black, mid, white), AdjustValue(p.b, black, mid, white))
  }

  /**
   * `adjustLevels`: the level checks, then the curve applied to every
   * channel of every pixel.
   */
  function AdjustLevels(g: Grid, black: int, mid: int, white: int): (r: Result<Grid>)
    requires Rectangular(g)
    ensures r.Ok? <==> ValidLevels(black, mid, white)
    ensures r.Err? ==> Some(r.error) == CheckLevels(black, mid, white)
    ensures r.Ok? ==> IsRect(r.value, |g|, Width(g)) && WellFormed(r.value)
    ensures r.Ok? ==> forall i, j :: 0 <= i < |g| && 0 <= j < Width(g) ==>
      r.value[i][j] == AdjustPixel(g[i][j], black, mid, white)
  {
    match CheckLevels(black, mid, white)
    case Some(e) => Err(e)
    case None => Ok(MapPixels(g, (p: Pixel) => AdjustPixel(p, black, mid, white)))
  }

  /** Levels (0, 128, 255) leave a well-formed image unchanged. */
  lemma DefaultLevelsAreIdentity(g: Grid)
    requires WellFormed(g)
    ensures AdjustLevels(g, 0, 128, 255) == Ok(g)
  {
    assert ValidLevels(0, 128, 255);
    var r := AdjustLevels(g, 0, 128, 255).value;
    forall i | 0 <= i < |g|
      ensures r[i] == g[i]
    {
      forall j | 0 <= j < Width(g)
        ensures r[i][j] == g[i][j]
      {
        var p := g[i][j];
        assert r[i][j] == AdjustPixel(p, 0, 128, 255);
        DefaultLevelsKeepValue(p.r);
        DefaultLevelsKeepValue(p.g);
        DefaultLevelsKeepValue(p.b);
        assert AdjustPixel(p, 0, 128, 255) == p;
      }
      assert |r[i]| == |g[i]|;
    }
    assert |r| == |g|;
    assert r == g;
  }

  /**
   * With mid == white the top of the range maps to 128, not 255: the lower
   * segment already covers it.
   */
  lemma MidEqualsWhiteCapsAtMid()
    ensures AdjustValue(200, 100, 200, 200) == 128
    ensures AdjustValue(201, 100, 200, 200) == 255
  {
  }
}
