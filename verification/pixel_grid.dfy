/**
 * The pixel grid every engine operation consumes and produces: `height` rows
 * of `width` pixels, each pixel three channel intensities (red, green, blue).
 * Row `i`, column `j` is `g[i][j]`, as in `Image.getPixel(row, col)`.
 */
module PixelGrid {

  datatype Pixel = Pixel(r: int, g: int, b: int)

  type Grid = seq<seq<Pixel>>

  /** Channel `c` of a pixel: 0 is red, 1 is green, 2 is blue (`getPixel(..)[c]`). */
  function Channel(p: Pixel, c: nat): int
    requires c < 3
  {
    if c == 0 then p.r else if c == 1 then p.g else p.b
  }

  predicate InRange(v: int) {
    0 <= v <= 255
  }

  predicate ValidPixel(p: Pixel) {
    InRange(p.r) && InRange(p.g) && InRange(p.b)
  }

  /** A pixel whose three channels are equal: a shade of grey. */
  function Grey(v: int): Pixel {
    Pixel(v, v, v)
  }

  predicate IsGrey(p: Pixel) {
    p.r == p.g == p.b
  }

  /** The width of a grid; a grid without rows has width 0. */
  function Width(g: Grid): nat {
    if |g| == 0 then 0 else |g[0]|
  }

  /** `g` has exactly `h` rows of exactly `w` pixels. */
  predicate IsRect(g: Grid, h: nat, w: nat) {
    |g| == h && forall i :: 0 <= i < h ==> |g[i]| == w
  }

  predicate Rectangular(g: Grid) {
    IsRect(g, |g|, Width(g))
  }

  /** The invariant of an image: rectangular, every channel in [0,255]. */
  predicate WellFormed(g: Grid) {
    Rectangular(g) &&
    forall i, j :: 0 <= i < |g| && 0 <= j < |g[i]| ==> ValidPixel(g[i][j])
  }

  /**
   * Reading rows [0,h) and columns [0,w) of `g` stays inside `g` (nothing is
   * read when either range is empty).
   */
  predicate Covers(g: Grid, h: nat, w: nat) {
    h == 0 || w == 0 || (|g| >= h && forall i :: 0 <= i < h ==> |g[i]| >= w)
  }

  /** `Math.min(255, Math.max(0, v))`: saturate a channel value to [0,255]. */
  function Clamp(v: int): (r: int)
    ensures InRange(r)
    ensures InRange(v) ==> r == v
    ensures v < 0 ==> r == 0
    ensures v > 255 ==> r == 255
  {
    if v < 0 then 0 else if v > 255 then 255 else v
  }

  /** The grid of the same shape whose pixel at (i, j) is `f(g[i][j])`. */
  function MapPixels(g: Grid, f: Pixel -> Pixel): (r: Grid)
    requires Rectangular(g)
    ensures IsRect(r, |g|, Width(g))
    ensures forall i, j :: 0 <= i < |g| && 0 <= j < Width(g) ==> r[i][j] == f(g[i][j])
  {
    seq(|g|, i requires 0 <= i < |g| => seq(Width(g), j requires 0 <= j < Width(g) => f(g[i][j])))
  }
}
