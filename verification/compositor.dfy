/**
 * Split view: the left part of the image taken from a processed version,
 * the rest from the original, for side-by-side comparison.
 */
module Compositor {
  import opened Outcomes
  import opened JavaInt
  import opened PixelGrid
  import Arithmetic

  /** `(width * percentage) / 100` in 32-bit arithmetic. */
  function SplitPoint(width: nat, percentage: int): (split: int)
    ensures 0 <= percentage <= 100 && width * percentage <= IntMax ==>
      0 <= split <= width && split * 100 <= width * percentage < split * 100 + 100
  {
    SplitProductBounds(width, percentage);
    Div(Wrap(width * percentage), 100)
  }

  /** For a percentage in [0,100] the product and its hundredth stay within [0, 100 * width] and [0, width]. */
  lemma SplitProductBounds(width: nat, percentage: int)
    ensures 0 <= percentage <= 100 ==>
      0 <= width * percentage <= 100 * width && 0 <= (width * percentage) / 100 <= width
  {
    if 0 <= percentage <= 100 {
      Arithmetic.MulMonotone(0, percentage, width);
      Arithmetic.MulMonotone(percentage, 100, width);
      Arithmetic.QuotientBounded(width * percentage, 100, width);
    }
  }

  /** The number of leading columns read from the processed image. */
  function ProcessedColumns(width: nat, percentage: int): (cols: nat)
    ensures cols <= width
  {
    var split := SplitPoint(width, percentage);
    if split <= 0 then 0 else if split >= width then width else split
  }

  /**
   * `splitView`: the percentage is checked first; columns left of the split
   * point come from `processed` (which must then be present and large
   * enough), the others from `image`.
   */
  function SplitView(image: Grid, processed: Option<Grid>, percentage: int): (r: Result<Grid>)
    requires Rectangular(image)
    ensures !(0 <= percentage <= 100) ==> r == Err(InvalidRange)
    ensures 0 <= percentage <= 100 ==>
      var cols := ProcessedColumns(Width(image), percentage);
      var touches := |image| > 0 && cols > 0;
      (r.Ok? <==> !touches || (processed.Some? && Covers(processed.value, |image|, cols))) &&
      (r.Err? ==> r.error == (if processed.None? then MissingImage else IndexOutOfRange))
    ensures r.Ok? ==> IsRect(r.value, |image|, Width(image))
    ensures r.Ok? ==> forall i, j :: 0 <= i < |image| && 0 <= j < Width(image) ==>
      r.value[i][j] == (if j < SplitPoint(Width(image), percentage) then processed.value[i][j] else image[i][j])
  {
    if !(0 <= percentage <= 100) then Err(InvalidRange)
    else
      var h, w := |image|, Width(image);
      var split := SplitPoint(w, percentage);
      var cols := ProcessedColumns(w, percentage);
      if h > 0 && cols > 0 && processed.None? then Err(MissingImage)
      else if h > 0 && cols > 0 && !Covers(processed.value, h, cols) then Err(IndexOutOfRange)
      else
        Ok(seq(h, i requires 0 <= i < h => seq(w, j requires 0 <= j < w =>
          if j < split then processed.value[i][j] else image[i][j])))
  }

  /** Splitting an image against itself gives the image back, at any valid percentage. */
  lemma SplitViewOfSameImage(image: Grid, percentage: int)
    requires Rectangular(image) && 0 <= percentage <= 100
    ensures SplitView(image, Some(image), percentage) == Ok(image)
  {
    var r := SplitView(image, Some(image), percentage);
    var cols := ProcessedColumns(Width(image), percentage);
    assert Covers(image, |image|, cols);
    assert r.Ok?;
    forall i | 0 <= i < |image|
      ensures r.value[i] == image[i]
    {
      assert |r.value[i]| == |image[i]|;
    }
    assert r.value == image;
  }

  /** At 0% nothing is taken from the processed image, which may then be missing. */
  lemma SplitViewZeroIsOriginal(image: Grid, processed: Option<Grid>)
    requires Rectangular(image)
    ensures SplitView(image, processed, 0) == Ok(image)
  {
    var r := SplitView(image, processed, 0);
    assert SplitPoint(Width(image), 0) == 0;
    forall i | 0 <= i < |image|
      ensures r.value[i] == image[i]
    {
      assert |r.value[i]| == |image[i]|;
    }
    assert r.value == image;
  }

  /** At 100% a processed image of the same shape is shown in full. */
  lemma SplitViewFullIsProcessed(image: Grid, processed: Grid)
    requires Rectangular(image) && IsRect(processed, |image|, Width(image))
    requires Width(image) * 100 <= IntMax
    ensures SplitView(image, Some(processed), 100) == Ok(processed)
  {
    var w := Width(image);
    assert SplitPoint(w, 100) == w;
    assert Covers(processed, |image|, ProcessedColumns(w, 100));
    var r := SplitView(image, Some(processed), 100);
    forall i | 0 <= i < |image|
      ensures r.value[i] == processed[i]
    {
      assert |r.value[i]| == |processed[i]|;
    }
    assert r.value == processed;
  }
}
