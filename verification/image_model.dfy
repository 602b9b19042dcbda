/**
 * The public operations of `ImageModel` as the controller calls them:
 * image arguments may be null, and each operation checks its arguments in
 * the order the source does before delegating to the component modules.
 * A null image that the source dereferences without a check (a
 * NullPointerException) is reported as `MissingImage` as well.
 */
module ImageModel {
  import opened Outcomes
  import opened JavaInt
  import opened PixelGrid
  import Pointwise
  import Convolution
  import Compositor
  import Histogram
  import Levels
  import Compression

  /** An image argument: null, or a well-formed image. */
  predicate ValidImage(img: Option<Grid>) {
    img.None? || WellFormed(img.value)
  }

  /** The single-image operations whose only check is `img == null`. */
  datatype UnaryOp =
    | FlipHorizontal
    | FlipVertical
    | Brighten(increment: Int32)
    | Value
    | Intensity
    | Blur
    | Sharpen

  /** The component computation behind each single-image operation. */
  function Transform(op: UnaryOp, g: Grid): (r: Grid)
    requires WellFormed(g)
    ensures IsRect(r, |g|, Width(g)) && WellFormed(r)
  {
    match op
    case FlipHorizontal => Pointwise.FlipHorizontal(g)
    case FlipVertical => Pointwise.FlipVertical(g)
    case Brighten(increment) => Pointwise.Brighten(g, increment)
    case Value => Pointwise.Value(g)
    case Intensity => Pointwise.Intensity(g)
    case Blur => Convolution.Blur(g)
    case Sharpen => Convolution.Sharpen(g)
  }

  /**
   * `flipHorizontal`, `flipVertical`, `brighten`, `value`, `intensity`,
   * `blur`, `sharpen`: a null image is refused, anything else is
   * transformed into a well-formed image of the same size.
   */
  function Apply(op: UnaryOp, img: Option<Grid>): (r: Result<Grid>)
    requires ValidImage(img)
    ensures r.Err? <==> img.None?
    ensures r.Err? ==> r.error == MissingImage
    ensures r.Ok? ==> IsRect(r.value, |img.value|, Width(img.value)) && WellFormed(r.value)
    ensures r.Ok? ==> r.value == Transform(op, img.value)
  {
    match img
    case None => Err(MissingImage)
    case Some(g) => Ok(Transform(op, g))
  }

  /** Flipping the result of a flip in the same direction gives back the input, null or not. */
  lemma ApplyFlipTwice(img: Option<Grid>, horizontal: bool)
    requires ValidImage(img)
    ensures var op := if horizontal then FlipHorizontal else FlipVertical;
      var once := Apply(op, img);
      once.Ok? ==> Apply(op, Some(once.value)) == Ok(img.value)
  {
    if img.Some? {
      if horizontal {
        Pointwise.FlipHorizontalInvolution(img.value);
      } else {
        Pointwise.FlipVerticalInvolution(img.value);
      }
    }
  }

  /** `combineImage`: any null argument is refused before a pixel is read. */
  function CombineImage(red: Option<Grid>, green: Option<Grid>, blue: Option<Grid>): (r: Result<Grid>)
    requires ValidImage(red) && ValidImage(green) && ValidImage(blue)
    ensures red.None? || green.None? || blue.None? ==> r == Err(MissingImage)
    ensures red.Some? && green.Some? && blue.Some? ==>
      r == Pointwise.Combine(red.value, green.value, blue.value)
  {
    if red.None? || green.None? || blue.None? then Err(MissingImage)
    else Pointwise.Combine(red.value, green.value, blue.value)
  }

  /**
   * `splitView`: the percentage is checked before anything else; a null
   * original is then dereferenced; the processed image is read only where
   * the split needs it.
   */
  function SplitViewImage(image: Option<Grid>, processed: Option<Grid>, percentage: int): (r: Result<Grid>)
    requires ValidImage(image) && ValidImage(processed)
    ensures !(0 <= percentage <= 100) ==> r == Err(InvalidRange)
    ensures 0 <= percentage <= 100 && image.None? ==> r == Err(MissingImage)
    ensures image.Some? ==> r == Compositor.SplitView(image.value, processed, percentage)
  {
    if !(0 <= percentage <= 100) then Err(InvalidRange)
    else if image.None? then Err(MissingImage)
    else Compositor.SplitView(image.value, processed, percentage)
  }

  /**
   * `correctColor`: no null check, so a null image fails on its first
   * dereference; an image without pixels fails when the result raster is
   * created.
   */
  function CorrectColorImage(image: Option<Grid>): (r: Result<Grid>)
    requires ValidImage(image)
    ensures r.Err? <==> image.None? || |image.value| == 0 || Width(image.value) == 0
    ensures r.Err? ==> r.error == if image.None? then MissingImage else EmptyImage
    ensures r.Ok? ==> IsRect(r.value, |image.value|, Width(image.value)) && WellFormed(r.value)
    ensures image.Some? ==> r == Histogram.CorrectColor(image.value)
  {
    match image
    case None => Err(MissingImage)
    case Some(g) => Histogram.CorrectColor(g)
  }

  /**
   * `histogram` up to the drawing step: the histograms of the image scaled
   * to the 256-pixel plot height.  An image without pixels makes every bin
   * 0 and the scaling divides by zero.
   */
  function HistogramImage(image: Option<Grid>): (r: Result<Histogram.Histograms>)
    requires ValidImage(image)
    ensures image.None? ==> r == Err(MissingImage)
    ensures image.Some? ==> (r.Err? <==> |image.value| * Width(image.value) == 0)
    ensures image.Some? && r.Err? ==> r.error == DivisionByZero
    ensures r.Ok? ==> r == Histogram.ScaleHistogram(256, Histogram.StoreHistogram(image.value))
  {
    match image
    case None => Err(MissingImage)
    case Some(g) =>
      Histogram.MaxCountZeroIffEmpty(g);
      Histogram.ScaleHistogram(256, Histogram.StoreHistogram(g))
  }

  /**
   * `adjustLevels`: the three levels are validated first, and only then is
   * the (unchecked) image dereferenced.
   */
  function AdjustLevelsImage(image: Option<Grid>, black: int, mid: int, white: int): (r: Result<Grid>)
    requires ValidImage(image)
    ensures !Levels.ValidLevels(black, mid, white) ==> r.Err? && Some(r.error) == Levels.CheckLevels(black, mid, white)
    ensures Levels.ValidLevels(black, mid, white) && image.None? ==> r == Err(MissingImage)
    ensures image.Some? ==> r == Levels.AdjustLevels(image.value, black, mid, white)
  {
    match Levels.CheckLevels(black, mid, white)
    case Some(e) => Err(e)
    case None =>
      if image.None? then Err(MissingImage) else Levels.AdjustLevels(image.value, black, mid, white)
  }

  /** `compressImage`: the null check comes before the percentage check. */
  function CompressImage(input: Option<Grid>, percentage: int): (r: Result<Grid>)
    requires ValidImage(input)
    ensures input.None? ==> r == Err(MissingImage)
    ensures input.Some? ==> r == Compression.Compress(input.value, percentage)
  {
    match input
    case None => Err(MissingImage)
    case Some(g) => Compression.Compress(g, percentage)
  }

  /** A null image with a bad percentage is reported as null by `compressImage` but as a bad range by `splitView`. */
  lemma NullAndRangeOrder(percentage: int)
    requires !(0 <= percentage <= 100)
    ensures CompressImage(None, percentage) == Err(MissingImage)
    ensures SplitViewImage(None, None, percentage) == Err(InvalidRange)
  {
  }
}
