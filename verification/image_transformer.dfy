/**
 * Conversion between the engine's pixel grid and a packed-RGB raster
 * (`java.awt.image.BufferedImage` of type TYPE_INT_RGB).  A raster is
 * addressed as (x, y) = (column, row), the transpose of the grid's
 * (row, column); each element is one Java int holding 0xRRGGBB.
 *
 * Java's `(v >> k) & 0xFF` is `(v / 2^k) % 256` here: Dafny's `/` by a
 * positive constant rounds toward negative infinity exactly like an
 * arithmetic shift, and `%` by 256 is the mask.
 */
module ImageTransformer {
  import opened Outcomes
  import opened JavaInt
  import opened PixelGrid
  import Arithmetic

  /** `{(rgb >> 16) & 0xFF, (rgb >> 8) & 0xFF, rgb & 0xFF}`. */
  function Unpack(rgb: Int32): (p: Pixel)
    ensures ValidPixel(p)
  {
    Pixel((rgb / 0x1_0000) % 0x100, (rgb / 0x100) % 0x100, rgb % 0x100)
  }

  /**
   * `(r << 16) | (g << 8) | b`; for channels in [0,255] the three shifted
   * fields occupy disjoint bits, so the bitwise or is a sum.
   */
  function Pack(p: Pixel): (rgb: Int32)
    requires ValidPixel(p)
  {
    p.r * 0x1_0000 + p.g * 0x100 + p.b
  }

  /** `new Color(r, g, b).getRGB()`: the packed value under an opaque alpha byte 0xFF. */
  function ColorRGB(p: Pixel): (rgb: Int32)
    requires ValidPixel(p)
  {
    Pack(p) - 0x100_0000
  }

  /** Packing in-range channels and unpacking them again gives them back. */
  lemma UnpackPack(p: Pixel)
    requires ValidPixel(p)
    ensures 0 <= Pack(p) <= 0xFF_FFFF
    ensures Unpack(Pack(p)) == p
  {
    var v := Pack(p);
    var hi := p.r * 0x100 + p.g;
    assert v == hi * 0x100 + p.b;
    Arithmetic.QuotientUnique(v, 0x100, hi);
    Arithmetic.QuotientUnique(hi, 0x100, p.r);
    Arithmetic.QuotientUnique(v, 0x1_0000, p.r);
  }

  /** Unpacking keeps only the low 24 bits: packing the result gives exactly those bits. */
  lemma PackUnpack(rgb: Int32)
    ensures Pack(Unpack(rgb)) == rgb % 0x100_0000
  {
    var b0, w1 := rgb % 0x100, rgb / 0x100;
    assert rgb == 0x100 * w1 + b0;
    var b1, w2 := w1 % 0x100, w1 / 0x100;
    assert w1 == 0x100 * w2 + b1;
    var b2, w3 := w2 % 0x100, w2 / 0x100;
    assert w2 == 0x100 * w3 + b2;
    assert rgb == 0x100_0000 * w3 + (0x1_0000 * b2 + 0x100 * b1 + b0);
    assert rgb / 0x1_0000 == w2;
    assert rgb % 0x100_0000 == 0x1_0000 * b2 + 0x100 * b1 + b0;
  }

  /** The alpha byte is ignored: only the low 24 bits decide the unpacked pixel. */
  lemma UnpackLow24(rgb: Int32)
    ensures Unpack(rgb) == Unpack(rgb % 0x100_0000)
  {
    PackUnpack(rgb);
    UnpackPack(Unpack(rgb));
  }

  /** A `Color` built from in-range channels unpacks to those channels. */
  lemma UnpackColor(p: Pixel)
    requires ValidPixel(p)
    ensures Unpack(ColorRGB(p)) == p
  {
    UnpackPack(p);
    UnpackOpaque(Pack(p));
  }

  /** Setting the alpha byte of a 24-bit colour does not change what it unpacks to. */
  lemma UnpackOpaque(v: Int32)
    requires 0 <= v <= 0xFF_FFFF
    ensures Unpack(v - 0x100_0000) == Unpack(v)
  {
    var w: Int32 := v - 0x100_0000;
    assert w % 0x100_0000 == v;
    UnpackLow24(w);
  }

  /** Reading back a stored `Color(...).getRGB()` value through `getRGB` and unpacking gives the colour. */
  lemma ReadStoredColor(p: Pixel)
    requires ValidPixel(p)
    ensures Unpack(ColorRGB(p) % 0x100_0000 - 0x100_0000) == p
  {
    UnpackPack(p);
    var v := Pack(p);
    assert ColorRGB(p) == v - 0x100_0000;
    Arithmetic.QuotientUnique(v - 0x100_0000, 0x100_0000, -1);
    assert ColorRGB(p) % 0x100_0000 == v;
    UnpackColor(p);
  }

  /**
   * A TYPE_INT_RGB raster: `rgb[x][y]` is the int last given to
   * `setRGB(x, y, _)`.
   */
  datatype Buffer = Buffer(width: nat, height: nat, rgb: seq<seq<Int32>>)

  /** `new BufferedImage(width, height, _)` throws IllegalArgumentException unless both sides are positive. */
  predicate RasterSize(width: int, height: int) {
    width > 0 && height > 0
  }

  /** A raster that `new BufferedImage` could have made: positive sides, one column per x. */
  predicate ValidBuffer(b: Buffer) {
    RasterSize(b.width, b.height) &&
    |b.rgb| == b.width && forall x :: 0 <= x < b.width ==> |b.rgb[x]| == b.height
  }

  /** `getRGB(x, y)`: the stored colour bits under an opaque alpha byte (the raster keeps no alpha). */
  function GetRGB(b: Buffer, x: nat, y: nat): Int32
    requires ValidBuffer(b) && x < b.width && y < b.height
  {
    b.rgb[x][y] % 0x100_0000 - 0x100_0000
  }

  /**
   * `transformImageToBufferImage`: pixel (row i, column j) is stored at
   * (x = j, y = i); an image without pixels cannot be given a raster.
   */
  function ImageToBuffer(g: Grid): (r: Result<Buffer>)
    requires WellFormed(g)
    ensures r.Err? <==> !RasterSize(Width(g), |g|)
    ensures r.Err? ==> r.error == EmptyImage
    ensures r.Ok? ==> ValidBuffer(r.value) && r.value.width == Width(g) && r.value.height == |g|
    ensures r.Ok? ==> forall i, j :: 0 <= i < |g| && 0 <= j < Width(g) ==> Unpack(GetRGB(r.value, j, i)) == g[i][j]
  {
    if !RasterSize(Width(g), |g|) then Err(EmptyImage)
    else
      var b := Buffer(Width(g), |g|, seq(Width(g), x requires 0 <= x < Width(g) => PackedColumn(g, x)));
      assert forall i, j :: 0 <= i < |g| && 0 <= j < Width(g) ==> Unpack(GetRGB(b, j, i)) == g[i][j] by {
        forall i, j | 0 <= i < |g| && 0 <= j < Width(g)
          ensures Unpack(GetRGB(b, j, i)) == g[i][j]
        {
          assert b.rgb[j] == PackedColumn(g, j);
          ReadStoredPack(g[i][j]);
        }
      }
      Ok(b)
  }

  /** Raster column `x`: the packed pixels of grid column `x`, top to bottom. */
  function PackedColumn(g: Grid, x: nat): (col: seq<Int32>)
    requires WellFormed(g) && x < Width(g)
    ensures |col| == |g|
    ensures forall y :: 0 <= y < |g| ==> col[y] == Pack(g[y][x])
  {
    seq(|g|, y requires 0 <= y < |g| => Pack(g[y][x]))
  }

  /** A packed pixel stored in an RGB raster reads back (alpha set) as the pixel. */
  lemma ReadStoredPack(p: Pixel)
    requires ValidPixel(p)
    ensures Unpack(Pack(p) % 0x100_0000 - 0x100_0000) == p
  {
    UnpackPack(p);
    var v := Pack(p);
    assert v % 0x100_0000 == v;
    UnpackOpaque(v);
  }

  /**
   * A TYPE_INT_RGB raster filled by `setRGB(x, y, new Color(r, g, b).getRGB())`
   * for every pixel (row y, column x) of a well-formed grid; an image without
   * pixels cannot be given a raster.
   */
  function ColorBuffer(g: Grid): (r: Result<Buffer>)
    requires WellFormed(g)
    ensures r.Err? <==> !RasterSize(Width(g), |g|)
    ensures r.Err? ==> r.error == EmptyImage
    ensures r.Ok? ==> ValidBuffer(r.value) && r.value.width == Width(g) && r.value.height == |g|
    ensures r.Ok? ==> forall i, j :: 0 <= i < |g| && 0 <= j < Width(g) ==> Unpack(GetRGB(r.value, j, i)) == g[i][j]
  {
    if !RasterSize(Width(g), |g|) then Err(EmptyImage)
    else
      var b := Buffer(Width(g), |g|, seq(Width(g), x requires 0 <= x < Width(g) => ColorColumn(g, x)));
      assert forall i, j :: 0 <= i < |g| && 0 <= j < Width(g) ==> Unpack(GetRGB(b, j, i)) == g[i][j] by {
        forall i, j | 0 <= i < |g| && 0 <= j < Width(g)
          ensures Unpack(GetRGB(b, j, i)) == g[i][j]
        {
          assert b.rgb[j] == ColorColumn(g, j);
          ReadStoredColor(g[i][j]);
        }
      }
      Ok(b)
  }

  /** Raster column `x` of `ColorBuffer`: the opaque colours of grid column `x`, top to bottom. */
  function ColorColumn(g: Grid, x: nat): (col: seq<Int32>)
    requires WellFormed(g) && x < Width(g)
    ensures |col| == |g|
    ensures forall y :: 0 <= y < |g| ==> col[y] == ColorRGB(g[y][x])
  {
    seq(|g|, y requires 0 <= y < |g| => ColorRGB(g[y][x]))
  }

  /** `transformBufferImageToImage`: grid pixel (row i, column j) is read from (x = j, y = i). */
  function BufferToImage(b: Buffer): (g: Grid)
    requires ValidBuffer(b)
    ensures IsRect(g, b.height, b.width) && WellFormed(g)
    ensures forall i, j :: 0 <= i < b.height && 0 <= j < b.width ==> g[i][j] == Unpack(GetRGB(b, j, i))
  {
    seq(b.height, i requires 0 <= i < b.height =>
      seq(b.width, j requires 0 <= j < b.width => Unpack(GetRGB(b, j, i))))
  }

  /**
   * Writing a well-formed grid to a raster and reading it back gives the
   * grid; only a grid without pixels is refused a raster.
   */
  lemma ImageBufferRoundTrip(g: Grid)
    requires WellFormed(g)
    ensures ImageToBuffer(g).Ok? <==> |g| > 0 && Width(g) > 0
    ensures ImageToBuffer(g).Ok? ==> BufferToImage(ImageToBuffer(g).value) == g
  {
    var r := ImageToBuffer(g);
    if r.Ok? {
      var back := BufferToImage(r.value);
      forall i | 0 <= i < |g|
        ensures back[i] == g[i]
      {
      }
    }
  }
}
