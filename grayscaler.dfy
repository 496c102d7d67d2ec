/**
 * `Grayscaler`: replaces every pixel by the gray of its ITU-R BT.601 luma
 * (weights 0.299, 0.587 and 0.114), rounded to the nearest integer.
 */
module Grayscaler {
  import opened Numeric
  import opened Pixels
  import opened Raster

  /** Whether the three channels of a colour are equal. */
  predicate IsGray(c: Color)
  {
    c.red == c.green && c.red == c.blue
  }

  /** The ITU-R BT.601 luma of a colour, in exact arithmetic. */
  function Luma(c: Color): real
  {
    0.299 * c.red as real + 0.587 * c.green as real + 0.114 * c.blue as real
  }

  function Min3(a: int, b: int, c: int): int
  {
    if a <= b && a <= c then a else if b <= c then b else c
  }

  function Max3(a: int, b: int, c: int): int
  {
    if a >= b && a >= c then a else if b >= c then b else c
  }

  /**
   * `intensity(color)`: a gray colour gives its channel value exactly; any other
   * colour gives its luma. The weights are non-negative and sum to 1, so the
   * result lies between the smallest and the largest channel.
   */
  function Intensity(c: Color): (v: real)
    ensures Min3(c.red, c.green, c.blue) as real <= v <= Max3(c.red, c.green, c.blue) as real
    ensures 0.0 <= v <= 255.0
  {
    if c.red == c.green && c.red == c.blue then c.red as real
    else 0.299 * c.red as real + 0.587 * c.green as real + 0.114 * c.blue as real
  }

  /** The shortcut for gray colours agrees with the luma: in exact arithmetic it changes nothing. */
  lemma IntensityIsLuma(c: Color)
    ensures Intensity(c) == Luma(c)
    ensures IsGray(c) ==> Intensity(c) == c.red as real
  {
  }

  /**
   * `grayscale(color)`: the gray colour whose channels are `Math.round` of the
   * intensity; the rounding is to the nearest integer, halves up.
   */
  function Grayscale(c: Color): (g: Color)
    ensures IsGray(g)
    ensures g.red as real - 0.5 <= Intensity(c) < g.red as real + 0.5
    ensures Min3(c.red, c.green, c.blue) <= g.red <= Max3(c.red, c.green, c.blue)
  {
    var y := RoundHalfUp(Intensity(c));
    Color(y, y, y)
  }

  /** The gray value is the rounded luma. */
  lemma GrayscaleIsRoundedLuma(c: Color)
    ensures Grayscale(c) == Color(RoundHalfUp(Luma(c)), RoundHalfUp(Luma(c)), RoundHalfUp(Luma(c)))
  {
    IntensityIsLuma(c);
  }

  /** A gray colour is left as it is. */
  lemma GrayFixedPoint(c: Color)
    requires IsGray(c)
    ensures Grayscale(c) == c
  {
    RoundHalfUpOfInteger(c.red);
  }

  /** Grayscaling twice is grayscaling once. */
  lemma GrayscaleIdempotent(c: Color)
    ensures Grayscale(Grayscale(c)) == Grayscale(c)
  {
    GrayFixedPoint(Grayscale(c));
  }

  /** Pure red, green and blue and white. */
  lemma GrayscaleExamples()
    ensures Grayscale(Color(255, 0, 0)) == Color(76, 76, 76)
    ensures Grayscale(Color(0, 255, 0)) == Color(150, 150, 150)
    ensures Grayscale(Color(0, 0, 255)) == Color(29, 29, 29)
    ensures Grayscale(Color(255, 255, 255)) == Color(255, 255, 255)
  {
    assert Intensity(Color(255, 0, 0)) == 76.245;
    assert Intensity(Color(0, 255, 0)) == 149.685;
    assert Intensity(Color(0, 0, 255)) == 29.07;
    GrayFixedPoint(Color(255, 255, 255));
  }

  /** The pixel `processPixel` writes for an input pixel: `grayscale(new Color(p)).getRGB()`. */
  function GrayPixel(p: Pixel): Pixel
  {
    GetRGB(Grayscale(FromRGB(p)))
  }

  /** The written pixel is opaque, and its three channels all carry the rounded luma of the input. */
  lemma GrayPixelChannels(p: Pixel)
    ensures Alpha(GrayPixel(p)) == 0xFF
    ensures forall ch :: ChannelOf(ch, GrayPixel(p)) == RoundHalfUp(Luma(FromRGB(p)))
  {
    GrayscaleIsRoundedLuma(FromRGB(p));
  }

  /** Grayscaling an output pixel again gives it back unchanged. */
  lemma GrayPixelIdempotent(p: Pixel)
    ensures GrayPixel(GrayPixel(p)) == GrayPixel(p)
  {
    ColorRoundTrip(Grayscale(FromRGB(p)));
    GrayscaleIdempotent(FromRGB(p));
  }

  /** An opaque gray pixel is left as it is. */
  lemma OpaqueGrayFixedPoint(p: Pixel)
    requires Alpha(p) == 0xFF && IsGray(FromRGB(p))
    ensures GrayPixel(p) == p
  {
    GrayFixedPoint(FromRGB(p));
    PixelRoundTrip(p);
  }

  /**
   * `processPixel(col, row, image, newImage)`: the gray of the input pixel read
   * through `get` is written at (col, row) of `newImage`, and no other pixel changes.
   */
  method ProcessPixel(col: int, row: int, image: Image, newImage: Image)
    requires image.Width() >= 1 && image.Height() >= 1
    requires newImage.InRange(col, row) && newImage.pixels != image.pixels
    modifies newImage.pixels
    ensures newImage.pixels[col, row] == GrayPixel(image.Sample(col, row))
    ensures forall c, r :: newImage.InRange(c, r) && (c != col || r != row) ==> newImage.pixels[c, r] == old(newImage.pixels[c, r])
  {
    var p := image.Get(col, row);
    newImage.Set(col, row, GetRGB(Grayscale(FromRGB(p))));
  }

  /**
   * `processImage(image)`: a new image of the same size whose every pixel is the
   * gray of the input pixel at the same position; `image` is not changed. `order`
   * lists the positions handed to `processPixel`, one per pixel, columns outermost.
   */
  method ProcessImage(image: Image) returns (newImage: Image, ghost order: seq<(int, int)>)
    requires image.Width() >= 1 && image.Height() >= 1
    ensures fresh(newImage) && fresh(newImage.pixels)
    ensures newImage.Width() == image.Width() && newImage.Height() == image.Height()
    ensures forall c, r :: newImage.InRange(c, r) ==> newImage.pixels[c, r] == GrayPixel(image.pixels[c, r])
    ensures unchanged(image.pixels)
    ensures order == CellOrigins(image.Width(), image.Height(), 1)
  {
    var w, h := image.Width(), image.Height();
    newImage := new Image(w, h);
    order := [];
    var col := 0;
    while col < w
      invariant 0 <= col <= w
      invariant order == ColumnsBefore(col, h, 1)
      invariant forall c, r :: 0 <= c < col && 0 <= r < h ==> newImage.pixels[c, r] == GrayPixel(image.pixels[c, r])
    {
      assert order + RowsBefore(col, 0, 1) == order;
      var row := 0;
      while row < h
        invariant 0 <= row <= h
        invariant order == ColumnsBefore(col, h, 1) + RowsBefore(col, row, 1)
        invariant forall c, r :: (0 <= c < col && 0 <= r < h) || (c == col && 0 <= r < row) ==> newImage.pixels[c, r] == GrayPixel(image.pixels[c, r])
      {
        ProcessPixel(col, row, image, newImage);
        RowsNext(ColumnsBefore(col, h, 1), col, row, row, 1);
        order := order + [(col, row)];
        row := row + 1;
      }
      ColumnsNext(col, col, row, row, h, 1);
      col := col + 1;
    }
    AllColumnsDone(col, col, w, h, 1);
  }
}
