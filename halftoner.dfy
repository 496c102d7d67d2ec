/**
 * `Halftoner`: paints a black canvas the size of the image and, for every cell
 * origin on a grid of step `rad`, a white dot whose diameter grows with the
 * average low byte of the (2·rad+1)² window of clamped samples around it.
 *
 * Drawing goes through a `Graphics2D`; the model records what is filled, in
 * which colour and in which order, and leaves the rasterisation out.
 */
module Halftoner {
  import opened Numeric
  import opened Pixels
  import opened Raster
  import Grayscaler

  /** `new Color(0, 0, 0).getRGB()` and `new Color(255, 255, 255).getRGB()`. */
  const Black: Pixel := 0xFF00_0000
  const White: Pixel := 0xFFFF_FFFF

  /** `Rectangle2D.Double` and `Ellipse2D.Double`: a bounding box with its top-left corner at (x, y). */
  datatype Shape =
    | Rect(x: real, y: real, width: real, height: real)
    | Ellipse(x: real, y: real, width: real, height: real)

  /** One `fill` call: the shape and the paint in force when it was made. */
  datatype Fill = Fill(shape: Shape, paint: Pixel)

  /** The `Graphics2D` of an image: its current paint and the fills issued so far. */
  class Canvas {
    const target: Image
    var paint: Pixel
    var fills: seq<Fill>

    /** `createGraphics()`: nothing filled yet; the default paint is white. */
    constructor (target: Image)
      ensures this.target == target && paint == White && fills == []
    {
      this.target := target;
      paint := White;
      fills := [];
    }

    /** `setColor(c)`. */
    method SetColor(p: Pixel)
      modifies this
      ensures paint == p && fills == old(fills)
    {
      paint := p;
    }

    /** `fill(shape)`: the shape is painted, after everything before it, in the current paint. */
    method FillShape(shape: Shape)
      modifies this
      ensures fills == old(fills) + [Fill(shape, paint)] && paint == old(paint)
    {
      fills := fills + [Fill(shape, paint)];
    }
  }

  /**
   * The low bytes `get(col + x, row + y) & 0xff` of window column `x`, for the
   * offsets y in [-rad, y).
   */
  function ColumnSum(image: Image, col: int, row: int, rad: int, x: int, y: int): int
    reads image.pixels
    requires image.Width() >= 1 && image.Height() >= 1
    decreases y + rad
  {
    if y <= -rad then 0
    else ColumnSum(image, col, row, rad, x, y - 1) + ChannelOf(Blue, image.Sample(col + x, row + y - 1))
  }

  /** The low bytes of the window columns x in [-rad, x), each over its whole height. */
  function WindowSum(image: Image, col: int, row: int, rad: int, x: int): int
    reads image.pixels
    requires image.Width() >= 1 && image.Height() >= 1
    decreases x + rad
  {
    if x <= -rad then 0
    else WindowSum(image, col, row, rad, x - 1) + ColumnSum(image, col, row, rad, x - 1, rad + 1)
  }

  /** The normaliser `4 * rad * rad * 255`, in exact arithmetic: at least 1020 for every rad other than 0. */
  function Divisor(rad: int): (d: int)
    ensures rad != 0 ==> d >= 1020
    ensures d >= 0
  {
    SquarePositive(rad);
    4 * rad * rad * 255
  }

  lemma SquarePositive(rad: int)
    ensures rad * rad >= 0
    ensures rad != 0 ==> rad * rad >= 1
  {
    if rad < 0 {
      assert rad * rad == (-rad) * (-rad);
    }
  }

  /** The value of a cell: its window sum over `4 * rad * rad * 255`. */
  function CellValue(image: Image, col: int, row: int, rad: int): real
    reads image.pixels
    requires rad >= 1 && image.Width() >= 1 && image.Height() >= 1
  {
    WindowSum(image, col, row, rad, rad + 1) as real / Divisor(rad) as real
  }

  /** The dot of a cell: a circle whose bounding box has its top-left corner at the origin. */
  function Dot(image: Image, col: int, row: int, rad: int): Shape
    reads image.pixels
    requires rad >= 1 && image.Width() >= 1 && image.Height() >= 1
  {
    var d := (2 * rad) as real * CellValue(image, col, row, rad);
    Ellipse(col as real, row as real, d, d)
  }

  /** The white dots of a sequence of cell origins, in that order. */
  function Dots(image: Image, rad: int, origins: seq<(int, int)>): (dots: seq<Fill>)
    reads image.pixels
    requires rad >= 1 && image.Width() >= 1 && image.Height() >= 1
    ensures |dots| == |origins|
  {
    seq(|origins|, i requires 0 <= i < |origins| reads image.pixels =>
      Fill(Dot(image, origins[i].0, origins[i].1, rad), White))
  }

  /** The fills `processImage` issues: the black background, then one white dot per cell origin. */
  function Halftone(image: Image, rad: int): seq<Fill>
    reads image.pixels
    requires rad >= 1 && image.Width() >= 1 && image.Height() >= 1
  {
    [Fill(Rect(0.0, 0.0, image.Width() as real, image.Height() as real), Black)] +
    Dots(image, rad, CellOrigins(image.Width(), image.Height(), rad))
  }

  /**
   * `processPixel(col, row, image, out, rad)`: the low bytes of the clamped window
   * are added up, divided by `4 * rad * rad * 255`, and the dot of that value is
   * filled in the current paint.
   */
  method ProcessPixel(col: int, row: int, image: Image, out: Canvas, rad: int)
    requires rad >= 1 && image.Width() >= 1 && image.Height() >= 1
    modifies out
    ensures out.fills == old(out.fills) + [Fill(Dot(image, col, row, rad), old(out.paint))]
    ensures out.paint == old(out.paint)
  {
    var value: real := 0.0;
    var x := -1 * rad;
    while x <= rad
      invariant -rad <= x <= rad + 1
      invariant value == WindowSum(image, col, row, rad, x) as real
      invariant unchanged(out)
    {
      var y := -1 * rad;
      while y <= rad
        invariant -rad <= y <= rad + 1
        invariant value == (WindowSum(image, col, row, rad, x) + ColumnSum(image, col, row, rad, x, y)) as real
        invariant unchanged(out)
      {
        var p := image.Get(col + x, row + y);
        ColumnSumStep(image, col, row, rad, x, y);
        value := value + (p % 0x100) as real;
        y := y + 1;
      }
      WindowSumStep(image, col, row, rad, x);
      x := x + 1;
    }
    value := value / Divisor(rad) as real;
    DotOfValue(image, col, row, rad, value);
    out.FillShape(Ellipse(col as real, row as real, (2 * rad) as real * value, (2 * rad) as real * value));
  }

  lemma ColumnSumStep(image: Image, col: int, row: int, rad: int, x: int, y: int)
    requires image.Width() >= 1 && image.Height() >= 1 && -rad <= y
    ensures ColumnSum(image, col, row, rad, x, y + 1) == ColumnSum(image, col, row, rad, x, y) + image.Sample(col + x, row + y) % 0x100
  {
  }

  lemma WindowSumStep(image: Image, col: int, row: int, rad: int, x: int)
    requires image.Width() >= 1 && image.Height() >= 1 && -rad <= x
    ensures WindowSum(image, col, row, rad, x + 1) == WindowSum(image, col, row, rad, x) + ColumnSum(image, col, row, rad, x, rad + 1)
  {
  }

  lemma DotOfValue(image: Image, col: int, row: int, rad: int, value: real)
    requires rad >= 1 && image.Width() >= 1 && image.Height() >= 1
    requires value == WindowSum(image, col, row, rad, rad + 1) as real / Divisor(rad) as real
    ensures Ellipse(col as real, row as real, (2 * rad) as real * value, (2 * rad) as real * value) == Dot(image, col, row, rad)
  {
  }

  /** Appending one origin appends its dot. */
  lemma DotsSnoc(image: Image, rad: int, origins: seq<(int, int)>, col: int, row: int)
    requires rad >= 1 && image.Width() >= 1 && image.Height() >= 1
    ensures Dots(image, rad, origins + [(col, row)]) == Dots(image, rad, origins) + [Fill(Dot(image, col, row, rad), White)]
  {
    var longer := origins + [(col, row)];
    assert forall i :: 0 <= i < |origins| ==> longer[i] == origins[i];
  }

  /**
   * `processImage(image, rad)`: the grayscale image is computed and dropped, the
   * whole canvas is filled black, and then the white dots of the cell origins are
   * filled in column-major order. `image` is not changed, so the dots read its
   * original low bytes. The returned image is the canvas's target.
   */
  method ProcessImage(image: Image, rad: int) returns (newImage: Image, out: Canvas)
    requires rad >= 1 && image.Width() >= 1 && image.Height() >= 1
    ensures fresh(newImage) && fresh(newImage.pixels) && fresh(out)
    ensures newImage.Width() == image.Width() && newImage.Height() == image.Height()
    ensures out.target == newImage
    ensures out.fills == Halftone(image, rad)
    ensures unchanged(image.pixels)
  {
    var w, h := image.Width(), image.Height();
    newImage := new Image(w, h);
    var gray, grayOrder := Grayscaler.ProcessImage(image);
    out := new Canvas(newImage);
    out.SetColor(Black);
    out.FillShape(Rect(0.0, 0.0, w as real, h as real));
    out.SetColor(White);
    ghost var background := out.fills;
    ghost var visited: seq<(int, int)> := [];
    ghost var i: nat := 0;
    var col := 0;
    while col < w
      invariant 0 <= col < w + rad && col == i * rad
      invariant out.target == newImage && out.paint == White
      invariant visited == ColumnsBefore(i, h, rad)
      invariant out.fills == background + Dots(image, rad, visited)
    {
      assert visited + RowsBefore(col, 0, rad) == visited;
      ghost var k: nat := 0;
      var row := 0;
      while row < h
        invariant 0 <= row < h + rad && row == k * rad
        invariant out.target == newImage && out.paint == White
        invariant visited == ColumnsBefore(i, h, rad) + RowsBefore(col, k, rad)
        invariant out.fills == background + Dots(image, rad, visited)
      {
        ProcessPixel(col, row, image, out, rad);
        DotsSnoc(image, rad, visited, col, row);
        RowsNext(ColumnsBefore(i, h, rad), col, k, row, rad);
        visited := visited + [(col, row)];
        row, k := row + rad, k + 1;
      }
      ColumnsNext(i, col, row, k, h, rad);
      col, i := col + rad, i + 1;
    }
    AllColumnsDone(i, col, w, h, rad);
  }

  /** A column of the window adds up to between 0 and 255 per sample. */
  lemma {:induction false} ColumnSumBounds(image: Image, col: int, row: int, rad: int, x: int, y: int)
    requires rad >= 0 && image.Width() >= 1 && image.Height() >= 1 && -rad <= y
    ensures 0 <= ColumnSum(image, col, row, rad, x, y) <= (y + rad) * 255
    decreases y + rad
  {
    if y > -rad {
      ColumnSumBounds(image, col, row, rad, x, y - 1);
    }
  }

  /** The window adds up to between 0 and 255 per sample. */
  lemma {:induction false} WindowSumBounds(image: Image, col: int, row: int, rad: int, x: int)
    requires rad >= 0 && image.Width() >= 1 && image.Height() >= 1 && -rad <= x
    ensures 0 <= WindowSum(image, col, row, rad, x) <= (x + rad) * (2 * rad + 1) * 255
    decreases x + rad
  {
    if x > -rad {
      WindowSumBounds(image, col, row, rad, x - 1);
      ColumnSumBounds(image, col, row, rad, x - 1, rad + 1);
      assert (x + rad) * (2 * rad + 1) * 255 == (x - 1 + rad) * (2 * rad + 1) * 255 + (2 * rad + 1) * 255;
    }
  }

  /**
   * The value of a cell lies in [0, (2·rad+1)² / (4·rad²)]; the upper end is above 1,
   * so a dot can be wider than the cell step.
   */
  lemma CellValueBounds(image: Image, col: int, row: int, rad: int)
    requires rad >= 1 && image.Width() >= 1 && image.Height() >= 1
    ensures 0.0 <= CellValue(image, col, row, rad) <= ((2 * rad + 1) * (2 * rad + 1)) as real / (4 * rad * rad) as real
  {
    WindowSumBounds(image, col, row, rad, rad + 1);
    var s := WindowSum(image, col, row, rad, rad + 1);
    var m := (2 * rad + 1) * (2 * rad + 1);
    assert 0 <= s <= m * 255;
    assert Divisor(rad) == (4 * rad * rad) * 255;
    assert s as real / Divisor(rad) as real <= (m * 255) as real / Divisor(rad) as real;
  }

  /** Every dot is a circle with its corner at the cell origin and a diameter in [0, (2·rad+1)² / (2·rad)]. */
  lemma DotBounds(image: Image, col: int, row: int, rad: int)
    requires rad >= 1 && image.Width() >= 1 && image.Height() >= 1
    ensures Dot(image, col, row, rad).Ellipse? && Dot(image, col, row, rad).x == col as real && Dot(image, col, row, rad).y == row as real
    ensures Dot(image, col, row, rad).width == Dot(image, col, row, rad).height
    ensures 0.0 <= Dot(image, col, row, rad).width <= ((2 * rad + 1) * (2 * rad + 1)) as real / (2 * rad) as real
  {
    CellValueBounds(image, col, row, rad);
    var v := CellValue(image, col, row, rad);
    var m := ((2 * rad + 1) * (2 * rad + 1)) as real;
    var r := rad as real;
    assert (4 * rad * rad) as real == 4.0 * r * r;
    assert v <= m / (4.0 * r * r);
    assert 2.0 * r * v <= 2.0 * r * (m / (4.0 * r * r));
    assert 2.0 * r * (m / (4.0 * r * r)) == m / (2.0 * r);
  }

  /** Whether every pixel of the image has low byte `b`. */
  predicate LowBytes(image: Image, b: Byte)
    reads image.pixels
  {
    forall c, r :: 0 <= c < image.Width() && 0 <= r < image.Height() ==> ChannelOf(Blue, image.pixels[c, r]) == b
  }

  lemma {:induction false} UniformColumnSum(image: Image, col: int, row: int, rad: int, x: int, y: int, b: Byte)
    requires rad >= 0 && image.Width() >= 1 && image.Height() >= 1 && -rad <= y && LowBytes(image, b)
    ensures ColumnSum(image, col, row, rad, x, y) == (y + rad) * b
    decreases y + rad
  {
    if y > -rad {
      UniformColumnSum(image, col, row, rad, x, y - 1, b);
    }
  }

  lemma {:induction false} UniformWindowSum(image: Image, col: int, row: int, rad: int, x: int, b: Byte)
    requires rad >= 0 && image.Width() >= 1 && image.Height() >= 1 && -rad <= x && LowBytes(image, b)
    ensures WindowSum(image, col, row, rad, x) == (x + rad) * ((2 * rad + 1) * b)
    decreases x + rad
  {
    if x > -rad {
      UniformWindowSum(image, col, row, rad, x - 1, b);
      UniformColumnSum(image, col, row, rad, x - 1, rad + 1, b);
      WindowStep(x, rad, b);
    }
  }

  lemma WindowStep(x: int, rad: int, b: int)
    ensures (x + rad) * ((2 * rad + 1) * b) == (x - 1 + rad) * ((2 * rad + 1) * b) + (rad + 1 + rad) * b
  {
    assert rad + 1 + rad == 2 * rad + 1;
  }

  /** On an image whose low bytes are all 255 every cell reaches the top value (2·rad+1)² / (4·rad²), which exceeds 1. */
  lemma BrightCellValue(image: Image, col: int, row: int, rad: int)
    requires rad >= 1 && image.Width() >= 1 && image.Height() >= 1 && LowBytes(image, 255)
    ensures CellValue(image, col, row, rad) == ((2 * rad + 1) * (2 * rad + 1)) as real / (4 * rad * rad) as real
    ensures CellValue(image, col, row, rad) > 1.0
  {
    UniformWindowSum(image, col, row, rad, rad + 1, 255);
    var m := (2 * rad + 1) * (2 * rad + 1);
    var q := 4 * rad * rad;
    assert WindowSum(image, col, row, rad, rad + 1) == m * 255;
    assert Divisor(rad) == q * 255;
    CommonFactor(m, q);
  }

  lemma CommonFactor(m: int, q: int)
    requires 0 < q < m
    ensures (m * 255) as real / (q * 255) as real == m as real / q as real > 1.0
  {
  }

  /** An image whose low bytes are all 0 gets dots of width and height 0 only (the fills are recorded, not drawn). */
  lemma DarkImageDots(image: Image, rad: int, origins: seq<(int, int)>)
    requires rad >= 1 && image.Width() >= 1 && image.Height() >= 1 && LowBytes(image, 0)
    ensures forall i :: 0 <= i < |origins| ==>
      Dots(image, rad, origins)[i].shape.width == 0.0 && Dots(image, rad, origins)[i].shape.height == 0.0
  {
    forall i | 0 <= i < |origins|
      ensures Dots(image, rad, origins)[i].shape.width == 0.0 && Dots(image, rad, origins)[i].shape.height == 0.0
    {
      UniformWindowSum(image, origins[i].0, origins[i].1, rad, rad + 1, 0);
    }
  }

  /**
   * `4 * rad * rad * 255` as Java evaluates it: each product is a 32-bit int that
   * wraps around.
   */
  function DivisorAsWritten(rad: int): int
  {
    Wrap32(Wrap32(Wrap32(4 * rad) * rad) * 255)
  }

  /** Up to rad = 1450 the 32-bit divisor is the exact one. */
  lemma DivisorAsWrittenAgrees(rad: int)
    requires 0 <= rad <= 1450
    ensures DivisorAsWritten(rad) == Divisor(rad)
  {
    var a := 4 * rad;
    assert Wrap32(a) == a;
    ProductBound(a, rad, 5800, 1450);
    var b := a * rad;
    assert Wrap32(b) == b;
    assert b * 255 <= 5800 * 1450 * 255;
    assert Wrap32(b * 255) == b * 255;
  }

  lemma ProductBound(a: int, b: int, ma: int, mb: int)
    requires 0 <= a <= ma && 0 <= b <= mb
    ensures 0 <= a * b <= ma * mb
  {
    assert a * b <= ma * b;
  }

  /**
   * From rad = 1451 on the product overflows: at 1451 the divisor is negative, so
   * every value and every diameter is negative or zero, and at 32768 it is 0, so
   * the division gives an infinity or NaN.
   */
  lemma DivisorOverflows()
    ensures DivisorAsWritten(1451) == -2147458276 && Divisor(1451) == 2147509020
    ensures DivisorAsWritten(32768) == 0 && Divisor(32768) > 0
  {
  }
}
