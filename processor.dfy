/**
 * `Processor`: an object holding a kernel, the image it reads and the image it
 * writes; building it convolves every pixel of the image into the new image.
 */
module Processor {
  import opened Numeric
  import opened Pixels
  import opened Raster
  import opened Convolution

  class Processor {
    const kernel: array2<real>
    const image: Image
    const newImage: Image

    /** A square kernel of odd size, a non-empty image, and a separate output of the same size. */
    ghost predicate Valid()
    {
      IsKernel(kernel) && image.Width() >= 1 && image.Height() >= 1 &&
      newImage.Width() == image.Width() && newImage.Height() == image.Height() &&
      newImage.pixels != image.pixels
    }

    /**
     * The constructor once the kernel and the image are in hand: a new image of the
     * same size is allocated and `processImage()` fills it.
     */
    constructor (kernel: array2<real>, image: Image)
      requires IsKernel(kernel) && image.Width() >= 1 && image.Height() >= 1
      ensures this.kernel == kernel && this.image == image
      ensures fresh(newImage) && fresh(newImage.pixels)
      ensures Valid()
      ensures forall c, r :: newImage.InRange(c, r) ==> newImage.pixels[c, r] == ConvolvedPixel(image, kernel, c, r)
    {
      this.kernel := kernel;
      this.image := image;
      newImage := new Image(image.Width(), image.Height());
      new;
      ghost var order := ProcessImage();
    }

    /**
     * `processImage()`: every pixel of `newImage` becomes the convolution at that
     * position. `order` lists the positions handed to `processPixel`, one per pixel,
     * columns outermost.
     */
    method ProcessImage() returns (ghost order: seq<(int, int)>)
      requires Valid()
      modifies newImage.pixels
      ensures Valid()
      ensures forall c, r :: newImage.InRange(c, r) ==> newImage.pixels[c, r] == ConvolvedPixel(image, kernel, c, r)
      ensures unchanged(image.pixels)
      ensures order == CellOrigins(image.Width(), image.Height(), 1)
    {
      ghost var t := ConvolutionTable(image, kernel);
      order := [];
      var col := 0;
      while col < image.Width()
        invariant 0 <= col <= image.Width()
        invariant order == ColumnsBefore(col, image.Height(), 1)
        invariant forall c, r :: 0 <= c < col && 0 <= r < image.Height() ==> newImage.pixels[c, r] == t[c][r]
      {
        assert order + RowsBefore(col, 0, 1) == order;
        var row := 0;
        while row < image.Height()
          invariant 0 <= row <= image.Height()
          invariant order == ColumnsBefore(col, image.Height(), 1) + RowsBefore(col, row, 1)
          invariant forall c, r :: (0 <= c < col && 0 <= r < image.Height()) || (c == col && 0 <= r < row) ==> newImage.pixels[c, r] == t[c][r]
        {
          ProcessPixel(col, row);
          RowsNext(ColumnsBefore(col, image.Height(), 1), col, row, row, 1);
          order := order + [(col, row)];
          row := row + 1;
        }
        ColumnsNext(col, col, row, row, image.Height(), 1);
        col := col + 1;
      }
      AllColumnsDone(col, col, image.Width(), image.Height(), 1);
    }

    /**
     * `processPixel(col, row)`: the convolution at (col, row) is written through `set`,
     * so at the edge-clamped position, and no other pixel changes.
     */
    method ProcessPixel(col: int, row: int)
      requires Valid()
      modifies newImage.pixels
      ensures Valid()
      ensures newImage.pixels[Clamp(col, 0, image.Width() - 1), Clamp(row, 0, image.Height() - 1)] == ConvolvedPixel(image, kernel, col, row)
      ensures forall c, r :: newImage.InRange(c, r) && (c != Clamp(col, 0, image.Width() - 1) || r != Clamp(row, 0, image.Height() - 1)) ==>
        newImage.pixels[c, r] == old(newImage.pixels[c, r])
    {
      var val := ConvolvePixel(image, kernel, col, row);
      Set(col, row, val);
    }

    /**
     * `set(col, row, val)`: coordinates are moved to the nearest edge of the source
     * image, as `get` does, before `newImage` is written; so reading the output back
     * with the sampler at the same coordinates gives `val`.
     */
    method Set(col: int, row: int, val: Pixel)
      requires Valid()
      modifies newImage.pixels
      ensures Valid()
      ensures newImage.pixels[Clamp(col, 0, image.Width() - 1), Clamp(row, 0, image.Height() - 1)] == val
      ensures newImage.Sample(col, row) == val
      ensures forall c, r :: newImage.InRange(c, r) && (c != Clamp(col, 0, image.Width() - 1) || r != Clamp(row, 0, image.Height() - 1)) ==>
        newImage.pixels[c, r] == old(newImage.pixels[c, r])
    {
      var c, r := col, row;
      if c < 0 {
        c := 0;
      }
      if r < 0 {
        r := 0;
      }
      if c >= image.Width() {
        c := image.Width() - 1;
      }
      if r >= image.Height() {
        r := image.Height() - 1;
      }
      newImage.Set(c, r, val);
    }
  }
}
