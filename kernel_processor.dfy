/**
 * `KernelProcessor`: convolves every pixel of an image with a square kernel into a
 * new image of the same size.
 */
module KernelProcessor {
  import opened Pixels
  import opened Raster
  import opened Convolution

  /**
   * `processPixel(col, row, image, newImage, kernel)`: the convolved pixel is written
   * at (col, row) of `newImage` and no other pixel changes.
   */
  method ProcessPixel(col: int, row: int, image: Image, newImage: Image, kernel: array2<real>)
    requires IsKernel(kernel) && image.Width() >= 1 && image.Height() >= 1
    requires newImage.InRange(col, row) && newImage.pixels != image.pixels
    modifies newImage.pixels
    ensures newImage.pixels[col, row] == ConvolvedPixel(image, kernel, col, row)
    ensures forall c, r :: newImage.InRange(c, r) && (c != col || r != row) ==> newImage.pixels[c, r] == old(newImage.pixels[c, r])
  {
    var val := ConvolvePixel(image, kernel, col, row);
    newImage.Set(col, row, val);
  }

  /**
   * `processImage(image, kernel)`: a new image of the same size whose every pixel is
   * the convolution at that position. `image` is only read. `order` lists the
   * positions handed to `processPixel`, one per pixel, columns outermost.
   */
  method ProcessImage(image: Image, kernel: array2<real>) returns (newImage: Image, ghost order: seq<(int, int)>)
    requires IsKernel(kernel) && image.Width() >= 1 && image.Height() >= 1
    ensures fresh(newImage) && fresh(newImage.pixels)
    ensures newImage.Width() == image.Width() && newImage.Height() == image.Height()
    ensures forall c, r :: newImage.InRange(c, r) ==> newImage.pixels[c, r] == ConvolvedPixel(image, kernel, c, r)
    ensures unchanged(image.pixels)
    ensures order == CellOrigins(image.Width(), image.Height(), 1)
  {
    var w, h := image.Width(), image.Height();
    ghost var t := ConvolutionTable(image, kernel);
    newImage := new Image(w, h);
    order := [];
    var col := 0;
    while col < w
      invariant 0 <= col <= w
      invariant order == ColumnsBefore(col, h, 1)
      invariant forall c, r :: 0 <= c < col && 0 <= r < h ==> newImage.pixels[c, r] == t[c][r]
    {
      assert order + RowsBefore(col, 0, 1) == order;
      var row := 0;
      while row < h
        invariant 0 <= row <= h
        invariant order == ColumnsBefore(col, h, 1) + RowsBefore(col, row, 1)
        invariant forall c, r :: (0 <= c < col && 0 <= r < h) || (c == col && 0 <= r < row) ==> newImage.pixels[c, r] == t[c][r]
      {
        ProcessPixel(col, row, image, newImage, kernel);
        RowsNext(ColumnsBefore(col, h, 1), col, row, row, 1);
        order := order + [(col, row)];
        row := row + 1;
      }
      ColumnsNext(col, col, row, row, h, 1);
      col := col + 1;
    }
    AllColumnsDone(col, col, w, h, 1);
  }
}
