/**
 * The per-pixel convolution shared by `KernelProcessor.processPixel` and
 * `Processor.processPixel`: an n-by-n window of edge-clamped samples, a weighted
 * sum per channel (cross-correlation, kernel not flipped, first kernel index
 * paired with the column offset), Java's truncating cast, a clamp to [0, 255],
 * and an opaque repack.
 */
module Convolution {
  import opened Numeric
  import opened Pixels
  import opened Raster

  /** A kernel the window loops can index: square with an odd side. */
  predicate IsKernel(kernel: array2<real>)
  {
    kernel.Length0 == kernel.Length1 && kernel.Length0 % 2 == 1
  }

  /** The first offset of the window loops, `-1 * n / 2` with Java's division. */
  function WindowStart(n: nat): int
  {
    JavaDiv(-1 * n, 2)
  }

  /** The last offset of the window loops, `n / 2`. */
  function WindowEnd(n: nat): int
  {
    n / 2
  }

  /**
   * The window loops run the offsets WindowStart(n)..WindowEnd(n) and store at
   * offset + n/2. The first index is 0; the last is inside an n-by-n array exactly
   * when n is odd, and is n itself when n is even.
   */
  lemma WindowIndices(n: nat)
    ensures WindowStart(n) == -(n / 2)
    ensures WindowStart(n) + n / 2 == 0
    ensures WindowEnd(n) + n / 2 < n <==> n % 2 == 1
    ensures n % 2 == 0 ==> WindowEnd(n) + n / 2 == n
  {
  }

  /** Whether `w` is an n-by-n grid, indexed `w[i][j]`. */
  predicate IsSquare<T>(w: seq<seq<T>>, n: nat)
  {
    |w| == n && forall i :: 0 <= i < n ==> |w[i]| == n
  }

  /**
   * The colours of the n-by-n window around (col, row): entry (i, j) is the colour
   * of the clamped sample at column col + i - n/2 and row row + j - n/2.
   */
  function Window(image: Image, n: nat, col: int, row: int): (w: seq<seq<Color>>)
    reads image.pixels
    requires image.Width() >= 1 && image.Height() >= 1
    ensures IsSquare(w, n)
    ensures forall i, j :: 0 <= i < n && 0 <= j < n ==> w[i][j] == FromRGB(image.Sample(col + i - n / 2, row + j - n / 2))
  {
    seq(n, i requires 0 <= i < n reads image.pixels =>
      seq(n, j requires 0 <= j < n reads image.pixels => FromRGB(image.Sample(col + i - n / 2, row + j - n / 2))))
  }

  /** The weighted channel values of entries (i, 0) .. (i, j - 1): kernel[i, j] weighs w[i][j]. */
  function RowDot(ch: Channel, w: seq<seq<Color>>, kernel: array2<real>, i: nat, j: nat): real
    reads kernel
    requires IsKernel(kernel) && IsSquare(w, kernel.Length0)
    requires i < kernel.Length0 && j <= kernel.Length0
  {
    if j == 0 then 0.0 else RowDot(ch, w, kernel, i, j - 1) + Component(w[i][j - 1], ch) as real * kernel[i, j - 1]
  }

  /** The weighted channel values of the whole rows 0 .. i - 1. */
  function Dot(ch: Channel, w: seq<seq<Color>>, kernel: array2<real>, i: nat): real
    reads kernel
    requires IsKernel(kernel) && IsSquare(w, kernel.Length0)
    requires i <= kernel.Length0
  {
    if i == 0 then 0.0 else Dot(ch, w, kernel, i - 1) + RowDot(ch, w, kernel, i - 1, kernel.Length0)
  }

  /** The exact weighted sum of one channel over the window around (col, row). */
  function ChannelSum(ch: Channel, image: Image, kernel: array2<real>, col: int, row: int): real
    reads image.pixels, kernel
    requires IsKernel(kernel)
    requires image.Width() >= 1 && image.Height() >= 1
  {
    Dot(ch, Window(image, kernel.Length0, col, row), kernel, kernel.Length0)
  }

  /** `Math.min(Math.max((int) sum, 0), 255)`: the byte the sum of one channel is brought to. */
  function OutputChannel(ch: Channel, image: Image, kernel: array2<real>, col: int, row: int): Byte
    reads image.pixels, kernel
    requires IsKernel(kernel)
    requires image.Width() >= 1 && image.Height() >= 1
  {
    Clamp(DoubleToInt(ChannelSum(ch, image, kernel, col, row)), 0, 255)
  }

  /** The pixel `processPixel` writes at (col, row): the three output channels, repacked. */
  function ConvolvedPixel(image: Image, kernel: array2<real>, col: int, row: int): Pixel
    reads image.pixels, kernel
    requires IsKernel(kernel)
    requires image.Width() >= 1 && image.Height() >= 1
  {
    GetRGB(Color(OutputChannel(Red, image, kernel, col, row),
                 OutputChannel(Green, image, kernel, col, row),
                 OutputChannel(Blue, image, kernel, col, row)))
  }

  /**
   * Each output channel is the sum rounded down and clamped to [0, 255]: the sum's
   * floor when it lies in [0, 256), 0 below 0 and 255 from 255 up.
   */
  lemma OutputChannelClamps(ch: Channel, image: Image, kernel: array2<real>, col: int, row: int)
    requires IsKernel(kernel)
    requires image.Width() >= 1 && image.Height() >= 1
    ensures var sum, b := ChannelSum(ch, image, kernel, col, row), OutputChannel(ch, image, kernel, col, row);
      b == Clamp(sum.Floor, 0, 255) &&
      (0.0 <= sum < 256.0 ==> b == sum.Floor) &&
      (sum < 0.0 ==> b == 0) &&
      (255.0 <= sum ==> b == 255)
  {
    ClampedCastIsFloor(ChannelSum(ch, image, kernel, col, row));
  }

  /**
   * The written pixel is opaque, and unpacking it with the shifts and masks of the
   * accumulation loop gives back the three clamped channels.
   */
  lemma ConvolvedPixelChannels(image: Image, kernel: array2<real>, col: int, row: int)
    requires IsKernel(kernel)
    requires image.Width() >= 1 && image.Height() >= 1
    ensures var p := ConvolvedPixel(image, kernel, col, row);
      Alpha(p) == 0xFF && forall ch :: ChannelOf(ch, p) == OutputChannel(ch, image, kernel, col, row)
  {
  }

  /**
   * The first pair of loops of `processPixel`: `sample[i][j]` holds the clamped
   * sample at column col + i - n/2 and row row + j - n/2, for every i, j in [0, n).
   * An even n would store at index n, outside the array, so n must be odd.
   */
  method FillWindow(image: Image, n: nat, col: int, row: int) returns (sample: array2<Pixel>)
    requires n % 2 == 1
    requires image.Width() >= 1 && image.Height() >= 1
    ensures fresh(sample)
    ensures sample.Length0 == n && sample.Length1 == n
    ensures forall i, j :: 0 <= i < n && 0 <= j < n ==>
      sample[i, j] == image.Sample(col + i - n / 2, row + j - n / 2)
  {
    WindowIndices(n);
    sample := new Pixel[n, n]((i, j) => 0);
    var x := WindowStart(n);
    while x <= WindowEnd(n)
      invariant -(n / 2) <= x <= n / 2 + 1
      invariant forall i, j :: 0 <= i < x + n / 2 && 0 <= j < n ==>
        sample[i, j] == image.Sample(col + i - n / 2, row + j - n / 2)
    {
      var y := WindowStart(n);
      ghost var ix := x + n / 2;
      while y <= WindowEnd(n)
        invariant -(n / 2) <= y <= n / 2 + 1
        invariant forall i, j :: 0 <= i < ix && 0 <= j < n ==>
          sample[i, j] == image.Sample(col + i - n / 2, row + j - n / 2)
        invariant forall j :: 0 <= j < y + n / 2 ==>
          sample[ix, j] == image.Sample(col + x, row + j - n / 2)
      {
        var p := image.Get(col + x, row + y);
        sample[x + n / 2, y + n / 2] := p;
        y := y + 1;
      }
      x := x + 1;
    }
  }

  /** Whether `w` holds the colour of every entry of the n-by-n array `sample`. */
  ghost predicate Decodes(w: seq<seq<Color>>, sample: array2<Pixel>)
    reads sample
  {
    IsSquare(w, sample.Length0) && sample.Length1 == sample.Length0 &&
    forall i, j {:trigger FromRGB(sample[i, j])} :: 0 <= i < sample.Length0 && 0 <= j < sample.Length0 ==>
      FromRGB(sample[i, j]) == w[i][j]
  }

  /**
   * The body of the dot-product loop: entry (i, j) of the sample, weighed by k, is
   * added to each running sum, its bytes taken as `(s >> 16) & 0xff`, `(s >> 8) & 0xff`
   * and `s & 0xff`.
   */
  method AddEntry(sample: array2<Pixel>, i: nat, j: nat, k: real, ghost w: seq<seq<Color>>,
                  red0: real, green0: real, blue0: real) returns (red: real, green: real, blue: real)
    requires Decodes(w, sample) && i < sample.Length0 && j < sample.Length0
    ensures red == red0 + Component(w[i][j], Red) as real * k
    ensures green == green0 + Component(w[i][j], Green) as real * k
    ensures blue == blue0 + Component(w[i][j], Blue) as real * k
  {
    var s := sample[i, j];
    assert FromRGB(s) == w[i][j];
    red := red0 + ((s / 0x10000) % 0x100) as real * k;
    green := green0 + ((s / 0x100) % 0x100) as real * k;
    blue := blue0 + (s % 0x100) as real * k;
  }

  /**
   * The second pair of loops of `processPixel`: the weighted sums of the red, green
   * and blue bytes of the sample, accumulated row by row; `w` is the sample decoded.
   */
  method Accumulate(sample: array2<Pixel>, kernel: array2<real>, ghost w: seq<seq<Color>>)
    returns (red: real, green: real, blue: real)
    requires IsKernel(kernel) && sample.Length0 == kernel.Length0 && Decodes(w, sample)
    ensures red == Dot(Red, w, kernel, kernel.Length0)
    ensures green == Dot(Green, w, kernel, kernel.Length0)
    ensures blue == Dot(Blue, w, kernel, kernel.Length0)
  {
    var n := kernel.Length0;
    red, green, blue := 0.0, 0.0, 0.0;
    var i := 0;
    while i < n
      invariant 0 <= i <= n
      invariant red == Dot(Red, w, kernel, i) && green == Dot(Green, w, kernel, i) && blue == Dot(Blue, w, kernel, i)
    {
      var j := 0;
      while j < n
        invariant 0 <= j <= n
        invariant red == Dot(Red, w, kernel, i) + RowDot(Red, w, kernel, i, j)
        invariant green == Dot(Green, w, kernel, i) + RowDot(Green, w, kernel, i, j)
        invariant blue == Dot(Blue, w, kernel, i) + RowDot(Blue, w, kernel, i, j)
      {
        red, green, blue := AddEntry(sample, i, j, kernel[i, j], w, red, green, blue);
        j := j + 1;
      }
      i := i + 1;
    }
  }

  /**
   * The value `processPixel` computes for (col, row) before writing it: the window
   * fill, the dot products, the clamp and the repack.
   */
  method ConvolvePixel(image: Image, kernel: array2<real>, col: int, row: int) returns (val: Pixel)
    requires IsKernel(kernel)
    requires image.Width() >= 1 && image.Height() >= 1
    ensures val == ConvolvedPixel(image, kernel, col, row)
  {
    var n := kernel.Length0;
    var sample := FillWindow(image, n, col, row);
    ghost var w := Window(image, n, col, row);
    assert Decodes(w, sample);
    var red, green, blue := Accumulate(sample, kernel, w);
    var r := Clamp(DoubleToInt(red), 0, 255);
    var g := Clamp(DoubleToInt(green), 0, 255);
    var b := Clamp(DoubleToInt(blue), 0, 255);
    val := GetRGB(Color(r, g, b));
  }

  /** A kernel that is 1 at (a, b) and 0 everywhere else. */
  predicate IsDelta(kernel: array2<real>, a: nat, b: nat)
    reads kernel
  {
    forall i, j :: 0 <= i < kernel.Length0 && 0 <= j < kernel.Length1 ==>
      kernel[i, j] == if i == a && j == b then 1.0 else 0.0
  }

  lemma {:induction false} DeltaRowDot(ch: Channel, w: seq<seq<Color>>, kernel: array2<real>, a: nat, b: nat, i: nat, j: nat)
    requires IsKernel(kernel) && IsSquare(w, kernel.Length0)
    requires a < kernel.Length0 && b < kernel.Length0 && IsDelta(kernel, a, b)
    requires i < kernel.Length0 && j <= kernel.Length0
    ensures RowDot(ch, w, kernel, i, j) == if i == a && b < j then Component(w[a][b], ch) as real else 0.0
  {
    if j > 0 {
      DeltaRowDot(ch, w, kernel, a, b, i, j - 1);
    }
  }

  lemma {:induction false} DeltaDot(ch: Channel, w: seq<seq<Color>>, kernel: array2<real>, a: nat, b: nat, i: nat)
    requires IsKernel(kernel) && IsSquare(w, kernel.Length0)
    requires a < kernel.Length0 && b < kernel.Length0 && IsDelta(kernel, a, b)
    requires i <= kernel.Length0
    ensures Dot(ch, w, kernel, i) == if a < i then Component(w[a][b], ch) as real else 0.0
  {
    if i > 0 {
      DeltaDot(ch, w, kernel, a, b, i - 1);
      DeltaRowDot(ch, w, kernel, a, b, i - 1, kernel.Length0);
    }
  }

  /**
   * A kernel with a single 1 at (a, b) copies the red, green and blue of the clamped
   * sample at column offset a - n/2 and row offset b - n/2: the kernel is not flipped,
   * and its first index moves along columns.
   */
  lemma DeltaKernel(image: Image, kernel: array2<real>, col: int, row: int, a: nat, b: nat)
    requires IsKernel(kernel) && image.Width() >= 1 && image.Height() >= 1
    requires a < kernel.Length0 && b < kernel.Length0 && IsDelta(kernel, a, b)
    ensures var h := kernel.Length0 / 2;
      ConvolvedPixel(image, kernel, col, row) == GetRGB(FromRGB(image.Sample(col + a - h, row + b - h)))
  {
    var n := kernel.Length0;
    var p := image.Sample(col + a - n / 2, row + b - n / 2);
    var w := Window(image, n, col, row);
    forall ch
      ensures OutputChannel(ch, image, kernel, col, row) == ChannelOf(ch, p)
    {
      DeltaDot(ch, w, kernel, a, b, n);
    }
    assert Color(OutputChannel(Red, image, kernel, col, row),
                 OutputChannel(Green, image, kernel, col, row),
                 OutputChannel(Blue, image, kernel, col, row)) == FromRGB(p);
  }

  /**
   * The identity kernel (1 at the centre, or the 1-by-1 kernel [[1]]) keeps every
   * in-range pixel's red, green and blue and makes it opaque; an opaque pixel comes
   * back unchanged.
   */
  lemma IdentityKernel(image: Image, kernel: array2<real>, col: int, row: int)
    requires IsKernel(kernel) && image.InRange(col, row)
    requires IsDelta(kernel, kernel.Length0 / 2, kernel.Length0 / 2)
    ensures var p := ConvolvedPixel(image, kernel, col, row);
      Alpha(p) == 0xFF && forall ch :: ChannelOf(ch, p) == ChannelOf(ch, image.pixels[col, row])
    ensures Alpha(image.pixels[col, row]) == 0xFF ==> ConvolvedPixel(image, kernel, col, row) == image.pixels[col, row]
  {
    var h := kernel.Length0 / 2;
    DeltaKernel(image, kernel, col, row, h, h);
    PixelRoundTrip(image.pixels[col, row]);
  }

  /** The sum of the weights (i, 0) .. (i, j - 1). */
  function WeightRowSum(kernel: array2<real>, i: nat, j: nat): real
    reads kernel
    requires IsKernel(kernel) && i < kernel.Length0 && j <= kernel.Length0
  {
    if j == 0 then 0.0 else WeightRowSum(kernel, i, j - 1) + kernel[i, j - 1]
  }

  /** The sum of the weights in rows 0 .. i - 1. */
  function WeightSum(kernel: array2<real>, i: nat): real
    reads kernel
    requires IsKernel(kernel) && i <= kernel.Length0
  {
    if i == 0 then 0.0 else WeightSum(kernel, i - 1) + WeightRowSum(kernel, i - 1, kernel.Length0)
  }

  /** Whether every pixel of the image is `p`. */
  predicate Uniform(image: Image, p: Pixel)
    reads image.pixels
  {
    forall c, r :: 0 <= c < image.Width() && 0 <= r < image.Height() ==> image.pixels[c, r] == p
  }

  lemma {:induction false} UniformRowDot(ch: Channel, w: seq<seq<Color>>, kernel: array2<real>, c: Color, i: nat, j: nat)
    requires IsKernel(kernel) && IsSquare(w, kernel.Length0)
    requires forall i', j' :: 0 <= i' < kernel.Length0 && 0 <= j' < kernel.Length0 ==> w[i'][j'] == c
    requires i < kernel.Length0 && j <= kernel.Length0
    ensures RowDot(ch, w, kernel, i, j) == Component(c, ch) as real * WeightRowSum(kernel, i, j)
  {
    if j > 0 {
      UniformRowDot(ch, w, kernel, c, i, j - 1);
      var v := Component(c, ch) as real;
      assert v * WeightRowSum(kernel, i, j - 1) + v * kernel[i, j - 1] == v * (WeightRowSum(kernel, i, j - 1) + kernel[i, j - 1]);
    }
  }

  lemma {:induction false} UniformDot(ch: Channel, w: seq<seq<Color>>, kernel: array2<real>, c: Color, i: nat)
    requires IsKernel(kernel) && IsSquare(w, kernel.Length0)
    requires forall i', j' :: 0 <= i' < kernel.Length0 && 0 <= j' < kernel.Length0 ==> w[i'][j'] == c
    requires i <= kernel.Length0
    ensures Dot(ch, w, kernel, i) == Component(c, ch) as real * WeightSum(kernel, i)
  {
    if i > 0 {
      UniformDot(ch, w, kernel, c, i - 1);
      UniformRowDot(ch, w, kernel, c, i - 1, kernel.Length0);
      var v := Component(c, ch) as real;
      assert v * WeightSum(kernel, i - 1) + v * WeightRowSum(kernel, i - 1, kernel.Length0) == v * (WeightSum(kernel, i - 1) + WeightRowSum(kernel, i - 1, kernel.Length0));
    }
  }

  /**
   * A kernel whose weights sum to 1 (a box blur with all weights 1/n^2, say) maps a
   * uniform image to the same colour, made opaque, everywhere (over exact reals).
   */
  lemma NormalisedKernelOnUniformImage(image: Image, kernel: array2<real>, col: int, row: int, p: Pixel)
    requires IsKernel(kernel) && image.Width() >= 1 && image.Height() >= 1
    requires Uniform(image, p) && WeightSum(kernel, kernel.Length0) == 1.0
    ensures ConvolvedPixel(image, kernel, col, row) == GetRGB(FromRGB(p))
  {
    var n := kernel.Length0;
    var w := Window(image, n, col, row);
    forall i, j | 0 <= i < n && 0 <= j < n
      ensures w[i][j] == FromRGB(p)
    {
      var c, r := Clamp(col + i - n / 2, 0, image.Width() - 1), Clamp(row + j - n / 2, 0, image.Height() - 1);
      assert image.Sample(col + i - n / 2, row + j - n / 2) == image.pixels[c, r];
    }
    forall ch
      ensures OutputChannel(ch, image, kernel, col, row) == ChannelOf(ch, p)
    {
      UniformDot(ch, w, kernel, FromRGB(p), n);
    }
    assert Color(OutputChannel(Red, image, kernel, col, row),
                 OutputChannel(Green, image, kernel, col, row),
                 OutputChannel(Blue, image, kernel, col, row)) == FromRGB(p);
  }

  /** Whether `t[c][r]` is the convolution at (c, r) for every position of the image. */
  ghost predicate IsConvolution(t: seq<seq<Pixel>>, image: Image, kernel: array2<real>)
    reads image.pixels, kernel
    requires IsKernel(kernel) && image.Width() >= 1 && image.Height() >= 1
  {
    |t| == image.Width() && (forall c :: 0 <= c < image.Width() ==> |t[c]| == image.Height()) &&
    forall c, r {:trigger ConvolvedPixel(image, kernel, c, r)} :: image.InRange(c, r) ==> t[c][r] == ConvolvedPixel(image, kernel, c, r)
  }

  /** The table of every convolved pixel of the image. */
  lemma ConvolutionTable(image: Image, kernel: array2<real>) returns (t: seq<seq<Pixel>>)
    requires IsKernel(kernel) && image.Width() >= 1 && image.Height() >= 1
    ensures IsConvolution(t, image, kernel)
  {
    t := seq(image.Width(), c requires 0 <= c < image.Width() reads image.pixels, kernel =>
      seq(image.Height(), r requires 0 <= r < image.Height() reads image.pixels, kernel => ConvolvedPixel(image, kernel, c, r)));
  }
}
