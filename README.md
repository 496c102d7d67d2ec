# kernel-image-processing: a Dafny model of the pixel transforms

This project models the pixel-transform core of the Java image toolkit
`kernel-image-processing`, and proves properties of that model. The core is three transforms, the convolution coming in two forms:

- **`KernelProcessor`**: the static convolution. Each pixel becomes the weighted
  sum of an n-by-n window of edge-clamped samples, one sum per colour channel.
  The cast truncates, then the value is clamped to [0, 255].
- **`Processor`**: the same convolution as an object. It has a `kernel`, an
  `image` and a `newImage` field, and its constructor runs `processImage()`.
  Its `set` clamps out-of-range coordinates the way `get` does.
- **`Grayscaler`**: each pixel becomes the gray of its rounded luma,
  0.299 r + 0.587 g + 0.114 b.
- **`Halftoner`**: a black canvas gets one white dot per cell of a grid of step
  `rad`. The dot's diameter is proportional to the summed low bytes of the
  (2·rad+1)² window around the cell origin.

The modules:

- `Numeric`: Java's truncating `int` division by a positive number, the
  saturating `(int)` cast of a double, `Math.round`, `Math.min`/`Math.max`
  clamping and 32-bit wrap-around, all over unbounded integers and exact reals.
- `Pixels`: packed ARGB pixels, read as the unsigned value of Java's `int`.
  Also `new Color(rgb)` and `Color.getRGB()`, and their round trips.
- `Raster`: the `BufferedImage`, as the class `Image` over an `array2`. It has
  the edge-clamping `get` shared by all four files, the in-range `setRGB`, and
  the column-major visit order of pixel and cell origins.
- `Convolution`: the per-pixel convolution as specification functions (`Window`,
  `Dot`, `OutputChannel`, `ConvolvedPixel`). Beside them is the imperative code
  of `processPixel` (`FillWindow`, `Accumulate`, `ConvolvePixel`), proved
  against those functions, and lemmas about delta, identity and normalised kernels.
- `KernelProcessor`, `Processor`, `Grayscaler`, `Halftoner`: one module per
  source class. Each `processImage` loop is a `while` loop proved to produce
  every output pixel (or every fill), in column-major order.

The `Graphics2D` the halftoner draws with is modelled as the class `Canvas`. It
records every `fill` with the paint in force at that moment. The output of
`Halftoner.ProcessImage` is that list of fills, not rasterised pixels.

The model follows the code where it departs from what one might expect:

- The halftoner's grayscale pass (`src/Halftoner.java:21`) does not desaturate
  the image. Its result is discarded, so the dots read the low (blue) byte of the
  original pixels.
- A dot's ellipse has its top-left corner at the cell origin, not its centre
  there (`src/Halftoner.java:51`).
- The window has (2·rad+1)² samples but the divisor is 4·rad²·255, so a cell's
  value is not bounded by 1. On an image whose low bytes are all 255 it is
  (2·rad+1)²/(4·rad²) > 1, and the dot is wider than 2·rad (`BrightCellValue`).
- The convolution casts to `int` first and clamps afterwards (`src/KernelProcessor.java:63-65`).
  Clamping before the cast would give the same bytes (`ClampBeforeCast`); both
  are the floor of the sum clamped to [0, 255] (`ClampedCastIsFloor`).
- Width or height 0 is excluded because a `BufferedImage` cannot be that size,
  and `get` into a 0-wide image would read column -1. `Image` therefore requires
  both to be at least 1.

## Model

| member | source | states |
|---|---|---|
| Numeric.Clamp | src/KernelProcessor.java:63-65 | `Math.min(Math.max(v, lo), hi)` lies in [lo, hi]. It is v inside the range, lo below it and hi above it. |
| Numeric.JavaDiv | src/KernelProcessor.java:43 | Java's `/` by a positive divisor rounds toward zero. For a ≥ 0 the quotient satisfies q·b ≤ a < q·b + b; for a < 0 it satisfies q·b - b < a ≤ q·b ≤ 0. |
| Numeric.Truncate | src/KernelProcessor.java:63-65 | Rounding toward zero: the result is within 1 of x, on x's side of 0. |
| Numeric.DoubleToInt | src/KernelProcessor.java:63-65 | The `(int)` cast of a double is always a 32-bit int. It truncates inside the int range and saturates at IntMin or IntMax beyond it. |
| Numeric.RoundHalfUp | src/Grayscaler.java:60 | `Math.round` returns the integer r with r - 0.5 ≤ x < r + 0.5: the nearest integer, halves rounded up. |
| Numeric.Wrap32 | src/Halftoner.java:50 | A 32-bit product is congruent to the exact one modulo 2³² and lies in the int range. It is the exact product whenever that fits. |
| Numeric.ClampedCastIsFloor | src/KernelProcessor.java:63-65 | Truncating with saturation and then clamping to [0, 255] equals clamping the floor of the sum. |
| Numeric.ClampBeforeCast | src/KernelProcessor.java:63-65 | Clamping the sum to [0, 255] before the `(int)` cast gives the same byte as casting first and clamping after. |
| Numeric.RoundHalfUpOfInteger | src/Grayscaler.java:60 | `Math.round` of an integral value gives that integer. |
| Pixels.FromRGB | src/Grayscaler.java:36 | `new Color(rgb)` keeps the low 24 bits of the pixel and drops its alpha: repacking the colour gives 0xFF000000 plus the pixel's low 24 bits. |
| Pixels.GetRGB | src/KernelProcessor.java:68 | `getRGB()` of an opaque colour has alpha byte 0xFF. Extracting its channels gives the colour's components back. |
| Pixels.UnpackChannels | src/KernelProcessor.java:56-58 | Four bytes packed into a 32-bit value are recovered by the shift-and-mask extraction. |
| Pixels.PixelDecomposes | src/KernelProcessor.java:56-58 | Every pixel equals its alpha, red, green and blue bytes reassembled. |
| Pixels.ColorRoundTrip | src/Grayscaler.java:36 | `new Color(c.getRGB())` is c. |
| Pixels.PixelRoundTrip | src/Grayscaler.java:36 | `new Color(p).getRGB()` is p if and only if p's alpha byte is 0xFF. |
| Raster.Image.constructor | src/KernelProcessor.java:19 | A new image has the requested positive size, fresh storage and every pixel 0. |
| Raster.Image.Get | src/KernelProcessor.java:80-94 | `get` returns the pixel at the coordinates clamped independently to [0, W-1] and [0, H-1]. For in-range coordinates that is the pixel itself. The same code is `get` in `Processor.java` (78-92), `Grayscaler.java` (73-87) and `Halftoner.java` (62-76). |
| Raster.Image.Set | src/KernelProcessor.java:104-106 | `setRGB` at an in-range position writes that pixel. Every other pixel keeps its value. `Grayscaler.set` (`Grayscaler.java` 97-99) is the same code. |
| Raster.Image.EdgeCollapse | src/KernelProcessor.java:80-94 | Every coordinate k beyond an edge reads the edge pixel, and any read equals the read at the clamped coordinates. |
| Raster.CellOriginsExact | src/Halftoner.java:26-27 | The stride loops visit exactly the points whose column and row are multiples of the stride below W and H. Each is visited once, columns outermost, rows increasing. |
| Raster.PixelOrderExact | src/KernelProcessor.java:20-21 | With stride 1 the loops visit every pixel position of the image, and no position twice. |
| Convolution.WindowIndices | src/KernelProcessor.java:43-45 | The window loops start at -(n/2), storing at index 0. The last index is inside the n-by-n sample if and only if n is odd; for even n it is n itself. |
| Convolution.FillWindow | src/KernelProcessor.java:41-47 | After the first double loop, `sample[i][j]` holds the clamped sample at (col + i - n/2, row + j - n/2) for every i, j < n. |
| Convolution.AddEntry | src/KernelProcessor.java:56-58 | One step of the dot product adds each channel of entry (i, j), weighed by `kernel[i][j]`, to its running sum. |
| Convolution.Accumulate | src/KernelProcessor.java:49-60 | The second double loop computes, per channel, the full weighted sum over the window, the kernel unflipped. |
| Convolution.ConvolvePixel | src/KernelProcessor.java:39-68 | The value `processPixel` computes is the convolved pixel: the three sums truncated, clamped to [0, 255] and packed as opaque. `Processor.processPixel` computes the same value (`Processor.java` 50-74). |
| Convolution.OutputChannelClamps | src/KernelProcessor.java:63-65 | Each output channel is the clamped floor of its sum: the floor on [0, 256), 0 below 0 and 255 from 255 up. |
| Convolution.ConvolvedPixelChannels | src/KernelProcessor.java:63-68 | The written pixel is opaque, and each of its channels is the clamped sum of that channel. |
| Convolution.DeltaKernel | src/KernelProcessor.java:54-60 | A kernel with a single 1 at (a, b) copies the sample at column offset a - n/2 and row offset b - n/2, made opaque. So the kernel is applied unflipped, its first index along columns. |
| Convolution.IdentityKernel | src/KernelProcessor.java:39-69 | The centred delta kernel keeps every pixel's red, green and blue and makes it opaque. An opaque pixel is left unchanged. |
| Convolution.NormalisedKernelOnUniformImage | src/KernelProcessor.java:49-68 | A kernel whose weights sum to 1 maps an image of one colour to that colour, opaque, everywhere. |
| KernelProcessor.ProcessPixel | src/KernelProcessor.java:39-70 | The convolved pixel is written at (col, row) of the output image. No other pixel changes. |
| KernelProcessor.ProcessImage | src/KernelProcessor.java:18-26 | The result is a new image of the input's size whose every pixel is the convolution at its position. The input is unchanged, and `processPixel` is called once per position, column-major. |
| Processor.Processor.constructor | src/Processor.java:26-28 | Once the kernel and image are read, the new image is of the same size and separate from the input, and every pixel of it is convolved. |
| Processor.Processor.ProcessImage | src/Processor.java:42-48 | Every pixel of `newImage` becomes the convolution at its position. The input is unchanged, and the visits are once per position, column-major. |
| Processor.Processor.ProcessPixel | src/Processor.java:50-76 | The convolution at (col, row) is written at the clamped position. No other pixel changes. |
| Processor.Processor.Set | src/Processor.java:94-108 | `set` writes at the position clamped against the source image's size, so sampling the output at (col, row) returns the value. No other pixel changes. |
| Grayscaler.Intensity | src/Grayscaler.java:45-51 | The intensity lies between the smallest and the largest channel, so within [0, 255]. |
| Grayscaler.IntensityIsLuma | src/Grayscaler.java:49-50 | The shortcut for r = g = b agrees with the luma formula: in exact arithmetic it changes nothing. |
| Grayscaler.Grayscale | src/Grayscaler.java:59-63 | The result is gray, its value within 0.5 of the intensity and between the smallest and largest channel. So no clamp is ever needed. |
| Grayscaler.GrayscaleIsRoundedLuma | src/Grayscaler.java:59-63 | Every channel of the result is `Math.round(0.299 r + 0.587 g + 0.114 b)`. |
| Grayscaler.GrayFixedPoint | src/Grayscaler.java:49-61 | A gray colour is left unchanged. |
| Grayscaler.GrayscaleIdempotent | src/Grayscaler.java:59-63 | Grayscaling twice is the same as grayscaling once. |
| Grayscaler.GrayscaleExamples | src/Grayscaler.java:50-61 | Pure red, green, blue and white give 76, 150, 29 and 255. |
| Grayscaler.GrayPixelChannels | src/Grayscaler.java:36 | The written pixel is opaque, and all three of its channels carry the rounded luma of the input pixel. |
| Grayscaler.GrayPixelIdempotent | src/Grayscaler.java:36 | Grayscaling an output pixel again gives it back unchanged. |
| Grayscaler.OpaqueGrayFixedPoint | src/Grayscaler.java:36 | An opaque gray input pixel is written back unchanged. |
| Grayscaler.ProcessPixel | src/Grayscaler.java:35-37 | The gray of the clamped input pixel is written at (col, row). No other pixel changes. |
| Grayscaler.ProcessImage | src/Grayscaler.java:17-25 | The result is a new image of the input's size whose every pixel is the gray of the input pixel there. The input is unchanged, and the visits are once per position, column-major. |
| Halftoner.Canvas.constructor | src/Halftoner.java:22 | `createGraphics()` has drawn nothing yet and paints white by default. |
| Halftoner.Canvas.SetColor | src/Halftoner.java:23 | `setColor` changes the paint and nothing drawn so far. |
| Halftoner.Canvas.FillShape | src/Halftoner.java:24 | `fill` appends the shape in the current paint after everything drawn before. |
| Halftoner.ColumnSumBounds | src/Halftoner.java:46-47 | A window column sums to between 0 and 255 per sample. |
| Halftoner.WindowSumBounds | src/Halftoner.java:45-49 | The window sums to between 0 and 255 per sample, over its (2·rad+1)² samples. |
| Halftoner.UniformWindowSum | src/Halftoner.java:45-49 | If every low byte is b, the window sum is b times the number of samples visited. |
| Halftoner.ProcessPixel | src/Halftoner.java:43-52 | The loops add up the low bytes of the clamped window and divide by 4·rad²·255. A dot of that value is appended in the paint in force; the paint is unchanged. |
| Halftoner.CellValueBounds | src/Halftoner.java:44-50 | A cell's value lies in [0, (2·rad+1)²/(4·rad²)]. |
| Halftoner.DotBounds | src/Halftoner.java:51 | Each dot is a circle whose bounding box has its corner at the cell origin, with a diameter in [0, (2·rad+1)²/(2·rad)]. |
| Halftoner.BrightCellValue | src/Halftoner.java:44-50 | If every low byte is 255, a cell's value is (2·rad+1)²/(4·rad²), which is above 1. |
| Halftoner.DarkImageDots | src/Halftoner.java:44-51 | If every low byte is 0, every dot has width and height 0 (the fills are recorded, not drawn: see "Rasterisation" under Left out). |
| Halftoner.DotsSnoc | src/Halftoner.java:26-28 | Visiting one more cell origin appends exactly its white dot. |
| Halftoner.ProcessImage | src/Halftoner.java:19-32 | The result is a new image of the input's size, drawn by the returned canvas. Its fills are the black background rectangle, then the white dot of every cell origin in column-major order. The input is unchanged. |
| Halftoner.Divisor | src/Halftoner.java:50 | The exact normaliser 4·rad²·255 is positive, at least 1020, for every rad other than 0, so the division is always defined. |
| Halftoner.DivisorAsWrittenAgrees | src/Halftoner.java:50 | For 0 ≤ rad ≤ 1450, the divisor computed in wrapping 32-bit arithmetic is the exact 4·rad²·255. |
| Halftoner.DivisorOverflows | src/Halftoner.java:50 | At rad = 1451 the 32-bit divisor is negative, and at rad = 32768 it is 0. The exact values are positive. |

## Left out

- Floating point: `float` (in `Processor`) and `double` (elsewhere) are exact reals. Rounding of the weighted sums, the luma and the halftone value is not modelled, and neither is the precision difference between the two convolutions.
- Pixel storage: the colour model of `getType()` and the conversion `setRGB` performs for it are not modelled. `Processor`'s output is treated like the ARGB images of the other classes.
- Rasterisation: the `Graphics2D` fills are recorded on a `Canvas`, not drawn, and the halftoner's returned image keeps its initial pixels. The canvas's default paint, white, is overwritten before use and does not matter.
- I/O: the `Processor` constructor's reading of the kernel file and the image (`src/Processor.java:14-25`), the `JPanel`, `run` and `main` are not modelled. Kernel parsing and the error when a line is short are not modelled either. The constructor starts once the kernel and the image are in hand.
- `WebcamProcessor` (camera capture, timer, mode switch) is not part of this model.
- Raster.Image.Set: requires an in-range position. `setRGB` throws outside the image, and the static `set` methods never receive such a position from their loops.
- Raster.Image.constructor: requires a positive size. `new BufferedImage` rejects 0, and a 0-sized input would make `get` read outside the image.
- Convolution.FillWindow: requires an odd kernel size. The source stores at index n for even sizes and throws; that case is described by `WindowIndices` and not run through.
- Convolution.Accumulate: the loop that adds one entry (`AddEntry`) is a separate method. This is only a split of the same loop body.
- Loop counters and sizes are unbounded integers. 32-bit overflow of `col + x`, `row + y`, `2 * rad` and `col += rad` is not modelled; only the halftone divisor's overflow is (see Findings).
- Halftoner.ProcessImage: requires rad ≥ 1. With rad = 0, `col += rad` and `row += rad` (`src/Halftoner.java:26-27`) never advance, so `processImage` does not terminate; the `double` division on line 50 gives Infinity or NaN and throws nothing. A negative rad moves `col` downwards, and the loop ends only when the 32-bit counter wraps around, which unbounded counters do not capture. `Halftoner.set` (`src/Halftoner.java:86-88`) is never called and is not modelled.
- Halftoner.ProcessPixel: divides by the exact divisor 4·rad²·255, not by its 32-bit value; the two agree for rad ≤ 1450.
- Grayscaler.Grayscale: `Math.round` returns a `long`, cast to `int`. The result lies in [0, 255], so the cast changes nothing and is not modelled.

## Findings

| source | as written | input that shows it | evidently intended | confidence | as-written member | corrected member |
|---|---|---|---|---|---|---|
| src/Halftoner.java:50 | `4 * rad * rad * 255` is evaluated in 32-bit `int` and wraps around | rad = 1451 gives -2147458276 (every dot gets a non-positive size); rad = 32768 gives 0 (division by zero gives infinity or NaN) | the exact divisor 4·rad²·255, positive for every rad ≥ 1 | low: rad that large exceeds any image; not executed | Halftoner.DivisorOverflows | Halftoner.Divisor |
