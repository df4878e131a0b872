# Image filters of helpers.c, in Dafny

This project models the four bitmap filters of `helpers.c` and proves what they
compute. The filters are grayscale, reflect, blur and edges, together with their
helpers `makecopy` and `compute`. An image is a height × width array of
RGBTRIPLE pixels, each with three 8-bit channels.

- `image.dfy` (module `Image`) holds pixels (`Pixel` over `Byte`), channels,
  grids and `View`. A grid (`Grid`) is a value: a sequence of rows. `View` gives
  an `array2<Pixel>`'s contents as a grid.
- `rounding.dfy` (module `Rounding`) states the float rounding of the C code as
  exact integer arithmetic.
  - `round` of the floating-point quotient n / d becomes `RoundHalfUp`, defined
    by a floor division.
  - `round(sqrt(n))` becomes `RoundSqrt`, built on an integer square root.
  - Lemmas characterise both: `RoundHalfUp(n, d)` is the unique r with
    d(2r − 1) ≤ 2n < d(2r + 1). `RoundSqrt` is the integer nearest to √n
    (`NearestRoot`).
- `filters.dfy` (module `Filters`) says what each filter computes as a function
  on grids:
  - `GrayscaleGrid`, `ReflectGrid`, `BlurGrid` and `EdgesGrid`;
  - the window accumulators of the blur and edges loops;
  - the Sobel kernels `GX` and `GY`;
  - `Compute`, which models `compute`.
- `helpers.dfy` (module `Helpers`) holds the C functions as imperative methods
  on `array2<Pixel>`, with the same loops, border test and snapshot copy.
  - Each method is proved to leave the image equal to its grid function applied
    to the image as it was on entry.
  - `Blur` and `Edges` take `allocOk`, the outcome of `calloc`. When it is false
    they leave the image untouched.
- `filterlemmas.dfy` (module `FilterLemmas`) proves the filters' properties:
  - grayscale is idempotent;
  - reflect is an involution and keeps the centre column;
  - blur is a rounded mean over 1 to 9 cells and keeps uniform and 1 × 1
    images;
  - the Sobel sums Gx and Gy stay within ±1020, so `compute` cannot overflow;
  - edges turns every interior pixel of a uniform image black. A uniform image
    of a single row also turns black at its inner pixels. With two rows or
    more, the inner top-row pixels get a non-zero edge in every channel that
    is not 0.

## Model

| member | source | states |
|---|---|---|
| Rounding.QuotientBounds | helpers.c:19 | `Quotient(x, y)` is floor(x / y): y·q ≤ x < y·q + y |
| Rounding.RoundHalfUpBounds | helpers.c:84-86 | `RoundHalfUp(n, d)` lies within half a step of n/d: d(2r−1) ≤ 2n < d(2r+1); the mean of values that are all at most 255 is at most 255 |
| Rounding.RoundHalfUpUnique | helpers.c:19 | any r within half a step of n/d equals `RoundHalfUp(n, d)`, so `round` of a non-negative quotient is determined |
| Rounding.SquareRootIsRoot | helpers.c:160 | the integer square root leaves a rest: root² + rest = n and rest ≤ 2·root |
| Rounding.FloorSqrtBounds | helpers.c:160 | `FloorSqrt(n)` is floor(√n): s² ≤ n < (s+1)² |
| Rounding.RoundSqrtBounds | helpers.c:160 | `RoundSqrt(n)` is round(√n): (2r−1)² ≤ 4n < (2r+1)², with r = 0 allowed at n = 0 |
| Filters.Gray | helpers.c:19-23 | the new pixel has red = green = blue, and that value is the mean of the three old channels rounded half up |
| Filters.GrayscaleGrid | helpers.c:14-23 | same shape as the input; each cell is `Gray` of the same cell and of no other, hence gray and the rounded mean of its own channels |
| Filters.Mirror | helpers.c:35-40 | same length; position j holds the old position width − 1 − j |
| Filters.ReflectGrid | helpers.c:33-40 | same number of rows; every row is its mirror image |
| Filters.RowBounds | helpers.c:68-80 | one window row counts at most l cells, at least 1 when its centre is in the grid, and sums to between 0 and 255 · count |
| Filters.WindowBounds | helpers.c:66-80 | the window counts at most 3k cells, at least 1 when its centre is in the grid, and sums to between 0 and 255 · count |
| Filters.BlurGrid | helpers.c:59-86 | same shape; every cell is blurred over the unchanged input, not over cells already overwritten |
| Filters.EdgesGrid | helpers.c:109-138 | same shape; every cell's Sobel value is computed over the unchanged input |
| Filters.SquarePositive | helpers.c:160 | gx·gx is non-negative and zero only for gx = 0, so `sqrt` gets a non-negative argument |
| Filters.CappedRootIsNearest | helpers.c:160-165 | below 255 the capped root is round(√n); it is 255 exactly when √n ≥ 254.5; it is 0 exactly when n = 0 |
| Filters.ComputeIsRoundedMagnitude | helpers.c:158-166 | `compute` is in [0, 255]; below 255 it is the integer nearest to √(gx²+gy²); it is 255 exactly when that root is at least 254.5; it is 0 exactly when gx = gy = 0 |
| Helpers.Grayscale | helpers.c:11-27 | the image afterwards is `GrayscaleGrid` of the image before |
| Helpers.Reflect | helpers.c:30-44 | the image afterwards is `ReflectGrid` of the image before |
| Helpers.MirrorRow | helpers.c:35-41 | swapping over the first width/2 columns mirrors row i and leaves every other row alone |
| Helpers.MakeCopy | helpers.c:146-156 | the copy equals the image, and the image is unchanged |
| Helpers.Blur | helpers.c:47-91 | the result equals `allocOk`; if allocation fails the image is unchanged; otherwise the image becomes `BlurGrid` of the image before |
| Helpers.BlurRows | helpers.c:59-88 | every pixel of the image is written with the blur of the snapshot at that pixel |
| Helpers.BlurPixel | helpers.c:63-86 | over the three window rows the accumulators reach the full window count and sums; the pixel is their rounded means, i.e. `BlurAt` of the snapshot |
| Helpers.BlurRow | helpers.c:68-81 | one pass of the inner loop adds exactly the in-bounds cells of window row k to the count and to the three channel sums |
| Helpers.Edges | helpers.c:94-143 | the result equals `allocOk`; if allocation fails the image is unchanged; otherwise the image becomes `EdgesGrid` of the image before |
| Helpers.EdgesRows | helpers.c:109-140 | every pixel of the image is written with the Sobel value of the snapshot at that pixel |
| Helpers.EdgesPixel | helpers.c:113-138 | the six Gx/Gy accumulators reach the full kernel sums; the pixel is `compute` of each channel's pair, i.e. `EdgesAt` of the snapshot |
| Helpers.SobelRow | helpers.c:117-133 | one pass of the inner loop adds to each of the six accumulators exactly the in-bounds cells of window row k weighted by row k of `GX` or `GY` |
| FilterLemmas.GrayFixedIffGray | helpers.c:19-23 | grayscale leaves a pixel unchanged exactly when its three channels are already equal |
| FilterLemmas.GrayIdempotent | helpers.c:19-23 | grayscale of a grayscale pixel is that pixel |
| FilterLemmas.GrayscaleIdempotent | helpers.c:14-23 | applying grayscale twice gives the same image as applying it once |
| FilterLemmas.MirrorInvolution | helpers.c:35-40 | mirroring a row twice restores it |
| FilterLemmas.ReflectInvolution | helpers.c:33-40 | applying reflect twice restores the image |
| FilterLemmas.ReflectKeepsCentre | helpers.c:35-40 | in a row of odd width, reflect keeps the centre column where it is |
| FilterLemmas.WindowIsNineCells | helpers.c:66-80 | the loop accumulators equal the sum over the nine cells (i−1..i+1, j−1..j+1), with cells outside the grid counting 0 |
| FilterLemmas.BlurChannelIsRoundedMean | helpers.c:71-86 | the divisor is between 1 and 9, and each blurred channel v satisfies n(2v−1) ≤ 2·sum < n(2v+1), the mean rounded half up |
| FilterLemmas.BlurInteriorCount | helpers.c:71-80 | a cell with all eight neighbours in the grid is averaged over exactly nine pixels |
| FilterLemmas.RowSumUniform | helpers.c:76-80 | on a uniform image a window row's channel sum is the channel value times the row's count |
| FilterLemmas.WindowSumUniform | helpers.c:66-80 | on a uniform image the window's channel sum is the channel value times the window count |
| FilterLemmas.BlurAtUniform | helpers.c:84-86 | on a uniform image every blurred cell equals the common pixel |
| FilterLemmas.BlurUniform | helpers.c:59-86 | blur leaves an image whose pixels are all equal unchanged |
| FilterLemmas.BlurSingleton | helpers.c:59-86 | blur leaves a 1 × 1 image unchanged |
| FilterLemmas.KernelIsNineCells | helpers.c:115-132 | each kernel accumulator equals the nine weighted cells around (i, j), with cells outside the grid counting 0 |
| FilterLemmas.SobelUniformInterior | helpers.c:106-132 | on a uniform image both Gx and Gy are 0 at every interior cell |
| FilterLemmas.EdgesUniformInterior | helpers.c:106-138 | on a uniform image every interior pixel becomes (0, 0, 0) |
| FilterLemmas.UniformTopCells | helpers.c:120-123 | the border test makes row −1 count as 0, while rows 0 and 1 hold the uniform value |
| FilterLemmas.SobelUniformTopRow | helpers.c:106-132 | on a uniform image, at a top-row cell away from the corners, Gx is 0 and Gy is 4 times the channel value |
| FilterLemmas.EdgesUniformTopRow | helpers.c:120-138 | on a uniform image with at least two rows, a top-row pixel in columns 1..width−2 gets a non-zero edge in every channel whose value is not 0 |
| FilterLemmas.UniformOneRowCells | helpers.c:120-123 | in a one-row image the border test makes rows −1 and 1 count as 0 |
| FilterLemmas.SobelUniformOneRow | helpers.c:106-132 | on a uniform one-row image, at columns 1..width−2, Gx cancels (−2v + 2v) and Gy is 0 |
| FilterLemmas.EdgesUniformOneRow | helpers.c:106-138 | so those pixels of a uniform one-row image become (0, 0, 0) |
| Filters.WeightedCellBounds | helpers.c:125-132 | one weighted byte v·w lies between −255 times the weight's negative part and 255 times its positive part |
| Filters.RowKernelBounds | helpers.c:117-132 | a weighted window row lies between −255 times its negative weights and 255 times its positive weights |
| Filters.KernelBounds | helpers.c:115-132 | the same bounds hold for the whole Sobel accumulator over the first k window rows |
| FilterLemmas.SobelWeights | helpers.c:106-107 | each kernel `gx`, `gy` has positive weights summing to 4 and negative weights summing to −4 |
| FilterLemmas.SobelBounds | helpers.c:125-132 | Gx and Gy lie in [−1020, 1020], and gx·gx + gy·gy ≤ 2,080,800 < 2³¹, so no `int` in edges or `compute` overflows |
| Rounding.RoundHalfUp | helpers.c:84-86 | n / d rounded to the nearest integer, halves up, computed as floor((2n + d) / 2d). It also serves grayscale's `round(sum / 3.0)` at helpers.c:19. It has no contract of its own: `RoundHalfUpBounds` and `RoundHalfUpUnique` give its meaning |
| Rounding.RoundSqrt | helpers.c:160 | `round(sqrt(n))`, computed as (floor(√4n) + 1) / 2. It has no contract of its own: `RoundSqrtBounds` proves it is the integer nearest to √n |
| Filters.Compute | helpers.c:158-166 | `compute(gx, gy)`. The result is a `Byte`, so it lies in 0..255. `ComputeIsRoundedMagnitude` gives its value |
| Filters.CappedRoot | helpers.c:160-165 | `value` of `compute`: round(√n), replaced by 255 when it exceeds 255. The result is a `Byte`, and `CappedRootIsNearest` gives its value |
| Filters.BlurChannel | helpers.c:84-86 | one channel write of blur: the window sum over the window count, rounded. The result is a `Byte`. `BlurChannelIsRoundedMean` gives its value, and `WindowIsNineCells` gives its operands |
| Filters.BlurAt | helpers.c:84-86 | the blurred pixel: `BlurChannel` in the red, green and blue channels. `BlurAtUniform` is stated about it |
| Filters.EdgesChannel | helpers.c:136-138 | one channel write of edges: `compute` of the channel's Gx and Gy sums. `KernelIsNineCells` and `ComputeIsRoundedMagnitude` give its value |
| Filters.EdgesAt | helpers.c:136-138 | the edge pixel: `EdgesChannel` in the red, green and blue channels. `EdgesUniformInterior` and `EdgesUniformOneRow` are stated about it |
| Filters.RowCount | helpers.c:68-81 | `pixel_count` gained over the first l cells of one window row, skipping cells outside the grid. `RowBounds` bounds it and `WindowIsNineCells` gives its closed form |
| Filters.RowSum | helpers.c:68-81 | the `red`, `green` or `blue` sum over the first l cells of one window row, skipping cells outside the grid. `RowBounds` and `WindowIsNineCells` |
| Filters.WindowCount | helpers.c:66-82 | `pixel_count` after the first k window rows. It is read at helpers.c:84-86 with k = 3. `WindowBounds` and `WindowIsNineCells` |
| Filters.WindowSum | helpers.c:66-82 | a channel sum after the first k window rows. `WindowBounds` and `WindowIsNineCells` |
| Filters.RowKernelSum | helpers.c:117-133 | `gxred` and the other five accumulators, gained over the first l cells of one window row weighted by that kernel row. `RowKernelBounds` and `KernelIsNineCells` |
| Filters.KernelSum | helpers.c:115-134 | an accumulator after the first k window rows. `KernelBounds`, `SobelBounds` and `KernelIsNineCells` |
| FilterLemmas.SobelPartialBounds | helpers.c:115-132 | after k full window rows and l cells of row k, each Gx and Gy accumulator lies in [−1020, 1020] |
| FilterLemmas.PartialWeights | helpers.c:106-107 | the kernel weights met after k rows and l cells are part of the kernel's positive and negative totals |
| FilterLemmas.WeightsGrow | helpers.c:106-107 | the positive and negative weight totals of a kernel row only grow as more of the row is taken |
| FilterLemmas.KernelWeightsGrow | helpers.c:106-107 | the positive and negative weight totals of a kernel only grow as more rows are taken |

## Left out

- The `printf` messages on allocation failure are I/O and are left out. The failure itself is modelled by the `allocOk` parameter.
- `calloc` and `free` are not modelled as memory operations. The snapshot is a fresh `array2` that starts black, as calloc's zeroed memory does. Since it is fresh it cannot alias the image.
- Floating point is not modelled. The blur accumulators are `float` in the source. They hold sums of at most nine bytes, which a float represents exactly, so exact integers model them. `round(x / 3.0)` and `round(sum / count)` on these non-negative values are rounding half up, which `RoundHalfUp` states exactly. The division itself is rounded to a float before `round` sees it, and this cannot change the outcome. An exact half q + ½ with q < 256 is representable, so it stays exact. With a divisor of 1 to 9, every other quotient is at least 1/18 away from a half. That is far more than the division's error of at most 255 · 2⁻²⁴. `round(sqrt(n))` is modelled by the integer nearest to √n. Halfway cases cannot occur there, because (r + ½)² is never an integer.
- Overflow of `int` in `compute` and in the Sobel sums is not modelled, because it cannot happen. `SobelBounds` proves |gx|, |gy| ≤ 1020 and gx² + gy² ≤ 2,080,800 < 2³¹. `SobelPartialBounds` proves that every partial sum the loop accumulates lies in [−1020, 1020] too. That covers k full window rows plus the first l cells of row k.
- The `height` and `width` parameters are the array's `Length0` and `Length1`. An image whose declared size differs from the array's is not modelled.
- `helpers.h` and the bitmap file reading and writing around the filters are not part of this model.
- Some loops are separate methods. The inner loops of blur and edges are `BlurRow` and `SobelRow`, and their pixel loops are `BlurRows` and `EdgesRows`. The inner loop of reflect is `MirrorRow`. The methods run the same loop bodies in the same order.
- Compute: its result is a `Byte` rather than an `int`. The cap and the non-negativity of the square root already keep the C value in 0..255.
