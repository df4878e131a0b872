/**
 * The filters of helpers.c, in place on a height × width image
 * (`image.Length0` rows of `image.Length1` pixels).
 *
 * Each method is proved to leave the image equal to the matching grid
 * function of module Filters applied to the image as it was on entry.
 * Blur and edges take `allocOk`, the outcome of allocating the snapshot:
 * on failure they return false and leave the image untouched.
 */
module Helpers {
  import opened Image
  import opened Rounding
  import opened Filters

  /** grayscale: each pixel becomes the rounded mean of its own three channels. */
  method Grayscale(image: array2<Pixel>)
    modifies image
    ensures View(image) == GrayscaleGrid(old(View(image)))
  {
    ghost var before := View(image);
    ghost var after := GrayscaleGrid(before);
    for i := 0 to image.Length0
      invariant forall r, c :: 0 <= r < image.Length0 && 0 <= c < image.Length1 ==>
        image[r, c] == if r < i then after[r][c] else before[r][c]
    {
      for j := 0 to image.Length1
        invariant forall r, c :: 0 <= r < image.Length0 && 0 <= c < image.Length1 ==>
          image[r, c] == if r < i || (r == i && c < j) then after[r][c] else before[r][c]
      {
        var average := RoundHalfUp(image[i, j].blue + image[i, j].green + image[i, j].red, 3);
        assert average == Gray(before[i][j]).red;
        image[i, j] := Pixel(average, average, average);
      }
    }
    ViewIs(image, after);
  }

  /** reflect: each row is mirrored in place. */
  method Reflect(image: array2<Pixel>)
    modifies image
    ensures View(image) == ReflectGrid(old(View(image)))
  {
    ghost var before := View(image);
    var width := image.Length1;
    for i := 0 to image.Length0
      invariant forall r, c :: 0 <= r < image.Length0 && 0 <= c < width ==>
        image[r, c] == before[r][if r < i then width - 1 - c else c]
    {
      MirrorRow(image, i);
    }
    ViewIs(image, ReflectGrid(before));
  }

  /** The inner loop of reflect: row i is mirrored by swapping column j with column width - 1 - j. */
  method MirrorRow(image: array2<Pixel>, i: int)
    requires 0 <= i < image.Length0
    modifies image
    ensures forall r, c :: 0 <= r < image.Length0 && 0 <= c < image.Length1 ==>
      image[r, c] == old(View(image))[r][if r == i then image.Length1 - 1 - c else c]
  {
    ghost var before := View(image);
    var width := image.Length1;
    for j := 0 to width / 2
      invariant forall r, c :: 0 <= r < image.Length0 && 0 <= c < width ==>
        image[r, c] == before[r][if r == i && (c < j || width - j <= c) then width - 1 - c else c]
    {
      assert j < width - 1 - j;
      var temp := image[i, j];
      image[i, j] := image[i, width - j - 1];
      image[i, width - j - 1] := temp;
    }
  }

  /** makecopy: copy every pixel of image into copy. */
  method MakeCopy(copy: array2<Pixel>, image: array2<Pixel>)
    requires copy.Length0 == image.Length0 && copy.Length1 == image.Length1
    modifies copy
    ensures View(copy) == old(View(image))
    ensures View(image) == old(View(image))
  {
    ghost var before := View(image);
    for i := 0 to image.Length0
      invariant forall r, c :: 0 <= r < i && 0 <= c < image.Length1 ==> copy[r, c] == before[r][c]
      invariant forall r, c :: 0 <= r < image.Length0 && 0 <= c < image.Length1 ==> image[r, c] == before[r][c]
    {
      for j := 0 to image.Length1
        invariant forall r, c :: 0 <= r < i && 0 <= c < image.Length1 ==> copy[r, c] == before[r][c]
        invariant forall c :: 0 <= c < j ==> copy[i, c] == before[i][c]
        invariant forall r, c :: 0 <= r < image.Length0 && 0 <= c < image.Length1 ==> image[r, c] == before[r][c]
      {
        copy[i, j] := image[i, j];
      }
    }
    ViewIs(copy, before);
    ViewIs(image, before);
  }

  /**
   * blur: every pixel becomes the rounded mean of the in-bounds 3 × 3 window
   * around it, read from a snapshot taken before any pixel is written.
   */
  method Blur(image: array2<Pixel>, allocOk: bool) returns (ok: bool)
    modifies image
    ensures ok == allocOk
    ensures !ok ==> unchanged(image)
    ensures ok ==> View(image) == BlurGrid(old(View(image)))
  {
    if !allocOk {
      return false;
    }
    var copy := new Pixel[image.Length0, image.Length1]((_, _) => Black);
    MakeCopy(copy, image);
    BlurRows(image, copy, BlurGrid(View(copy)));
    return true;
  }

  /**
   * The pixel loops of blur: each pixel of image is overwritten with its
   * blurred value, computed from copy alone. `want` is the blurred grid.
   */
  method BlurRows(image: array2<Pixel>, copy: array2<Pixel>, ghost want: Grid)
    requires copy != image
    requires copy.Length0 == image.Length0 && copy.Length1 == image.Length1
    requires |want| == image.Length0 && forall r :: 0 <= r < |want| ==> |want[r]| == image.Length1
    requires forall r, c {:trigger BlurAt(View(copy), r, c)} :: 0 <= r < image.Length0 && 0 <= c < image.Length1 ==>
      want[r][c] == BlurAt(View(copy), r, c)
    modifies image
    ensures View(image) == want
  {
    for i := 0 to image.Length0
      invariant forall r, c :: 0 <= r < i && 0 <= c < image.Length1 ==> image[r, c] == want[r][c]
    {
      for j := 0 to image.Length1
        invariant forall r, c :: 0 <= r < image.Length0 && 0 <= c < image.Length1 && (r < i || (r == i && c < j)) ==>
          image[r, c] == want[r][c]
      {
        var blurred := BlurPixel(copy, i, j);
        image[i, j] := blurred;
      }
    }
    ViewIs(image, want);
  }

  /**
   * The body of blur's pixel loop: sum each channel and count the cells of
   * the 3 × 3 window around (i, j) that lie in the snapshot, then round each
   * mean.
   */
  method BlurPixel(copy: array2<Pixel>, i: int, j: int) returns (blurred: Pixel)
    requires 0 <= i < copy.Length0 && 0 <= j < copy.Length1
    ensures blurred == BlurAt(View(copy), i, j)
  {
    ghost var g := View(copy);
    var red, green, blue, count := 0, 0, 0, 0;
    for k := 0 to 3
      invariant count == WindowCount(g, i, j, k)
      invariant red == WindowSum(g, i, j, k, Red)
      invariant green == WindowSum(g, i, j, k, Green)
      invariant blue == WindowSum(g, i, j, k, Blue)
    {
      red, green, blue, count := BlurRow(copy, i, j, k, red, green, blue, count);
    }
    WindowBounds(g, i, j, 3, Red);
    WindowBounds(g, i, j, 3, Green);
    WindowBounds(g, i, j, 3, Blue);
    RoundHalfUpBounds(red, count);
    RoundHalfUpBounds(green, count);
    RoundHalfUpBounds(blue, count);
    blurred := Pixel(RoundHalfUp(red, count), RoundHalfUp(green, count), RoundHalfUp(blue, count));
  }

  /**
   * The innermost loop of blur: add the cells of window row k around (i, j)
   * that lie in the snapshot to the channel sums and to the count.
   */
  method BlurRow(copy: array2<Pixel>, i: int, j: int, k: int, red0: int, green0: int, blue0: int, count0: int)
    returns (red: int, green: int, blue: int, count: int)
    ensures count == count0 + RowCount(View(copy), i + k - 1, j, 3)
    ensures red == red0 + RowSum(View(copy), i + k - 1, j, 3, Red)
    ensures green == green0 + RowSum(View(copy), i + k - 1, j, 3, Green)
    ensures blue == blue0 + RowSum(View(copy), i + k - 1, j, 3, Blue)
  {
    ghost var g := View(copy);
    var height, width := copy.Length0, copy.Length1;
    red, green, blue, count := red0, green0, blue0, count0;
    for l := 0 to 3
      invariant count == count0 + RowCount(g, i + k - 1, j, l)
      invariant red == red0 + RowSum(g, i + k - 1, j, l, Red)
      invariant green == green0 + RowSum(g, i + k - 1, j, l, Green)
      invariant blue == blue0 + RowSum(g, i + k - 1, j, l, Blue)
    {
      if k + i - 1 < 0 || k + i - 1 > height - 1 || l + j - 1 < 0 || l + j - 1 > width - 1 {
        continue;
      }
      red := red + copy[k + i - 1, l + j - 1].red;
      green := green + copy[k + i - 1, l + j - 1].green;
      blue := blue + copy[k + i - 1, l + j - 1].blue;
      count := count + 1;
    }
  }

  /**
   * edges: every pixel becomes, per channel, the capped Sobel gradient
   * magnitude over the in-bounds window, read from a snapshot.
   */
  method Edges(image: array2<Pixel>, allocOk: bool) returns (ok: bool)
    modifies image
    ensures ok == allocOk
    ensures !ok ==> unchanged(image)
    ensures ok ==> View(image) == EdgesGrid(old(View(image)))
  {
    if !allocOk {
      return false;
    }
    var copy := new Pixel[image.Length0, image.Length1]((_, _) => Black);
    MakeCopy(copy, image);
    EdgesRows(image, copy, EdgesGrid(View(copy)));
    return true;
  }

  /**
   * The pixel loops of edges: each pixel of image is overwritten with its
   * edge value, computed from copy alone. `want` is the grid of edge values.
   */
  method EdgesRows(image: array2<Pixel>, copy: array2<Pixel>, ghost want: Grid)
    requires copy != image
    requires copy.Length0 == image.Length0 && copy.Length1 == image.Length1
    requires |want| == image.Length0 && forall r :: 0 <= r < |want| ==> |want[r]| == image.Length1
    requires forall r, c {:trigger EdgesAt(View(copy), r, c)} :: 0 <= r < image.Length0 && 0 <= c < image.Length1 ==>
      want[r][c] == EdgesAt(View(copy), r, c)
    modifies image
    ensures View(image) == want
  {
    for i := 0 to image.Length0
      invariant forall r, c :: 0 <= r < i && 0 <= c < image.Length1 ==> image[r, c] == want[r][c]
    {
      for j := 0 to image.Length1
        invariant forall r, c :: 0 <= r < image.Length0 && 0 <= c < image.Length1 && (r < i || (r == i && c < j)) ==>
          image[r, c] == want[r][c]
      {
        var edge := EdgesPixel(copy, i, j);
        image[i, j] := edge;
      }
    }
    ViewIs(image, want);
  }

  /**
   * The body of edges' pixel loop: the Gx and Gy sums of each channel over
   * the cells of the 3 × 3 window around (i, j) that lie in the snapshot,
   * then the gradient magnitude of each channel.
   */
  method EdgesPixel(copy: array2<Pixel>, i: int, j: int) returns (edge: Pixel)
    requires 0 <= i < copy.Length0 && 0 <= j < copy.Length1
    ensures edge == EdgesAt(View(copy), i, j)
  {
    ghost var g := View(copy);
    var gxRed, gyRed, gxGreen, gyGreen, gxBlue, gyBlue := 0, 0, 0, 0, 0, 0;
    for k := 0 to 3
      invariant gxRed == KernelSum(g, i, j, k, Red, GX) && gyRed == KernelSum(g, i, j, k, Red, GY)
      invariant gxGreen == KernelSum(g, i, j, k, Green, GX) && gyGreen == KernelSum(g, i, j, k, Green, GY)
      invariant gxBlue == KernelSum(g, i, j, k, Blue, GX) && gyBlue == KernelSum(g, i, j, k, Blue, GY)
    {
      gxRed, gyRed, gxGreen, gyGreen, gxBlue, gyBlue := SobelRow(copy, i, j, k, gxRed, gyRed, gxGreen, gyGreen, gxBlue, gyBlue);
    }
    edge := Pixel(Compute(gxRed, gyRed), Compute(gxGreen, gyGreen), Compute(gxBlue, gyBlue));
  }

  /**
   * The innermost loop of edges: add the cells of window row k around
   * (i, j) that lie in the snapshot to the six sums, weighted by row k of
   * each kernel.
   */
  method SobelRow(copy: array2<Pixel>, i: int, j: int, k: int,
                  gxRed0: int, gyRed0: int, gxGreen0: int, gyGreen0: int, gxBlue0: int, gyBlue0: int)
    returns (gxRed: int, gyRed: int, gxGreen: int, gyGreen: int, gxBlue: int, gyBlue: int)
    requires 0 <= k < 3
    ensures gxRed == gxRed0 + RowKernelSum(View(copy), i + k - 1, j, 3, Red, GX[k])
    ensures gyRed == gyRed0 + RowKernelSum(View(copy), i + k - 1, j, 3, Red, GY[k])
    ensures gxGreen == gxGreen0 + RowKernelSum(View(copy), i + k - 1, j, 3, Green, GX[k])
    ensures gyGreen == gyGreen0 + RowKernelSum(View(copy), i + k - 1, j, 3, Green, GY[k])
    ensures gxBlue == gxBlue0 + RowKernelSum(View(copy), i + k - 1, j, 3, Blue, GX[k])
    ensures gyBlue == gyBlue0 + RowKernelSum(View(copy), i + k - 1, j, 3, Blue, GY[k])
  {
    ghost var g := View(copy);
    var height, width := copy.Length0, copy.Length1;
    var gx, gy := GX, GY;
    gxRed, gyRed, gxGreen, gyGreen, gxBlue, gyBlue := gxRed0, gyRed0, gxGreen0, gyGreen0, gxBlue0, gyBlue0;
    for l := 0 to 3
      invariant gxRed == gxRed0 + RowKernelSum(g, i + k - 1, j, l, Red, GX[k])
      invariant gyRed == gyRed0 + RowKernelSum(g, i + k - 1, j, l, Red, GY[k])
      invariant gxGreen == gxGreen0 + RowKernelSum(g, i + k - 1, j, l, Green, GX[k])
      invariant gyGreen == gyGreen0 + RowKernelSum(g, i + k - 1, j, l, Green, GY[k])
      invariant gxBlue == gxBlue0 + RowKernelSum(g, i + k - 1, j, l, Blue, GX[k])
      invariant gyBlue == gyBlue0 + RowKernelSum(g, i + k - 1, j, l, Blue, GY[k])
    {
      if k + i - 1 < 0 || k + i - 1 > height - 1 || l + j - 1 < 0 || l + j - 1 > width - 1 {
        continue;
      }
      var p := copy[k + i - 1, l + j - 1];
      gxRed := gxRed + p.red * gx[k][l];
      gyRed := gyRed + p.red * gy[k][l];
      gxGreen := gxGreen + p.green * gx[k][l];
      gyGreen := gyGreen + p.green * gy[k][l];
      gxBlue := gxBlue + p.blue * gx[k][l];
      gyBlue := gyBlue + p.blue * gy[k][l];
    }
  }
}
