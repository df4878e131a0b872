/**
 * Properties of the filters of helpers.c, proved about the value
 * specifications of module Filters (and so, through the method contracts of
 * module Helpers, about the in-place filters themselves).
 */
module FilterLemmas {
  import opened Image
  import opened Rounding
  import opened Filters

  // ---------------------------------------------------------------- grayscale

  /** grayscale leaves a pixel alone exactly when the pixel is already gray. */
  lemma GrayFixedIffGray(p: Pixel)
    ensures Gray(p) == p <==> p.red == p.green == p.blue
  {
    if p.red == p.green == p.blue {
      RoundHalfUpUnique(p.blue + p.green + p.red, 3, p.red);
    }
  }

  /** grayscale of a grayscale pixel changes nothing. */
  lemma GrayIdempotent(p: Pixel)
    ensures Gray(Gray(p)) == Gray(p)
  {
    GrayFixedIffGray(Gray(p));
  }

  /** Applying grayscale twice gives the same grid as applying it once. */
  lemma GrayscaleIdempotent(g: Grid)
    ensures GrayscaleGrid(GrayscaleGrid(g)) == GrayscaleGrid(g)
  {
    var once := GrayscaleGrid(g);
    var twice := GrayscaleGrid(once);
    forall i | 0 <= i < |g|
      ensures twice[i] == once[i]
    {
      forall j | 0 <= j < |g[i]|
        ensures twice[i][j] == once[i][j]
      {
        assert once[i][j] == Gray(g[i][j]);
        GrayIdempotent(g[i][j]);
        assert twice[i][j] == Gray(once[i][j]);
      }
    }
  }

  // ------------------------------------------------------------------ reflect

  /** Mirroring a row twice restores it. */
  lemma MirrorInvolution(row: seq<Pixel>)
    ensures Mirror(Mirror(row)) == row
  {
    var m := Mirror(row);
    assert forall j :: 0 <= j < |row| ==> Mirror(m)[j] == m[|row| - 1 - j] == row[j];
  }

  /** Applying reflect twice restores the original grid exactly. */
  lemma ReflectInvolution(g: Grid)
    ensures ReflectGrid(ReflectGrid(g)) == g
  {
    var r := ReflectGrid(g);
    forall i | 0 <= i < |g|
      ensures ReflectGrid(r)[i] == g[i]
    {
      MirrorInvolution(g[i]);
    }
  }

  /** In a row of odd width the centre column is its own mirror image. */
  lemma ReflectKeepsCentre(g: Grid, i: int)
    requires 0 <= i < |g| && |g[i]| % 2 == 1
    ensures ReflectGrid(g)[i][|g[i]| / 2] == g[i][|g[i]| / 2]
  {
    assert |g[i]| - 1 - |g[i]| / 2 == |g[i]| / 2;
  }

  // --------------------------------------------------------------------- blur

  /** Channel c of cell (r, col), or 0 for a cell outside the grid. */
  function CellValue(g: Grid, r: int, col: int, c: Channel): int {
    if InBounds(g, r, col) then Get(g[r][col], c) else 0
  }

  /** 1 for a cell in the grid, 0 for a cell outside. */
  function CellCount(g: Grid, r: int, col: int): int {
    if InBounds(g, r, col) then 1 else 0
  }

  /** The window accumulators add up exactly the nine cells around (i, j) that lie in the grid. */
  lemma WindowIsNineCells(g: Grid, i: int, j: int, c: Channel)
    ensures WindowCount(g, i, j, 3) ==
      CellCount(g, i - 1, j - 1) + CellCount(g, i - 1, j) + CellCount(g, i - 1, j + 1)
      + CellCount(g, i, j - 1) + CellCount(g, i, j) + CellCount(g, i, j + 1)
      + CellCount(g, i + 1, j - 1) + CellCount(g, i + 1, j) + CellCount(g, i + 1, j + 1)
    ensures WindowSum(g, i, j, 3, c) ==
      CellValue(g, i - 1, j - 1, c) + CellValue(g, i - 1, j, c) + CellValue(g, i - 1, j + 1, c)
      + CellValue(g, i, j - 1, c) + CellValue(g, i, j, c) + CellValue(g, i, j + 1, c)
      + CellValue(g, i + 1, j - 1, c) + CellValue(g, i + 1, j, c) + CellValue(g, i + 1, j + 1, c)
  {
    forall r {:trigger RowCount(g, r, j, 3)} {:trigger RowSum(g, r, j, 3, c)}
      ensures RowCount(g, r, j, 3) == CellCount(g, r, j - 1) + CellCount(g, r, j) + CellCount(g, r, j + 1)
      ensures RowSum(g, r, j, 3, c) == CellValue(g, r, j - 1, c) + CellValue(g, r, j, c) + CellValue(g, r, j + 1, c)
    {
      assert RowCount(g, r, j, 1) == CellCount(g, r, j - 1);
      assert RowSum(g, r, j, 1, c) == CellValue(g, r, j - 1, c);
    }
    assert WindowCount(g, i, j, 1) == RowCount(g, i - 1, j, 3);
    assert WindowSum(g, i, j, 1, c) == RowSum(g, i - 1, j, 3, c);
  }

  /**
   * The divisor of blur at an in-bounds cell is between 1 and 9, and each
   * blurred channel is the mean of the window rounded to the nearest
   * integer, halves rounded up.
   */
  lemma BlurChannelIsRoundedMean(g: Grid, i: int, j: int, c: Channel)
    requires InBounds(g, i, j)
    ensures 1 <= WindowCount(g, i, j, 3) <= 9
    ensures var n, s, v := WindowCount(g, i, j, 3), WindowSum(g, i, j, 3, c), BlurChannel(g, i, j, c);
      n * (2 * v - 1) <= 2 * s < n * (2 * v + 1)
  {
    WindowBounds(g, i, j, 3, c);
    RoundHalfUpBounds(WindowSum(g, i, j, 3, c), WindowCount(g, i, j, 3));
  }

  /** A cell with a full ring of neighbours is blurred over all nine of them. */
  lemma BlurInteriorCount(g: Grid, i: int, j: int)
    requires Rect(g) && 1 <= i < |g| - 1 && 1 <= j < Width(g) - 1
    ensures WindowCount(g, i, j, 3) == 9
  {
    WindowIsNineCells(g, i, j, Red);
  }

  /** On a uniform grid each window row sums to the pixel's channel times its cell count. */
  lemma {:induction false} RowSumUniform(g: Grid, p: Pixel, r: int, j: int, l: nat, c: Channel)
    requires Uniform(g, p) && l <= 3
    ensures RowSum(g, r, j, l, c) == Get(p, c) * RowCount(g, r, j, l)
  {
    if l > 0 {
      RowSumUniform(g, p, r, j, l - 1, c);
    }
  }

  lemma {:induction false} WindowSumUniform(g: Grid, p: Pixel, i: int, j: int, k: nat, c: Channel)
    requires Uniform(g, p) && k <= 3
    ensures WindowSum(g, i, j, k, c) == Get(p, c) * WindowCount(g, i, j, k)
  {
    if k > 0 {
      WindowSumUniform(g, p, i, j, k - 1, c);
      RowSumUniform(g, p, i + k - 2, j, 3, c);
      Distribute(Get(p, c), WindowCount(g, i, j, k - 1), RowCount(g, i + k - 2, j, 3));
    }
  }

  lemma Distribute(v: int, a: int, b: int)
    ensures v * (a + b) == v * a + v * b
  {
  }

  /** Blurring a uniform grid keeps every cell's value. */
  lemma BlurAtUniform(g: Grid, p: Pixel, i: int, j: int)
    requires Uniform(g, p) && InBounds(g, i, j)
    ensures BlurAt(g, i, j) == p
  {
    var n := WindowCount(g, i, j, 3);
    WindowBounds(g, i, j, 3, Red);
    forall c | true
      ensures BlurChannel(g, i, j, c) == Get(p, c)
    {
      var v: int := Get(p, c);
      WindowSumUniform(g, p, i, j, 3, c);
      assert n * (2 * v - 1) == 2 * (v * n) - n;
      assert n * (2 * v + 1) == 2 * (v * n) + n;
      RoundHalfUpUnique(v * n, n, v);
    }
    assert BlurChannel(g, i, j, Red) == p.red;
    assert BlurChannel(g, i, j, Green) == p.green;
    assert BlurChannel(g, i, j, Blue) == p.blue;
  }

  /** blur leaves a grid whose pixels are all identical unchanged. */
  lemma BlurUniform(g: Grid, p: Pixel)
    requires Rect(g) && Uniform(g, p)
    ensures BlurGrid(g) == g
  {
    var b := BlurGrid(g);
    forall i | 0 <= i < |g|
      ensures b[i] == g[i]
    {
      forall j | 0 <= j < |g[i]|
        ensures b[i][j] == g[i][j]
      {
        BlurAtUniform(g, p, i, j);
      }
    }
  }

  /** blur leaves a 1 × 1 grid unchanged. */
  lemma BlurSingleton(g: Grid)
    requires |g| == 1 && |g[0]| == 1
    ensures BlurGrid(g) == g
  {
    BlurUniform(g, g[0][0]);
  }

  // -------------------------------------------------------------------- edges

  /** The kernel accumulators add up exactly the nine weighted cells around (i, j) that lie in the grid. */
  lemma KernelIsNineCells(g: Grid, i: int, j: int, c: Channel, w: seq<seq<int>>)
    requires IsKernel(w)
    ensures KernelSum(g, i, j, 3, c, w) ==
      CellValue(g, i - 1, j - 1, c) * w[0][0] + CellValue(g, i - 1, j, c) * w[0][1] + CellValue(g, i - 1, j + 1, c) * w[0][2]
      + CellValue(g, i, j - 1, c) * w[1][0] + CellValue(g, i, j, c) * w[1][1] + CellValue(g, i, j + 1, c) * w[1][2]
      + CellValue(g, i + 1, j - 1, c) * w[2][0] + CellValue(g, i + 1, j, c) * w[2][1] + CellValue(g, i + 1, j + 1, c) * w[2][2]
  {
    forall r, k | 0 <= k < 3
      ensures RowKernelSum(g, r, j, 3, c, w[k]) ==
        CellValue(g, r, j - 1, c) * w[k][0] + CellValue(g, r, j, c) * w[k][1] + CellValue(g, r, j + 1, c) * w[k][2]
    {
      assert RowKernelSum(g, r, j, 1, c, w[k]) == CellValue(g, r, j - 1, c) * w[k][0];
    }
    assert KernelSum(g, i, j, 1, c, w) == RowKernelSum(g, i - 1, j, 3, c, w[0]);
  }

  /** Every cell of the window around an interior cell of a uniform image holds the same value. */
  lemma UniformWindowCells(g: Grid, p: Pixel, i: int, j: int, c: Channel)
    requires Rect(g) && Uniform(g, p)
    requires 1 <= i < |g| - 1 && 1 <= j < Width(g) - 1
    ensures forall r, col :: i - 1 <= r <= i + 1 && j - 1 <= col <= j + 1 ==> CellValue(g, r, col, c) == Get(p, c)
  {
  }

  /** Both Sobel kernels weigh to zero, so on a uniform window both sums vanish. */
  lemma SobelUniformInterior(g: Grid, p: Pixel, i: int, j: int, c: Channel)
    requires Rect(g) && Uniform(g, p)
    requires 1 <= i < |g| - 1 && 1 <= j < Width(g) - 1
    ensures KernelSum(g, i, j, 3, c, GX) == 0 && KernelSum(g, i, j, 3, c, GY) == 0
  {
    KernelIsNineCells(g, i, j, c, GX);
    KernelIsNineCells(g, i, j, c, GY);
    UniformWindowCells(g, p, i, j, c);
  }

  /** On a uniform image every interior pixel becomes black: both Sobel sums vanish. */
  lemma EdgesUniformInterior(g: Grid, p: Pixel, i: int, j: int)
    requires Rect(g) && Uniform(g, p)
    requires 1 <= i < |g| - 1 && 1 <= j < Width(g) - 1
    ensures EdgesAt(g, i, j) == Black
  {
    forall c | true
      ensures EdgesChannel(g, i, j, c) == 0
    {
      SobelUniformInterior(g, p, i, j, c);
      ComputeIsRoundedMagnitude(0, 0);
    }
    assert EdgesChannel(g, i, j, Red) == 0;
    assert EdgesChannel(g, i, j, Green) == 0;
    assert EdgesChannel(g, i, j, Blue) == 0;
  }

  /** Above the top row every cell counts as 0; the two rows below it hold the uniform value. */
  lemma UniformTopCells(g: Grid, p: Pixel, j: int, c: Channel)
    requires Rect(g) && Uniform(g, p)
    requires 2 <= |g| && 1 <= j < Width(g) - 1
    ensures forall col :: CellValue(g, -1, col, c) == 0
    ensures forall r, col :: 0 <= r <= 1 && j - 1 <= col <= j + 1 ==> CellValue(g, r, col, c) == Get(p, c)
  {
  }

  /** Below the top row of a uniform image Gx cancels out and Gy is 4 times the channel value. */
  lemma SobelUniformTopRow(g: Grid, p: Pixel, j: int, c: Channel)
    requires Rect(g) && Uniform(g, p)
    requires 2 <= |g| && 1 <= j < Width(g) - 1
    ensures KernelSum(g, 0, j, 3, c, GX) == 0
    ensures KernelSum(g, 0, j, 3, c, GY) == 4 * Get(p, c)
  {
    KernelIsNineCells(g, 0, j, c, GX);
    KernelIsNineCells(g, 0, j, c, GY);
    UniformTopCells(g, p, j, c);
  }

  /**
   * Cells beyond the border count as black, so on a uniform image whose
   * channel c is not 0 the pixels of the top row away from the corners do
   * get an edge in channel c.
   */
  lemma EdgesUniformTopRow(g: Grid, p: Pixel, j: int, c: Channel)
    requires Rect(g) && Uniform(g, p) && 0 < Get(p, c)
    requires 2 <= |g| && 1 <= j < Width(g) - 1
    ensures EdgesChannel(g, 0, j, c) > 0
  {
    SobelUniformTopRow(g, p, j, c);
    ComputeIsRoundedMagnitude(0, 4 * Get(p, c));
  }

  /**
   * Each Sobel kernel has positive weights summing to 4 and negative weights
   * summing to -4, so Gx and Gy lie in [-1020, 1020] and gx * gx + gy * gy,
   * the argument of sqrt in compute, stays far below 2^31: no int overflows.
   */
  lemma SobelBounds(g: Grid, i: int, j: int, c: Channel)
    ensures -1020 <= KernelSum(g, i, j, 3, c, GX) <= 1020
    ensures -1020 <= KernelSum(g, i, j, 3, c, GY) <= 1020
    ensures var gx, gy := KernelSum(g, i, j, 3, c, GX), KernelSum(g, i, j, 3, c, GY);
      0 <= gx * gx + gy * gy <= 2 * 1020 * 1020 < 0x8000_0000
  {
    SobelWeights();
    KernelBounds(g, i, j, 3, c, GX);
    KernelBounds(g, i, j, 3, c, GY);
    SquareBound(KernelSum(g, i, j, 3, c, GX), 1020);
    SquareBound(KernelSum(g, i, j, 3, c, GY), 1020);
  }

  /**
   * While the loops of edges run, after k full window rows and l cells of
   * row k, each accumulator already holds a value within the same
   * [-1020, 1020]: no partial sum overflows either.
   */
  lemma SobelPartialBounds(g: Grid, i: int, j: int, k: nat, l: nat, c: Channel)
    requires k < 3 && l <= 3
    ensures -1020 <= KernelSum(g, i, j, k, c, GX) + RowKernelSum(g, i + k - 1, j, l, c, GX[k]) <= 1020
    ensures -1020 <= KernelSum(g, i, j, k, c, GY) + RowKernelSum(g, i + k - 1, j, l, c, GY[k]) <= 1020
  {
    SobelWeights();
    PartialWeights(GX, k, l);
    PartialWeights(GY, k, l);
    KernelBounds(g, i, j, k, c, GX);
    KernelBounds(g, i, j, k, c, GY);
    RowKernelBounds(g, i + k - 1, j, l, c, GX[k]);
    RowKernelBounds(g, i + k - 1, j, l, c, GY[k]);
  }

  /** The weights seen after k rows and l cells of row k are part of the kernel's totals. */
  lemma PartialWeights(w: seq<seq<int>>, k: nat, l: nat)
    requires IsKernel(w) && k < 3 && l <= 3
    ensures KernelPositive(w, k) + PositiveWeight(w[k], l) <= KernelPositive(w, 3)
    ensures KernelNegative(w, k) + NegativeWeight(w[k], l) <= KernelNegative(w, 3)
  {
    WeightsGrow(w[k], l, 3);
    KernelWeightsGrow(w, k + 1, 3);
  }

  lemma {:induction false} WeightsGrow(weights: seq<int>, l: nat, m: nat)
    requires l <= m <= |weights|
    ensures PositiveWeight(weights, l) <= PositiveWeight(weights, m)
    ensures NegativeWeight(weights, l) <= NegativeWeight(weights, m)
    decreases m
  {
    if l < m {
      WeightsGrow(weights, l, m - 1);
    }
  }

  lemma {:induction false} KernelWeightsGrow(w: seq<seq<int>>, k: nat, m: nat)
    requires IsKernel(w) && k <= m <= 3
    ensures KernelPositive(w, k) <= KernelPositive(w, m)
    ensures KernelNegative(w, k) <= KernelNegative(w, m)
    decreases m
  {
    if k < m {
      KernelWeightsGrow(w, k, m - 1);
    }
  }

  /** Both Sobel kernels weigh +4 on one side and -4 on the other. */
  lemma SobelWeights()
    ensures KernelPositive(GX, 3) == 4 && KernelNegative(GX, 3) == 4
    ensures KernelPositive(GY, 3) == 4 && KernelNegative(GY, 3) == 4
  {
  }

  lemma SquareBound(x: int, b: nat)
    requires -x <= b && x <= b
    ensures 0 <= x * x <= b * b
  {
    var a: nat := if x < 0 then -x else x;
    assert x * x == a * a;
    MulMonotone(a, a, b);
    MulMonotone(b, a, b);
  }

  /** In a one-row image the rows above and below count as 0. */
  lemma UniformOneRowCells(g: Grid, p: Pixel, j: int, c: Channel)
    requires |g| == 1 && Uniform(g, p) && 1 <= j < |g[0]| - 1
    ensures forall col :: CellValue(g, -1, col, c) == 0 && CellValue(g, 1, col, c) == 0
    ensures forall col :: j - 1 <= col <= j + 1 ==> CellValue(g, 0, col, c) == Get(p, c)
  {
  }

  /** On a uniform image of a single row only the middle kernel row sees pixels: Gx cancels and Gy is 0. */
  lemma SobelUniformOneRow(g: Grid, p: Pixel, j: int, c: Channel)
    requires |g| == 1 && Uniform(g, p) && 1 <= j < |g[0]| - 1
    ensures KernelSum(g, 0, j, 3, c, GX) == 0 && KernelSum(g, 0, j, 3, c, GY) == 0
  {
    KernelIsNineCells(g, 0, j, c, GX);
    KernelIsNineCells(g, 0, j, c, GY);
    UniformOneRowCells(g, p, j, c);
  }

  /** So the inner pixels of a uniform one-row image become black, top row though they are. */
  lemma EdgesUniformOneRow(g: Grid, p: Pixel, j: int)
    requires |g| == 1 && Uniform(g, p) && 1 <= j < |g[0]| - 1
    ensures EdgesAt(g, 0, j) == Black
  {
    forall c | true
      ensures EdgesChannel(g, 0, j, c) == 0
    {
      SobelUniformOneRow(g, p, j, c);
      ComputeIsRoundedMagnitude(0, 0);
    }
    assert EdgesChannel(g, 0, j, Red) == 0;
    assert EdgesChannel(g, 0, j, Green) == 0;
    assert EdgesChannel(g, 0, j, Blue) == 0;
  }
}
