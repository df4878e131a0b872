/**
 * What each filter of helpers.c computes, stated on values.
 *
 * Blur and edges read a 3 × 3 window around the target cell (i, j). The
 * loops of helpers.c visit it with a row index k and a column index l, both
 * 0..2, so that the cell visited at (k, l) is (i + k - 1, j + l - 1); cells
 * outside the grid are skipped. The `Row…` functions are the accumulators of
 * the inner loop over one window row, the `Window…` and `KernelSum`
 * functions those of the outer loop after its first k rows.
 */
module Filters {
  import opened Image
  import opened Rounding

  // ---------------------------------------------------------------- grayscale

  /** One pixel of grayscale: all three channels set to their rounded mean. */
  function Gray(p: Pixel): (q: Pixel)
    ensures q.red == q.green == q.blue
    ensures 3 * (2 * q.red - 1) <= 2 * (p.red + p.green + p.blue) < 3 * (2 * q.red + 1)
  {
    RoundHalfUpBounds(p.blue + p.green + p.red, 3);
    var average := RoundHalfUp(p.blue + p.green + p.red, 3);
    Pixel(average, average, average)
  }

  /** The grid after grayscale: each cell depends on that cell alone. */
  function GrayscaleGrid(g: Grid): (r: Grid)
    ensures |r| == |g|
    ensures forall i :: 0 <= i < |g| ==> |r[i]| == |g[i]|
    ensures forall i, j {:trigger Gray(g[i][j])} :: 0 <= i < |g| && 0 <= j < |g[i]| ==> r[i][j] == Gray(g[i][j])
    ensures forall i, j :: 0 <= i < |g| && 0 <= j < |g[i]| ==>
      r[i][j].red == r[i][j].green == r[i][j].blue &&
      3 * (2 * r[i][j].red - 1) <= 2 * (g[i][j].red + g[i][j].green + g[i][j].blue) < 3 * (2 * r[i][j].red + 1)
  {
    seq(|g|, i requires 0 <= i < |g| => seq(|g[i]|, j requires 0 <= j < |g[i]| => Gray(g[i][j])))
  }

  // ------------------------------------------------------------------ reflect

  /** A row read from right to left. */
  function Mirror(row: seq<Pixel>): (m: seq<Pixel>)
    ensures |m| == |row|
    ensures forall j :: 0 <= j < |row| ==> m[j] == row[|row| - 1 - j]
  {
    seq(|row|, j requires 0 <= j < |row| => row[|row| - 1 - j])
  }

  /** The grid after reflect: every row mirrored. */
  function ReflectGrid(g: Grid): (r: Grid)
    ensures |r| == |g|
    ensures forall i :: 0 <= i < |g| ==> r[i] == Mirror(g[i])
  {
    seq(|g|, i requires 0 <= i < |g| => Mirror(g[i]))
  }

  // --------------------------------------------------------------------- blur

  /**
   * Row r of the window around column j, as far as the inner loop has come:
   * the number of its first l cells (columns j - 1 .. j + l - 2) that lie in
   * the grid.
   */
  function RowCount(g: Grid, r: int, j: int, l: nat): (n: nat)
    requires l <= 3
  {
    if l == 0 then 0
    else RowCount(g, r, j, l - 1) + (if InBounds(g, r, j + l - 2) then 1 else 0)
  }

  /** The sum of channel c over the first l cells of row r of the window around column j that lie in the grid. */
  function RowSum(g: Grid, r: int, j: int, l: nat, c: Channel): (s: int)
    requires l <= 3
  {
    if l == 0 then 0
    else RowSum(g, r, j, l - 1, c) + (if InBounds(g, r, j + l - 2) then Get(g[r][j + l - 2], c) else 0)
  }

  /** The number of cells of the first k rows (i - 1 .. i + k - 2) of the window around (i, j) that lie in the grid. */
  function WindowCount(g: Grid, i: int, j: int, k: nat): (n: nat)
    requires k <= 3
  {
    if k == 0 then 0 else WindowCount(g, i, j, k - 1) + RowCount(g, i + k - 2, j, 3)
  }

  /** The sum of channel c over the cells of the first k rows of the window around (i, j) that lie in the grid. */
  function WindowSum(g: Grid, i: int, j: int, k: nat, c: Channel): (s: int)
    requires k <= 3
  {
    if k == 0 then 0 else WindowSum(g, i, j, k - 1, c) + RowSum(g, i + k - 2, j, 3, c)
  }

  lemma {:induction false} RowBounds(g: Grid, r: int, j: int, l: nat, c: Channel)
    requires l <= 3
    ensures RowCount(g, r, j, l) <= l
    ensures 2 <= l && InBounds(g, r, j) ==> 1 <= RowCount(g, r, j, l)
    ensures 0 <= RowSum(g, r, j, l, c) <= 255 * RowCount(g, r, j, l)
  {
    if l > 0 {
      RowBounds(g, r, j, l - 1, c);
    }
  }

  /** A window holds at most nine cells, and at least one when its centre is in the grid. */
  lemma {:induction false} WindowBounds(g: Grid, i: int, j: int, k: nat, c: Channel)
    requires k <= 3
    ensures WindowCount(g, i, j, k) <= 3 * k
    ensures 2 <= k && InBounds(g, i, j) ==> 1 <= WindowCount(g, i, j, k)
    ensures 0 <= WindowSum(g, i, j, k, c) <= 255 * WindowCount(g, i, j, k)
  {
    if k > 0 {
      WindowBounds(g, i, j, k - 1, c);
      RowBounds(g, i + k - 2, j, 3, c);
    }
  }

  /** Channel c of the blurred cell (i, j): the rounded mean over the in-bounds window. */
  function BlurChannel(g: Grid, i: int, j: int, c: Channel): (v: Byte)
    requires InBounds(g, i, j)
  {
    WindowBounds(g, i, j, 3, c);
    RoundHalfUpBounds(WindowSum(g, i, j, 3, c), WindowCount(g, i, j, 3));
    RoundHalfUp(WindowSum(g, i, j, 3, c), WindowCount(g, i, j, 3))
  }

  function BlurAt(g: Grid, i: int, j: int): Pixel
    requires InBounds(g, i, j)
  {
    Pixel(BlurChannel(g, i, j, Red), BlurChannel(g, i, j, Green), BlurChannel(g, i, j, Blue))
  }

  /** The grid after blur: every cell blurred over the unchanged original. */
  function BlurGrid(g: Grid): (r: Grid)
    requires Rect(g)
    ensures |r| == |g| && Rect(r) && Width(r) == Width(g)
    ensures forall i, j {:trigger BlurAt(g, i, j)} :: 0 <= i < |g| && 0 <= j < Width(g) ==> r[i][j] == BlurAt(g, i, j)
  {
    seq(|g|, i requires 0 <= i < |g| =>
      seq(Width(g), j requires 0 <= j < Width(g) => BlurAt(g, i, j)))
  }

  // -------------------------------------------------------------------- edges

  /** The Sobel kernels of edges, indexed [k][l]. */
  const GX: seq<seq<int>> := [[-1, 0, 1], [-2, 0, 2], [-1, 0, 1]]
  const GY: seq<seq<int>> := [[-1, -2, -1], [0, 0, 0], [1, 2, 1]]

  predicate IsKernel(w: seq<seq<int>>) {
    |w| == 3 && forall k :: 0 <= k < 3 ==> |w[k]| == 3
  }

  /** The sum of channel c weighted by `weights` over the first l cells of row r of the window that lie in the grid. */
  function RowKernelSum(g: Grid, r: int, j: int, l: nat, c: Channel, weights: seq<int>): int
    requires l <= |weights|
  {
    if l == 0 then 0
    else
      RowKernelSum(g, r, j, l - 1, c, weights)
      + (if InBounds(g, r, j + l - 2) then Get(g[r][j + l - 2], c) * weights[l - 1] else 0)
  }

  /** The sum of channel c weighted by kernel w over the cells of the first k rows of the window that lie in the grid. */
  function KernelSum(g: Grid, i: int, j: int, k: nat, c: Channel, w: seq<seq<int>>): int
    requires k <= 3 && IsKernel(w)
  {
    if k == 0 then 0 else KernelSum(g, i, j, k - 1, c, w) + RowKernelSum(g, i + k - 2, j, 3, c, w[k - 1])
  }

  /** The total of the positive weights among the first l of a kernel row. */
  function PositiveWeight(weights: seq<int>, l: nat): (s: nat)
    requires l <= |weights|
  {
    if l == 0 then 0 else PositiveWeight(weights, l - 1) + (if weights[l - 1] > 0 then weights[l - 1] else 0)
  }

  /** The total of the magnitudes of the negative weights among the first l of a kernel row. */
  function NegativeWeight(weights: seq<int>, l: nat): (s: nat)
    requires l <= |weights|
  {
    if l == 0 then 0 else NegativeWeight(weights, l - 1) + (if weights[l - 1] < 0 then -weights[l - 1] else 0)
  }

  /** The positive weights of the first k rows of kernel w. */
  function KernelPositive(w: seq<seq<int>>, k: nat): (s: nat)
    requires k <= 3 && IsKernel(w)
  {
    if k == 0 then 0 else KernelPositive(w, k - 1) + PositiveWeight(w[k - 1], 3)
  }

  /** The magnitudes of the negative weights of the first k rows of kernel w. */
  function KernelNegative(w: seq<seq<int>>, k: nat): (s: nat)
    requires k <= 3 && IsKernel(w)
  {
    if k == 0 then 0 else KernelNegative(w, k - 1) + NegativeWeight(w[k - 1], 3)
  }

  /** A weighted window row lies between -255 times its negative weights and 255 times its positive weights. */
  lemma {:induction false} RowKernelBounds(g: Grid, r: int, j: int, l: nat, c: Channel, weights: seq<int>)
    requires l <= |weights|
    ensures -255 * NegativeWeight(weights, l) <= RowKernelSum(g, r, j, l, c, weights) <= 255 * PositiveWeight(weights, l)
  {
    if l > 0 {
      RowKernelBounds(g, r, j, l - 1, c, weights);
      if InBounds(g, r, j + l - 2) {
        WeightedCellBounds(Get(g[r][j + l - 2], c), weights[l - 1]);
      }
    }
  }

  /** One weighted channel value lies between -255 times the weight's negative part and 255 times its positive part. */
  lemma WeightedCellBounds(v: Byte, w: int)
    ensures -255 * (if w < 0 then -w else 0) <= v * w <= 255 * (if w > 0 then w else 0)
  {
    if w >= 0 {
      MulMonotone(w, 0, v);
      MulMonotone(w, v, 255);
    } else {
      MulMonotone(-w, 0, v);
      MulMonotone(-w, v, 255);
    }
  }

  /** The same bounds for the first k rows of the window. */
  lemma {:induction false} KernelBounds(g: Grid, i: int, j: int, k: nat, c: Channel, w: seq<seq<int>>)
    requires k <= 3 && IsKernel(w)
    ensures -255 * KernelNegative(w, k) <= KernelSum(g, i, j, k, c, w) <= 255 * KernelPositive(w, k)
  {
    if k > 0 {
      KernelBounds(g, i, j, k - 1, c, w);
      RowKernelBounds(g, i + k - 2, j, 3, c, w[k - 1]);
    }
  }

  /** compute: the gradient magnitude round(sqrt(gx^2 + gy^2)), capped at 255. */
  function Compute(gx: int, gy: int): (v: Byte)
  {
    SquarePositive(gx);
    SquarePositive(gy);
    CappedRoot(gx * gx + gy * gy)
  }

  /** round(sqrt(n)), capped at 255. */
  function CappedRoot(n: nat): (v: Byte)
  {
    var value := RoundSqrt(n);
    if value > 255 then 255 else value
  }

  /**
   * Below the cap, compute is the integer nearest to sqrt(gx^2 + gy^2); it
   * reaches the cap exactly when that root is at least 254.5; and it is 0
   * exactly when there is no gradient at all.
   */
  lemma ComputeIsRoundedMagnitude(gx: int, gy: int)
    ensures Compute(gx, gy) < 255 ==> NearestRoot(gx * gx + gy * gy, Compute(gx, gy))
    ensures Compute(gx, gy) == 255 <==> 509 * 509 <= 4 * (gx * gx + gy * gy)
    ensures Compute(gx, gy) == 0 <==> gx == 0 && gy == 0
  {
    SquarePositive(gx);
    SquarePositive(gy);
    CappedRootIsNearest(gx * gx + gy * gy);
    assert gx * gx + gy * gy == 0 <==> gx == 0 && gy == 0;
  }

  lemma SquarePositive(x: int)
    ensures x * x >= 0
    ensures x * x == 0 <==> x == 0
  {
    if x < 0 {
      MulMonotone(-x, 1, -x);
    } else if x > 0 {
      MulMonotone(x, 1, x);
    }
  }

  lemma CappedRootIsNearest(n: nat)
    ensures CappedRoot(n) < 255 ==> NearestRoot(n, CappedRoot(n))
    ensures CappedRoot(n) == 255 <==> 509 * 509 <= 4 * n
    ensures CappedRoot(n) == 0 <==> n == 0
  {
    var r := RoundSqrt(n);
    RoundSqrtBounds(n);
    if r > 255 {
      MulMonotone(2 * r - 1, 509, 2 * r - 1);
      MulMonotone(509, 509, 2 * r - 1);
    } else if r < 255 {
      MulMonotone(2 * r + 1, 2 * r + 1, 509);
      MulMonotone(509, 2 * r + 1, 509);
    }
    if r > 0 {
      MulMonotone(2 * r - 1, 1, 2 * r - 1);
    }
  }

  function EdgesChannel(g: Grid, i: int, j: int, c: Channel): Byte
  {
    Compute(KernelSum(g, i, j, 3, c, GX), KernelSum(g, i, j, 3, c, GY))
  }

  function EdgesAt(g: Grid, i: int, j: int): Pixel
  {
    Pixel(EdgesChannel(g, i, j, Red), EdgesChannel(g, i, j, Green), EdgesChannel(g, i, j, Blue))
  }

  /** The grid after edges: every cell computed over the unchanged original. */
  function EdgesGrid(g: Grid): (r: Grid)
    requires Rect(g)
    ensures |r| == |g| && Rect(r) && Width(r) == Width(g)
    ensures forall i, j {:trigger EdgesAt(g, i, j)} :: 0 <= i < |g| && 0 <= j < Width(g) ==> r[i][j] == EdgesAt(g, i, j)
  {
    seq(|g|, i requires 0 <= i < |g| =>
      seq(Width(g), j requires 0 <= j < Width(g) => EdgesAt(g, i, j)))
  }
}
