/**
 * Pixels and grids of the bitmap filters.
 *
 * A pixel is one RGBTRIPLE: three independent 8-bit channels. An image is a
 * height × width array of pixels (`array2<Pixel>`); `View` gives its contents
 * as a value, a sequence of rows, which is what the filters are specified on.
 */
module Image {

  /** One 8-bit channel value (BYTE). */
  type Byte = x: int | 0 <= x < 256

  /** One RGBTRIPLE. */
  datatype Pixel = Pixel(red: Byte, green: Byte, blue: Byte)

  /** The three channels, named so that a filter can be stated once per channel. */
  datatype Channel = Red | Green | Blue

  function Get(p: Pixel, c: Channel): Byte {
    match c
    case Red => p.red
    case Green => p.green
    case Blue => p.blue
  }

  /** The value calloc leaves in every cell of a fresh snapshot. */
  const Black := Pixel(0, 0, 0)

  /** A value snapshot of an image: `height` rows of `width` pixels each. */
  type Grid = seq<seq<Pixel>>

  /** The width of a grid, read off its first row (0 for a grid with no rows). */
  function Width(g: Grid): nat {
    if |g| == 0 then 0 else |g[0]|
  }

  /** Every row has the same length. */
  predicate Rect(g: Grid) {
    forall i :: 0 <= i < |g| ==> |g[i]| == Width(g)
  }

  /** (r, c) names a cell of the grid; the border test of blur and edges. */
  predicate InBounds(g: Grid, r: int, c: int) {
    0 <= r < |g| && 0 <= c < |g[r]|
  }

  /** Every pixel of the grid is `p`. */
  predicate Uniform(g: Grid, p: Pixel) {
    forall i, j :: 0 <= i < |g| && 0 <= j < |g[i]| ==> g[i][j] == p
  }

  /** The current contents of an image array, as a grid. */
  ghost function View(a: array2<Pixel>): (g: Grid)
    reads a
    ensures |g| == a.Length0 && Rect(g)
    ensures a.Length0 > 0 ==> Width(g) == a.Length1
    ensures forall i :: 0 <= i < a.Length0 ==> |g[i]| == a.Length1
    ensures forall i, j :: 0 <= i < a.Length0 && 0 <= j < a.Length1 ==> g[i][j] == a[i, j]
  {
    seq(a.Length0, i requires 0 <= i < a.Length0 reads a =>
      seq(a.Length1, j requires 0 <= j < a.Length1 reads a => a[i, j]))
  }

  /** Two grids with the same shape and the same cells are equal. */
  lemma ViewIs(a: array2<Pixel>, g: Grid)
    requires |g| == a.Length0
    requires forall i :: 0 <= i < |g| ==> |g[i]| == a.Length1
    requires forall i, j :: 0 <= i < a.Length0 && 0 <= j < a.Length1 ==> a[i, j] == g[i][j]
    ensures View(a) == g
  {
    var v := View(a);
    forall i | 0 <= i < |g|
      ensures v[i] == g[i]
    {
      assert |v[i]| == |g[i]|;
      assert forall j :: 0 <= j < |g[i]| ==> v[i][j] == g[i][j];
    }
  }
}
