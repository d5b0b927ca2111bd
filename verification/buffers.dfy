/**
 * The pixel buffers the image processor holds: 8-bit samples arranged in a
 * 2-D grid (one sample per pixel) or a 3-D array (several channels per pixel),
 * and the errors its operations raise.
 */
module Buffers {

  /** An unsigned 8-bit sample (numpy's `uint8`). */
  type Byte = x: int | 0 <= x < 256

  /** A 2-D buffer of samples, row by row (height rows of width samples). */
  type Grid = seq<seq<Byte>>

  /** The width of a grid: the length of its first row, 0 when it has no rows. */
  function Width(g: Grid): nat {
    if |g| == 0 then 0 else |g[0]|
  }

  /** Every row has the same length, as in any numpy array. */
  predicate IsRect(g: Grid) {
    forall i :: 0 <= i < |g| ==> |g[i]| == Width(g)
  }

  /** Two grids with the same number of rows and the same row lengths. */
  predicate SameShape(a: Grid, b: Grid) {
    |a| == |b| && forall i :: 0 <= i < |a| ==> |a[i]| == |b[i]|
  }

  /** Every sample is 0 (black) or 255 (white). */
  predicate IsBinary(g: Grid) {
    forall i, j :: 0 <= i < |g| && 0 <= j < |g[i]| ==> g[i][j] == 0 || g[i][j] == 255
  }

  /** The samples of a grid in row-major order: what numpy's reductions walk over. */
  function Flatten(g: Grid): seq<Byte> {
    if g == [] then [] else g[0] + Flatten(g[1..])
  }

  /** The number of samples of a grid (numpy's `size`). */
  function PixelCount(g: Grid): nat {
    |Flatten(g)|
  }

  /** A rectangular grid has height x width samples. */
  lemma {:induction false} RectPixelCount(g: Grid)
    requires IsRect(g)
    ensures PixelCount(g) == |g| * Width(g)
  {
    if g != [] {
      var w := Width(g);
      assert IsRect(g[1..]) && (|g| > 1 ==> Width(g[1..]) == w) by {
        assert forall i :: 0 <= i < |g[1..]| ==> g[1..][i] == g[i + 1];
      }
      RectPixelCount(g[1..]);
      assert |g| * w == w + (|g| - 1) * w;
    }
  }

  /** The array numpy builds from a PIL image. */
  datatype PixelArray =
    | Plane(rows: Grid)                                 // 2-D: one sample per pixel
    | Channels(depth: nat, cells: seq<seq<seq<Byte>>>)  // 3-D: `depth` samples per pixel

  /**
   * A decoded image: PIL's `mode` descriptor, its `size` (width, height) and
   * the array of its samples.
   */
  datatype Picture = Picture(mode: string, width: nat, height: nat, pixels: PixelArray) {

    /** The array has `height` rows of `width` pixels, each pixel `depth` samples deep. */
    predicate WellFormed() {
      match pixels
      case Plane(rows) =>
        |rows| == height && forall i :: 0 <= i < height ==> |rows[i]| == width
      case Channels(depth, cells) =>
        && |cells| == height
        && (forall i :: 0 <= i < height ==> |cells[i]| == width)
        && (forall i, j :: 0 <= i < height && 0 <= j < width ==> |cells[i][j]| == depth)
    }
  }

  /** The errors the processor's operations raise. */
  datatype Error =
    | NoImageLoaded       // `to_grayscale` with no image: ValueError("Nenhuma imagem carregada")
    | ShapeMismatch       // `np.dot` of fewer than three channels with three weights
    | EmptyReduction      // `np.min`/`np.max` of a grayscale buffer with no samples
}
