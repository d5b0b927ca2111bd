/**
 * The adaptive binarizer of `ImageProcessor.adaptive_binary`: a pixel is
 * white when it is strictly above the mean of the block_size x block_size
 * window around it minus `constant`. The local mean is that of scipy's
 * `uniform_filter` with its default border mode, "reflect", taken as an
 * exact rational. `uniform_filter` filters only along axes whose size is
 * above 1 and otherwise copies its input, so a block size of 1 or less
 * leaves every pixel as its own mean.
 */
module Adaptive {
  import opened Buffers
  import opened Arithmetic

  /**
   * The index that an out-of-range position `k` reads under the "reflect"
   * border mode (d c b a | a b c d | d c b a): the line mirrored about its
   * edges, repeated with period 2n.
   */
  function Reflect(k: int, n: nat): (r: nat)
    requires n > 0
    ensures r < n
    ensures 0 <= k < n ==> r == k
  {
    var m := k % (2 * n);
    if m < n then m else 2 * n - 1 - m
  }

  /**
   * The border is a mirror between samples: position -1 - k reads what k
   * reads (about the left edge) and so does 2n - 1 - k (about the right edge).
   */
  lemma ReflectMirror(k: int, n: nat)
    requires n > 0
    ensures Reflect(-1 - k, n) == Reflect(k, n)
    ensures Reflect(2 * n - 1 - k, n) == Reflect(k, n)
  {
    var p := 2 * n;
    var m := k % p;
    var q := k / p;
    assert k == q * p + m;
    assert -1 - k == (-q - 1) * p + (p - 1 - m);
    ModUnique(-1 - k, p, -q - 1, p - 1 - m);
    assert 2 * n - 1 - k == (-q) * p + (p - 1 - m);
    ModUnique(2 * n - 1 - k, p, -q, p - 1 - m);
  }

  /** The sum of `count` samples of `row` starting at position `start`, reflected at the ends. */
  function RowWindowSum(row: seq<Byte>, start: int, count: nat): (s: int)
    requires |row| > 0
    ensures 0 <= s <= 255 * count
    decreases count
  {
    if count == 0 then 0
    else row[Reflect(start, |row|)] + RowWindowSum(row, start + 1, count - 1)
  }

  /** The sum of a `rows` x `cols` window whose top-left corner is (top, left), reflected at the borders. */
  function WindowSum(g: Grid, top: int, left: int, rows: nat, cols: nat): (s: int)
    requires IsRect(g) && |g| > 0 && Width(g) > 0
    ensures 0 <= s <= 255 * cols * rows
    decreases rows
  {
    if rows == 0 then 0
    else RowWindowSum(g[Reflect(top, |g|)], left, cols) + WindowSum(g, top + 1, left, rows - 1, cols)
  }

  /** The window the filter uses: the block size when above 1, else a single sample. */
  function Window(blockSize: int): (size: nat)
    ensures size >= 1
  {
    if blockSize > 1 then blockSize else 1
  }

  /**
   * The local mean at (i, j): the mean of the `size` x `size` window that
   * starts `size / 2` rows above and columns left of the pixel.
   */
  function LocalMean(g: Grid, blockSize: int, i: nat, j: nat): real
    requires IsRect(g)
    requires i < |g| && j < |g[i]|
  {
    var size := Window(blockSize);
    WindowSum(g, i - size / 2, j - size / 2, size, size) as real / (size * size) as real
  }

  /** The local mean lies in 0..255, like the samples it averages. */
  lemma LocalMeanBounds(g: Grid, blockSize: int, i: nat, j: nat)
    requires IsRect(g)
    requires i < |g| && j < |g[i]|
    ensures 0.0 <= LocalMean(g, blockSize, i, j) <= 255.0
  {
    var size := Window(blockSize);
    var n := size * size;
    assert 255 * size * size == 255 * n;
    MeanBounds(WindowSum(g, i - size / 2, j - size / 2, size, size), n, 0, 255);
  }

  /**
   * The adaptive binary buffer: it has the gray buffer's shape, every sample
   * is 0 or 255, and a sample is 255 exactly when the gray sample is
   * strictly above its local mean minus `constant`.
   */
  function AdaptiveBinarize(g: Grid, blockSize: int, constant: real): (b: Grid)
    requires IsRect(g)
    ensures SameShape(b, g) && IsRect(b) && IsBinary(b)
    ensures forall i, j :: 0 <= i < |g| && 0 <= j < |g[i]| ==>
      (b[i][j] == 255 <==> g[i][j] as real > LocalMean(g, blockSize, i, j) - constant)
  {
    seq(|g|, i requires 0 <= i < |g| =>
      seq(|g[i]|, j requires 0 <= j < |g[i]| =>
        if g[i][j] as real > LocalMean(g, blockSize, i, j) - constant then 255 else 0))
  }

  /** A row whose samples all equal `k` sums to k per sample. */
  lemma {:induction false} UniformRowSum(row: seq<Byte>, k: Byte, start: int, count: nat)
    requires |row| > 0 && forall j :: 0 <= j < |row| ==> row[j] == k
    ensures RowWindowSum(row, start, count) == k * count
    decreases count
  {
    if count > 0 {
      UniformRowSum(row, k, start + 1, count - 1);
    }
  }

  /** A grid whose samples all equal `k` sums to k per sample of the window. */
  lemma {:induction false} UniformWindowSum(g: Grid, k: Byte, top: int, left: int, rows: nat, cols: nat)
    requires IsRect(g) && |g| > 0 && Width(g) > 0
    requires forall i, j :: 0 <= i < |g| && 0 <= j < |g[i]| ==> g[i][j] == k
    ensures WindowSum(g, top, left, rows, cols) == k * (cols * rows)
    decreases rows
  {
    if rows > 0 {
      UniformRowSum(g[Reflect(top, |g|)], k, left, cols);
      UniformWindowSum(g, k, top + 1, left, rows - 1, cols);
      var rest := cols * (rows - 1);
      MulAdd(cols, 1, rows - 1);
      MulAdd(k, cols, rest);
    }
  }

  /** A sum of n equal terms k, divided by n, is k. */
  lemma DivideEvenly(k: int, n: nat)
    requires n > 0
    ensures (k * n) as real / n as real == k as real
  {
    assert (k * n) as real == k as real * n as real;
  }

  /** On a uniform gray image the local mean is the gray level itself. */
  lemma UniformMean(g: Grid, k: Byte, blockSize: int, i: nat, j: nat)
    requires IsRect(g) && i < |g| && j < |g[i]|
    requires forall i, j :: 0 <= i < |g| && 0 <= j < |g[i]| ==> g[i][j] == k
    ensures LocalMean(g, blockSize, i, j) == k as real
  {
    var size := Window(blockSize);
    var n := size * size;
    UniformWindowSum(g, k, i - size / 2, j - size / 2, size, size);
    DivideEvenly(k, n);
  }

  /**
   * On a uniform gray image every pixel equals its local mean, so the
   * result is all white when `constant` is positive and all black when it
   * is zero or negative (whatever the window size).
   */
  lemma UniformImage(g: Grid, k: Byte, blockSize: int, constant: real)
    requires IsRect(g)
    requires forall i, j :: 0 <= i < |g| && 0 <= j < |g[i]| ==> g[i][j] == k
    ensures var b := AdaptiveBinarize(g, blockSize, constant);
      forall i, j :: 0 <= i < |g| && 0 <= j < |g[i]| ==>
        b[i][j] == (if constant > 0.0 then 255 else 0)
  {
    forall i, j | 0 <= i < |g| && 0 <= j < |g[i]|
      ensures LocalMean(g, blockSize, i, j) == k as real
    {
      UniformMean(g, k, blockSize, i, j);
    }
  }

  /**
   * A constant above 255 puts every threshold below 0: all white. A
   * constant of -255 or less puts every threshold at 255 or above: all black.
   */
  lemma ExtremeConstant(g: Grid, blockSize: int, constant: real)
    requires IsRect(g)
    ensures var b := AdaptiveBinarize(g, blockSize, constant);
      forall i, j :: 0 <= i < |g| && 0 <= j < |g[i]| ==>
        (constant > 255.0 ==> b[i][j] == 255) && (constant <= -255.0 ==> b[i][j] == 0)
  {
    forall i, j | 0 <= i < |g| && 0 <= j < |g[i]|
      ensures 0.0 <= LocalMean(g, blockSize, i, j) <= 255.0
    {
      LocalMeanBounds(g, blockSize, i, j);
    }
  }

  /** With a block size of 1 or less the filter copies its input: the local mean is the pixel itself. */
  lemma SmallWindow(g: Grid, blockSize: int, i: nat, j: nat)
    requires IsRect(g) && blockSize <= 1 && i < |g| && j < |g[i]|
    ensures LocalMean(g, blockSize, i, j) == g[i][j] as real
  {
    assert WindowSum(g, i, j, 1, 1) == g[i][j];
  }

  /**
   * So with a block size of 1 or less every pixel is compared with itself:
   * the result is all white when `constant` is positive, all black otherwise.
   */
  lemma SmallWindowResult(g: Grid, blockSize: int, constant: real)
    requires IsRect(g) && blockSize <= 1
    ensures var b := AdaptiveBinarize(g, blockSize, constant);
      forall i, j :: 0 <= i < |g| && 0 <= j < |g[i]| ==>
        b[i][j] == (if constant > 0.0 then 255 else 0)
  {
    forall i, j | 0 <= i < |g| && 0 <= j < |g[i]|
      ensures LocalMean(g, blockSize, i, j) == g[i][j] as real
    {
      SmallWindow(g, blockSize, i, j);
    }
  }
}
