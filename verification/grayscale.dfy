/**
 * The grayscale transform of `ImageProcessor.to_grayscale`: a 2-D array is
 * passed through; a 3-D array is reduced with the weights 0.299, 0.587 and
 * 0.114 applied to its first three channels and truncated to 8 bits.
 */
module Grayscale {
  import opened Wrappers
  import opened Buffers

  function Min3(a: int, b: int, c: int): int {
    if a <= b && a <= c then a else if b <= c then b else c
  }

  function Max3(a: int, b: int, c: int): int {
    if a >= b && a >= c then a else if b >= c then b else c
  }

  /**
   * The weighted sum 0.299 R + 0.587 G + 0.114 B, truncated toward zero to
   * an 8-bit sample, computed in exact rational arithmetic. There the
   * weights add up to exactly 1, so the result is a weighted average: it
   * lies between the smallest and the largest channel. (In binary floating
   * point the weights add up to just under 1.)
   */
  function Luma(r: Byte, g: Byte, b: Byte): (y: Byte)
    ensures Min3(r, g, b) <= y <= Max3(r, g, b)
  {
    (0.299 * r as real + 0.587 * g as real + 0.114 * b as real).Floor
  }

  /** In exact arithmetic a gray pixel (R = G = B = k) keeps its level. */
  lemma LumaOfGray(k: Byte)
    ensures Luma(k, k, k) == k
  {
  }

  /** Luma grows with each channel. */
  lemma LumaMonotone(r: Byte, g: Byte, b: Byte, r': Byte, g': Byte, b': Byte)
    requires r <= r' && g <= g' && b <= b'
    ensures Luma(r, g, b) <= Luma(r', g', b')
  {
  }

  /**
   * The grayscale buffer of a picture: the 2-D array itself, or one Luma
   * sample per pixel of a 3-D array; a 3-D array with fewer than three
   * channels cannot be multiplied by the three weights and raises.
   */
  function ToGray(p: Picture): (r: Result<Grid, Error>)
    requires p.WellFormed()
    ensures p.pixels.Plane? ==> r == Success(p.pixels.rows)
    ensures r.Failure? <==> p.pixels.Channels? && p.pixels.depth < 3
    ensures r.Failure? ==> r.error == ShapeMismatch
    ensures r.Success? ==> |r.value| == p.height && forall i :: 0 <= i < p.height ==> |r.value[i]| == p.width
    ensures r.Success? ==> IsRect(r.value)
    ensures r.Success? && p.pixels.Channels? ==>
      forall i, j :: 0 <= i < p.height && 0 <= j < p.width ==>
        var px := p.pixels.cells[i][j];
        r.value[i][j] == Luma(px[0], px[1], px[2])
  {
    match p.pixels
    case Plane(rows) => Success(rows)
    case Channels(depth, cells) =>
      if depth < 3 then Failure(ShapeMismatch)
      else
        var g: Grid := seq(p.height, i requires 0 <= i < p.height =>
          seq(p.width, j requires 0 <= j < p.width =>
            Luma(cells[i][j][0], cells[i][j][1], cells[i][j][2])));
        Success(g)
  }

  /**
   * Only the first three channels matter: two pictures of the same size
   * whose pixels agree on R, G and B (an alpha channel may differ or be
   * absent) have the same grayscale buffer.
   */
  lemma AlphaIgnored(p: Picture, q: Picture)
    requires p.WellFormed() && q.WellFormed()
    requires p.pixels.Channels? && q.pixels.Channels?
    requires p.pixels.depth >= 3 && q.pixels.depth >= 3
    requires p.height == q.height && p.width == q.width
    requires forall i, j, k :: 0 <= i < p.height && 0 <= j < p.width && 0 <= k < 3 ==>
      p.pixels.cells[i][j][k] == q.pixels.cells[i][j][k]
    ensures ToGray(p) == ToGray(q)
  {
    var a, b := ToGray(p).value, ToGray(q).value;
    forall i | 0 <= i < p.height
      ensures a[i] == b[i]
    {
      forall j | 0 <= j < p.width
        ensures a[i][j] == b[i][j]
      {
        var x, y := p.pixels.cells[i][j], q.pixels.cells[i][j];
        assert x[0] == y[0] && x[1] == y[1] && x[2] == y[2];
      }
    }
    assert a == b;
  }
}
