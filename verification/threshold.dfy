/**
 * The global binarizer of `ImageProcessor.to_binary`:
 * `np.where(grayscale > threshold, 255, 0)`. The threshold is any integer;
 * nothing checks that it lies in 0..255.
 */
module Threshold {
  import opened Buffers
  import opened Sequences

  /** One sample: white when strictly above the threshold, black otherwise. */
  function BinaryLevel(x: Byte, threshold: int): Byte {
    if x > threshold then 255 else 0
  }

  /** One row of samples, binarized: each sample is 0 or 255, and 255 exactly when above the threshold. */
  function BinarizeRow(row: seq<Byte>, threshold: int): (r: seq<Byte>)
    ensures |r| == |row|
    ensures forall j :: 0 <= j < |row| ==>
      (r[j] == 0 || r[j] == 255) && (r[j] == 255 <==> row[j] > threshold)
  {
    seq(|row|, j requires 0 <= j < |row| => BinaryLevel(row[j], threshold))
  }

  /**
   * The binary buffer: the same shape as the grayscale buffer, every sample
   * 0 or 255, and a sample is 255 exactly when the gray sample is strictly
   * greater than the threshold (a sample equal to it is black).
   */
  function Binarize(g: Grid, threshold: int): (b: Grid)
    ensures SameShape(b, g) && IsBinary(b)
    ensures IsRect(g) ==> IsRect(b)
    ensures forall i, j :: 0 <= i < |g| && 0 <= j < |g[i]| ==>
      (b[i][j] == 255 <==> g[i][j] > threshold)
  {
    seq(|g|, i requires 0 <= i < |g| => BinarizeRow(g[i], threshold))
  }

  /** A threshold of 255 or more leaves no sample above it: the result is all black. */
  lemma HighThresholdAllBlack(g: Grid, threshold: int)
    requires threshold >= 255
    ensures forall i, j :: 0 <= i < |g| && 0 <= j < |g[i]| ==> Binarize(g, threshold)[i][j] == 0
  {
  }

  /** A negative threshold lies below every sample: the result is all white. */
  lemma NegativeThresholdAllWhite(g: Grid, threshold: int)
    requires threshold < 0
    ensures forall i, j :: 0 <= i < |g| && 0 <= j < |g[i]| ==> Binarize(g, threshold)[i][j] == 255
  {
  }

  /**
   * A binary buffer read back as grayscale and binarized again with any
   * threshold in 0..254 comes out unchanged.
   */
  lemma BinarizeBinary(b: Grid, threshold: int)
    requires IsBinary(b) && 0 <= threshold < 255
    ensures Binarize(b, threshold) == b
  {
    var r := Binarize(b, threshold);
    forall i | 0 <= i < |b|
      ensures r[i] == b[i]
    {
      assert forall j :: 0 <= j < |b[i]| ==> r[i][j] == b[i][j];
    }
  }

  /** How many samples of `s` are strictly greater than `threshold`. */
  function CountAbove(s: seq<Byte>, threshold: int): (n: nat)
    ensures n <= |s|
  {
    if s == [] then 0 else (if s[0] > threshold then 1 else 0) + CountAbove(s[1..], threshold)
  }

  /** Binarizing row by row is binarizing the flattened samples. */
  lemma {:induction false} FlattenBinarize(g: Grid, threshold: int)
    ensures Flatten(Binarize(g, threshold)) == BinarizeRow(Flatten(g), threshold)
  {
    if g != [] {
      var b := Binarize(g, threshold);
      assert b[1..] == Binarize(g[1..], threshold);
      FlattenBinarize(g[1..], threshold);
      assert BinarizeRow(Flatten(g), threshold)
          == BinarizeRow(g[0], threshold) + BinarizeRow(Flatten(g[1..]), threshold);
    }
  }

  /** The white samples of a binarized row are its samples above the threshold. */
  lemma {:induction false} WhiteOfRow(s: seq<Byte>, threshold: int)
    ensures Occurrences(BinarizeRow(s, threshold), 255) == CountAbove(s, threshold)
    ensures Occurrences(BinarizeRow(s, threshold), 0) == |s| - CountAbove(s, threshold)
  {
    if s != [] {
      assert BinarizeRow(s, threshold)[1..] == BinarizeRow(s[1..], threshold);
      WhiteOfRow(s[1..], threshold);
    }
  }

  /**
   * The white count of `to_binary`'s result is the number of gray samples
   * above the threshold, and the black count is all the others.
   */
  lemma WhiteCountIsCountAbove(g: Grid, threshold: int)
    ensures Occurrences(Flatten(Binarize(g, threshold)), 255) == CountAbove(Flatten(g), threshold)
    ensures Occurrences(Flatten(Binarize(g, threshold)), 0) == PixelCount(g) - CountAbove(Flatten(g), threshold)
  {
    FlattenBinarize(g, threshold);
    WhiteOfRow(Flatten(g), threshold);
  }
}
