/**
 * The statistics record of `ImageProcessor.get_image_stats`: a dictionary
 * holding the size and mode keys when an image is loaded, the grayscale
 * keys when a grayscale buffer exists, and the binary keys when a binary
 * buffer exists.
 */
module Stats {
  import opened Wrappers
  import opened Buffers
  import opened Sequences
  import opened Arithmetic

  /** The smallest sample (`np.min`). */
  function SeqMin(s: seq<Byte>): (m: Byte)
    requires |s| > 0
    ensures m in s && forall k :: 0 <= k < |s| ==> m <= s[k]
  {
    if |s| == 1 then s[0]
    else
      var rest := SeqMin(s[1..]);
      assert forall k :: 1 <= k < |s| ==> s[k] == s[1..][k - 1];
      if s[0] <= rest then s[0] else rest
  }

  /** The largest sample (`np.max`). */
  function SeqMax(s: seq<Byte>): (m: Byte)
    requires |s| > 0
    ensures m in s && forall k :: 0 <= k < |s| ==> s[k] <= m
  {
    if |s| == 1 then s[0]
    else
      var rest := SeqMax(s[1..]);
      assert forall k :: 1 <= k < |s| ==> s[k] == s[1..][k - 1];
      if s[0] >= rest then s[0] else rest
  }

  /** The sum of the samples (`np.sum`). */
  function Sum(s: seq<Byte>): nat {
    if s == [] then 0 else s[0] + Sum(s[1..])
  }

  /** The mean of the samples (`np.mean`), as an exact rational. */
  function Mean(s: seq<Byte>): real
    requires |s| > 0
  {
    Sum(s) as real / |s| as real
  }

  /** The values the record holds. */
  datatype StatValue =
    | Size(width: nat, height: nat)  // PIL's `size`
    | Mode(name: string)             // PIL's `mode`
    | Level(level: Byte)             // a sample value
    | Average(mean: real)            // a mean of samples
    | Pixels(count: nat)             // a number of samples
    | Percentage(percent: real)      // a share of 100
    | NaN                            // numpy's result of 0 / 0

  /** `white / size * 100`: numpy yields NaN (with a warning, no error) for an empty buffer. */
  function WhitePercentage(white: nat, size: nat): StatValue {
    if size == 0 then NaN else Percentage((white * 100) as real / size as real)
  }

  const ImageKeys: set<string> := {"original_size", "original_mode"}
  const GrayscaleKeys: set<string> := {"grayscale_min", "grayscale_max", "grayscale_mean"}
  const BinaryKeys: set<string> := {"binary_white_pixels", "binary_black_pixels", "binary_white_percentage"}

  /**
   * The statistics record. It raises only when a grayscale buffer exists
   * and has no samples (`np.min` of an empty array); otherwise it holds
   * exactly the keys of the stages that have run, with their values.
   */
  function ImageStats(image: Option<Picture>, gray: Option<Grid>, binary: Option<Grid>)
    : (r: Result<map<string, StatValue>, Error>)
    ensures r.Failure? <==> gray.Some? && PixelCount(gray.value) == 0
    ensures r.Failure? ==> r.error == EmptyReduction
    ensures r.Success? ==> forall key :: key in ImageKeys ==> (key in r.value <==> image.Some?)
    ensures r.Success? ==> forall key :: key in GrayscaleKeys ==> (key in r.value <==> gray.Some?)
    ensures r.Success? ==> forall key :: key in BinaryKeys ==> (key in r.value <==> binary.Some?)
    ensures r.Success? ==> r.value.Keys <= ImageKeys + GrayscaleKeys + BinaryKeys
    ensures r.Success? && image.Some? ==>
      && r.value["original_size"] == Size(image.value.width, image.value.height)
      && r.value["original_mode"] == Mode(image.value.mode)
    ensures r.Success? && gray.Some? ==>
      var s := Flatten(gray.value);
      && r.value["grayscale_min"].Level? && r.value["grayscale_max"].Level?
      && r.value["grayscale_min"].level in s && r.value["grayscale_max"].level in s
      && (forall k :: 0 <= k < |s| ==> r.value["grayscale_min"].level <= s[k] <= r.value["grayscale_max"].level)
      && r.value["grayscale_mean"] == Average(Mean(s))
    ensures r.Success? && binary.Some? ==>
      var s := Flatten(binary.value);
      && r.value["binary_white_pixels"] == Pixels(Occurrences(s, 255))
      && r.value["binary_black_pixels"] == Pixels(Occurrences(s, 0))
      && r.value["binary_white_percentage"] == WhitePercentage(Occurrences(s, 255), |s|)
  {
    if gray.Some? && PixelCount(gray.value) == 0 then Failure(EmptyReduction)
    else
      var withImage: map<string, StatValue> :=
        if image.Some? then
          map["original_size" := Size(image.value.width, image.value.height),
              "original_mode" := Mode(image.value.mode)]
        else map[];
      var withGray :=
        if gray.Some? then
          var s := Flatten(gray.value);
          withImage["grayscale_min" := Level(SeqMin(s))]
                   ["grayscale_max" := Level(SeqMax(s))]
                   ["grayscale_mean" := Average(Mean(s))]
        else withImage;
      var withBinary :=
        if binary.Some? then
          var s := Flatten(binary.value);
          var white := Occurrences(s, 255);
          withGray["binary_white_pixels" := Pixels(white)]
                  ["binary_black_pixels" := Pixels(Occurrences(s, 0))]
                  ["binary_white_percentage" := WhitePercentage(white, |s|)]
        else withGray;
      Success(withBinary)
  }

  /** The mean lies between the smallest and the largest sample. */
  lemma {:induction false} SumBounds(s: seq<Byte>, lo: int, hi: int)
    requires forall k :: 0 <= k < |s| ==> lo <= s[k] <= hi
    ensures lo * |s| <= Sum(s) <= hi * |s|
  {
    if s != [] {
      SumBounds(s[1..], lo, hi);
      MulAdd(lo, 1, |s| - 1);
      MulAdd(hi, 1, |s| - 1);
    }
  }

  /** `grayscale_min <= grayscale_mean <= grayscale_max`. */
  lemma MeanBetweenMinAndMax(s: seq<Byte>)
    requires |s| > 0
    ensures SeqMin(s) as real <= Mean(s) <= SeqMax(s) as real
  {
    var lo, hi := SeqMin(s), SeqMax(s);
    SumBounds(s, lo, hi);
    MeanBounds(Sum(s), |s|, lo, hi);
  }

  /** A white count no larger than the pixel count gives a percentage in 0..100. */
  lemma WhitePercentageBounds(white: nat, size: nat)
    requires white <= size
    ensures size > 0 ==> 0.0 <= WhitePercentage(white, size).percent <= 100.0
    ensures size == 0 <==> WhitePercentage(white, size) == NaN
  {
    if size > 0 {
      MeanBounds(white * 100, size, 0, 100);
    }
  }

  /** In a sequence of 0s and 255s every sample is counted as white or as black. */
  lemma {:induction false} WhitePlusBlackOfSeq(s: seq<Byte>)
    requires forall k :: 0 <= k < |s| ==> s[k] == 0 || s[k] == 255
    ensures Occurrences(s, 255) + Occurrences(s, 0) == |s|
  {
    if s != [] {
      WhitePlusBlackOfSeq(s[1..]);
    }
  }

  /** Flattening keeps only the samples of the grid. */
  lemma {:induction false} FlattenBinary(g: Grid)
    requires IsBinary(g)
    ensures forall k :: 0 <= k < |Flatten(g)| ==> Flatten(g)[k] == 0 || Flatten(g)[k] == 255
  {
    if g != [] {
      assert IsBinary(g[1..]) by {
        forall i, j | 0 <= i < |g[1..]| && 0 <= j < |g[1..][i]|
          ensures g[1..][i][j] == 0 || g[1..][i][j] == 255
        {
          assert g[1..][i] == g[i + 1];
        }
      }
      FlattenBinary(g[1..]);
      var f := Flatten(g);
      forall k | 0 <= k < |f|
        ensures f[k] == 0 || f[k] == 255
      {
        if k < |g[0]| {
          assert f[k] == g[0][k];
        } else {
          assert f[k] == Flatten(g[1..])[k - |g[0]|];
        }
      }
    }
  }

  /**
   * For a binary buffer (every buffer `to_binary` and `adaptive_binary`
   * produce) the white and black counts add up to the pixel count, and the
   * white percentage lies in 0..100.
   */
  lemma BinaryStatsConsistent(image: Option<Picture>, gray: Option<Grid>, b: Grid)
    requires IsBinary(b)
    requires gray.Some? ==> PixelCount(gray.value) > 0
    ensures var r := ImageStats(image, gray, Some(b));
      && r.Success?
      && r.value["binary_white_pixels"].count + r.value["binary_black_pixels"].count == PixelCount(b)
      && (PixelCount(b) > 0 ==> 0.0 <= r.value["binary_white_percentage"].percent <= 100.0)
  {
    var s := Flatten(b);
    FlattenBinary(b);
    WhitePlusBlackOfSeq(s);
    WhitePercentageBounds(Occurrences(s, 255), |s|);
  }

  /** With a grayscale buffer present, `grayscale_min <= grayscale_mean <= grayscale_max`. */
  lemma GrayStatsOrdered(image: Option<Picture>, g: Grid, binary: Option<Grid>)
    requires PixelCount(g) > 0
    ensures var r := ImageStats(image, Some(g), binary);
      && r.Success?
      && r.value["grayscale_min"].level <= r.value["grayscale_max"].level
      && r.value["grayscale_min"].level as real <= r.value["grayscale_mean"].mean
      && r.value["grayscale_mean"].mean <= r.value["grayscale_max"].level as real
  {
    MeanBetweenMinAndMax(Flatten(g));
  }
}
