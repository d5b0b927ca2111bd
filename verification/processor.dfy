/**
 * `ImageProcessor`: an object holding three optional buffers, the loaded
 * image, its grayscale buffer and the current binary buffer, which its
 * methods fill in. Saving a buffer (`save_path`) is file output and is not
 * part of this model; `save_image` catches its own errors, so it changes
 * neither the state nor the outcome of a call.
 */
module Processor {
  import opened Wrappers
  import opened Buffers
  import Grayscale
  import Threshold
  import Adaptive
  import Stats

  class ImageProcessor {
    var image: Option<Picture>
    var grayscale: Option<Grid>
    var binary: Option<Grid>

    /** The buffers have the shapes numpy gives them, and a binary buffer holds only 0 and 255. */
    ghost predicate Valid()
      reads this
    {
      && (image.Some? ==> image.value.WellFormed())
      && (grayscale.Some? ==> IsRect(grayscale.value))
      && (binary.Some? ==> IsRect(binary.value) && IsBinary(binary.value))
    }

    /**
     * `ImageProcessor(image_path)`: every buffer starts unset; a non-empty
     * path is loaded at once. `decoded` is what opening that path yields:
     * the decoded picture, or None when opening it failed.
     */
    constructor (imagePath: Option<string>, decoded: Option<Picture>)
      requires decoded.Some? ==> decoded.value.WellFormed()
      ensures Valid()
      ensures image == (if imagePath.Some? && imagePath.value != "" then decoded else None)
      ensures grayscale == None && binary == None
    {
      image := None;
      grayscale := None;
      binary := None;
      new;
      if imagePath.Some? && imagePath.value != "" {
        LoadImage(decoded);
      }
    }

    /**
     * `load_image`: a successful open replaces the image; a failed one is
     * reported and leaves it as it was. The derived buffers are never
     * cleared, so those of an earlier image remain.
     */
    method LoadImage(decoded: Option<Picture>)
      requires Valid()
      requires decoded.Some? ==> decoded.value.WellFormed()
      modifies this`image
      ensures Valid()
      ensures image == (if decoded.Some? then decoded else old(image))
    {
      if decoded.Some? {
        image := decoded;
      }
    }

    /**
     * `to_grayscale`: raises when no image is loaded, or when the image's
     * array cannot be reduced; otherwise stores and returns the grayscale
     * buffer. Nothing but `grayscale` changes, and it changes only on success.
     */
    method ToGrayscale() returns (r: Result<Grid, Error>)
      requires Valid()
      modifies this`grayscale
      ensures Valid()
      ensures old(image).None? ==> r == Failure(NoImageLoaded)
      ensures old(image).Some? ==> r == Grayscale.ToGray(old(image).value)
      ensures grayscale == (if r.Success? then Some(r.value) else old(grayscale))
    {
      if image.None? {
        return Failure(NoImageLoaded);
      }
      r := Grayscale.ToGray(image.value);
      if r.Success? {
        grayscale := Some(r.value);
      }
    }

    /**
     * `to_binary(threshold)`: derives the grayscale buffer first when there
     * is none (raising as `to_grayscale` does), then stores and returns the
     * thresholded buffer. With a grayscale buffer already present only
     * `binary` changes.
     */
    method ToBinary(threshold: int) returns (r: Result<Grid, Error>)
      requires Valid()
      modifies this`grayscale, this`binary
      ensures Valid()
      ensures old(grayscale).Some? ==> grayscale == old(grayscale)
      ensures old(grayscale).None? && old(image).None? ==>
        r == Failure(NoImageLoaded) && grayscale == None && binary == old(binary)
      ensures old(grayscale).None? && old(image).Some? ==>
        var derived := Grayscale.ToGray(old(image).value);
        && grayscale == (if derived.Success? then Some(derived.value) else None)
        && (derived.Failure? ==> r == Failure(derived.error) && binary == old(binary))
      ensures r.Success? <==> grayscale.Some?
      ensures r.Success? ==> r == Success(Threshold.Binarize(grayscale.value, threshold))
      ensures binary == (if r.Success? then Some(r.value) else old(binary))
    {
      if grayscale.None? {
        var g := ToGrayscale();
        if g.Failure? {
          return Failure(g.error);
        }
      }
      var b := Threshold.Binarize(grayscale.value, threshold);
      binary := Some(b);
      r := Success(b);
    }

    /**
     * `adaptive_binary(block_size, constant)`: derives the grayscale buffer
     * first when there is none, then stores and returns the locally
     * thresholded buffer in the same slot as `to_binary`.
     */
    method AdaptiveBinary(blockSize: int, constant: real) returns (r: Result<Grid, Error>)
      requires Valid()
      modifies this`grayscale, this`binary
      ensures Valid()
      ensures old(grayscale).Some? ==> grayscale == old(grayscale)
      ensures old(grayscale).None? && old(image).None? ==>
        r == Failure(NoImageLoaded) && grayscale == None && binary == old(binary)
      ensures old(grayscale).None? && old(image).Some? ==>
        var derived := Grayscale.ToGray(old(image).value);
        && grayscale == (if derived.Success? then Some(derived.value) else None)
        && (derived.Failure? ==> r == Failure(derived.error) && binary == old(binary))
      ensures r.Success? <==> grayscale.Some?
      ensures r.Success? ==> r == Success(Adaptive.AdaptiveBinarize(grayscale.value, blockSize, constant))
      ensures binary == (if r.Success? then Some(r.value) else old(binary))
    {
      if grayscale.None? {
        var g := ToGrayscale();
        if g.Failure? {
          return Failure(g.error);
        }
      }
      var b := Adaptive.AdaptiveBinarize(grayscale.value, blockSize, constant);
      binary := Some(b);
      r := Success(b);
    }

    /** `get_image_stats`: reads the three buffers and changes nothing. */
    method GetImageStats() returns (r: Result<map<string, Stats.StatValue>, Error>)
      requires Valid()
      ensures r == Stats.ImageStats(image, grayscale, binary)
    {
      r := Stats.ImageStats(image, grayscale, binary);
    }
  }
}
