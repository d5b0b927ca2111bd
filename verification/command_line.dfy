/**
 * The single-image path of the command-line entry point: load the input,
 * derive the grayscale and binary buffers (saving each when an output path
 * is given) and report the statistics. An error raised on the way ends the
 * run with that error reported.
 */
module CommandLine {
  import opened Wrappers
  import opened Buffers
  import Grayscale
  import Threshold
  import Stats
  import OutputPaths
  import Processor

  /**
   * One single-image run. `decoded` is what opening `input` yields; the
   * result lists the paths it attempts to save to, in order, and the statistics record or
   * the error that ended the run.
   */
  method ProcessSingleImage(input: string, output: Option<string>, threshold: int, decoded: Option<Picture>)
    returns (saved: seq<string>, report: Result<map<string, Stats.StatValue>, Error>)
    requires decoded.Some? ==> decoded.value.WellFormed()
    ensures input == "" || decoded.None? ==> saved == [] && report == Failure(NoImageLoaded)
    ensures input != "" && decoded.Some? ==>
      var p := decoded.value;
      match Grayscale.ToGray(p)
      case Failure(e) => saved == [] && report == Failure(e)
      case Success(g) =>
        && report == Stats.ImageStats(Some(p), Some(g), Some(Threshold.Binarize(g, threshold)))
        && saved == (if output.Some? && output.value != ""
                     then [OutputPaths.GrayscalePath(output.value), OutputPaths.BinaryPath(output.value)]
                     else [])
  {
    var processor := new Processor.ImageProcessor(Some(input), decoded);
    var hasOutput := output.Some? && output.value != "";
    saved := [];
    var gray := processor.ToGrayscale();
    if gray.Failure? {
      return [], Failure(gray.error);
    }
    if hasOutput {
      saved := saved + [OutputPaths.GrayscalePath(output.value)];
    }
    var bin := processor.ToBinary(threshold);
    if hasOutput {
      saved := saved + [OutputPaths.BinaryPath(output.value)];
    }
    report := processor.GetImageStats();
  }

  /**
   * A run on a picture whose grayscale buffer is not empty reports every key,
   * and its white and black counts add up to width x height.
   */
  lemma CompleteReport(p: Picture, threshold: int)
    requires p.WellFormed() && p.width > 0 && p.height > 0
    requires Grayscale.ToGray(p).Success?
    ensures var g := Grayscale.ToGray(p).value;
      var r := Stats.ImageStats(Some(p), Some(g), Some(Threshold.Binarize(g, threshold)));
      && r.Success?
      && r.value.Keys == Stats.ImageKeys + Stats.GrayscaleKeys + Stats.BinaryKeys
      && r.value["binary_white_pixels"].count + r.value["binary_black_pixels"].count == p.width * p.height
  {
    var g := Grayscale.ToGray(p).value;
    var b := Threshold.Binarize(g, threshold);
    RectPixelCount(g);
    assert Width(g) == p.width;
    assert PixelCount(g) == p.height * p.width;
    Stats.BinaryStatsConsistent(Some(p), Some(g), b);
    RectPixelCount(b);
    assert Width(b) == p.width;
  }
}
