# Grayscale and binary conversion of images, modelled in Dafny

The system converts a raster image to grayscale and then to a black-and-white
(binary) image, with either a global threshold or a local-mean (adaptive)
threshold, and reports pixel statistics. Its core is the `ImageProcessor`
object of `image_processor.py`, which holds three optional buffers (the loaded
image, its grayscale buffer and the current binary buffer), and the
single-image path of `main.py`, which names the output files by rewriting the
dots of the output path.

The model:

- `wrappers.dfy` (`Wrappers`): `Option` for an attribute that may be `None`,
  `Result` for a call that returns or raises.
- `buffers.dfy` (`Buffers`): 8-bit samples (`Byte`), 2-D grids, the 2-D or 3-D
  array of a decoded picture with its PIL `mode` and `size`, and the errors
  the operations raise.
- `grayscale.dfy` (`Grayscale`): the grayscale transform. A 2-D array passes
  through unchanged. A 3-D array gets 0.299 R + 0.587 G + 0.114 B of its first
  three channels, truncated to a byte. A 3-D array with fewer than three
  channels raises, because `np.dot` cannot multiply it by three weights.
- `threshold.dfy` (`Threshold`): the global binarizer,
  `np.where(gray > threshold, 255, 0)`, with no range check on the threshold.
- `adaptive.dfy` (`Adaptive`): the adaptive binarizer. The local mean is the
  box mean of scipy's `uniform_filter` under its default border mode,
  "reflect", and the window covers positions `i - size/2 .. i - size/2 + size - 1`.
  `uniform_filter` filters only along axes whose size is above 1, so a block
  size of 1 or less leaves each pixel as its own mean.
- `stats.dfy` (`Stats`): the statistics dictionary, whose keys depend on
  which stages have run.
- `processor.dfy` (`Processor.ImageProcessor`): the class with its three
  fields. Its methods `LoadImage`, `ToGrayscale`, `ToBinary`, `AdaptiveBinary`
  and `GetImageStats` state what they set, what they raise and what they
  leave alone.
- `output_paths.dfy` (`OutputPaths`): Python's `str.replace` and the two
  output paths `output.replace('.', '_grayscale.')` and
  `output.replace('.', '_binary.')`.
- `command_line.dfy` (`CommandLine`): one single-image run of `main`: load,
  grayscale, binary, statistics, and the paths it attempts to save to.
- `sequences.dfy` (`Sequences`): counting the occurrences of a value, used
  for white and black samples and for dots in a path.
- `arithmetic.dfy` (`Arithmetic`): small arithmetic facts the proofs use.

Opening an image file is a parameter. `decoded: Option<Picture>` is `None`
when `Image.open` raised, and otherwise the pixels that `np.array` reads from
the opened image at image_processor.py:35.

Facts about the code that the model follows:

- `adaptive_binary` compares `gray > local_mean - C`. On a uniform image every
  pixel equals its local mean, so a positive `C` gives all white (255) and
  only `C <= 0` gives all black (`Adaptive.UniformImage`).
- The weighted gray sum is truncated, not rounded (`astype(np.uint8)`).
- `uniform_filter` is called with its default border mode, "reflect".
- Any 3-D array is reduced through its first three channels, so an alpha
  channel is ignored; `np.dot` raises when there are fewer than three.
- `str.replace` replaces every `.` of the output path, including dots in
  directory names (`OutputPaths.DotInDirectory`).

## Model

| member | source | states |
|---|---|---|
| Grayscale.Luma | image_processor.py:40 | in exact rational arithmetic, the weighted sum truncated to a byte lies between the smallest and the largest of R, G and B |
| Grayscale.LumaOfGray | image_processor.py:40 | in exact rational arithmetic, a gray pixel (R = G = B = k) maps to k |
| Grayscale.LumaMonotone | image_processor.py:40 | raising any channel never lowers the gray value |
| Grayscale.ToGray | image_processor.py:38-42 | a 2-D array is returned unchanged; a 3-D array raises exactly when it has fewer than three channels, and otherwise gives a buffer of the picture's height and width whose pixel (i, j) is Luma of that pixel's first three channels |
| Grayscale.AlphaIgnored | image_processor.py:40 | two pictures whose pixels agree on the first three channels have the same grayscale buffer, so a 4th (alpha) channel has no effect |
| Threshold.Binarize | image_processor.py:57 | the result has the grayscale buffer's shape, every sample is 0 or 255, and a sample is 255 exactly when the gray sample is strictly greater than the threshold |
| Threshold.HighThresholdAllBlack | image_processor.py:49-57 | a threshold of 255 or more gives an all-black result |
| Threshold.NegativeThresholdAllWhite | image_processor.py:49-57 | a negative threshold gives an all-white result |
| Threshold.BinarizeBinary | image_processor.py:57 | binarizing a buffer of 0s and 255s with any threshold in 0..254 returns it unchanged |
| Threshold.WhiteCountIsCountAbove | image_processor.py:148-149 | the white count of the binarized buffer is the number of gray samples above the threshold, and the black count is all the other samples |
| Adaptive.Reflect | image_processor.py:75 | the reflected index always lies inside the line, and an index already inside it is kept |
| Adaptive.ReflectMirror | image_processor.py:75 | positions -1 - k and 2n - 1 - k read the same sample as k: the border mirrors the line between samples |
| Adaptive.WindowSum | image_processor.py:75 | a window sum of rows x cols byte samples lies between 0 and 255 x cols x rows |
| Adaptive.LocalMeanBounds | image_processor.py:75 | every local mean lies in 0..255 |
| Adaptive.AdaptiveBinarize | image_processor.py:75-78 | the result has the grayscale shape, every sample is 0 or 255, and a sample is 255 exactly when the gray sample is strictly above its local mean minus the constant |
| Adaptive.UniformMean | image_processor.py:75 | on a uniform image of level k every local mean is k, whatever the window size |
| Adaptive.UniformImage | image_processor.py:75-78 | on a uniform image the result is all white when the constant is positive and all black when it is zero or negative |
| Adaptive.ExtremeConstant | image_processor.py:78 | a constant above 255 gives all white; a constant of -255 or less gives all black |
| Adaptive.SmallWindow | image_processor.py:75 | with a block size of 1 or less the local mean is the pixel itself |
| Adaptive.SmallWindowResult | image_processor.py:75-78 | with a block size of 1 or less the result is all white when the constant is positive and all black otherwise |
| Stats.SeqMin | image_processor.py:143 | grayscale_min is one of the samples and no sample is smaller |
| Stats.SeqMax | image_processor.py:144 | grayscale_max is one of the samples and no sample is larger |
| Stats.ImageStats | image_processor.py:136-153 | raises exactly when a grayscale buffer exists and is empty; otherwise it holds the size and mode keys iff an image is loaded, the three grayscale keys iff a grayscale buffer exists, the three binary keys iff a binary buffer exists, no other key, and the values min, max, mean, white and black counts and white percentage (NaN for an empty buffer) |
| Stats.MeanBetweenMinAndMax | image_processor.py:143-145 | the mean lies between the minimum and the maximum sample |
| Stats.WhitePercentageBounds | image_processor.py:150-151 | with a white count no larger than the size, the white percentage lies in 0..100, and it is NaN exactly when the size is 0 |
| Stats.BinaryStatsConsistent | image_processor.py:147-151 | for a buffer of 0s and 255s, white count plus black count is the pixel count and the white percentage lies in 0..100 |
| Stats.GrayStatsOrdered | image_processor.py:142-145 | with a non-empty grayscale buffer, grayscale_min <= grayscale_mean <= grayscale_max |
| Buffers.RectPixelCount | image_processor.py:151 | a rectangular buffer has height x width samples |
| Processor.ImageProcessor.constructor | image_processor.py:6-15 | every buffer starts unset; a non-empty path is loaded, so the image is set iff the path is non-empty and opening it succeeded |
| Processor.ImageProcessor.LoadImage | image_processor.py:17-25 | a successful open replaces the image; a failed open leaves it as it was; grayscale and binary are never touched, so an earlier image's buffers remain |
| Processor.ImageProcessor.ToGrayscale | image_processor.py:27-47 | with no image it raises NoImageLoaded and changes nothing; otherwise it returns the grayscale transform of the image and stores it in grayscale on success; image and binary are untouched |
| Processor.ImageProcessor.ToBinary | image_processor.py:49-62 | an existing grayscale buffer is kept; a missing one is derived first, and with no image the call raises and leaves binary unchanged; on success binary is the thresholded grayscale buffer and is what is returned; image is untouched |
| Processor.ImageProcessor.AdaptiveBinary | image_processor.py:64-83 | like ToBinary, with the adaptive result written to the same binary slot: the call fails only when the grayscale buffer cannot be derived, and on success binary is the adaptive binarization of the grayscale buffer for any block size |
| Processor.ImageProcessor.GetImageStats | image_processor.py:132-153 | returns the statistics of the three buffers and changes nothing |
| OutputPaths.TaggedLength | main.py:36 | rewriting each dot as tag + "." adds the tag's length once per dot |
| OutputPaths.TaggedDots | main.py:36 | rewriting each dot as tag + "." (a tag without dots) keeps the number of dots |
| OutputPaths.NoDotUnchanged | main.py:36 | a path without a dot is returned unchanged |
| OutputPaths.UndoTag | main.py:36 | replacing each tag + "." of the rewritten path by "." gives back the original path |
| OutputPaths.ReplaceIsSplitJoin | main.py:36 | the rewrite equals repl.join(path.split('.')): the text between dots is kept in order and each dot becomes the replacement |
| OutputPaths.GrayscalePathProperties | main.py:36 | the grayscale path is 10 characters longer per dot, has as many dots, and replacing each "_grayscale." by "." recovers the output path |
| OutputPaths.BinaryPathProperties | main.py:43 | the binary path is 7 characters longer per dot, has as many dots, and replacing each "_binary." by "." recovers the output path |
| OutputPaths.SamePathIffNoDot | main.py:36-43 | the grayscale and binary paths coincide exactly when the output path has no dot, and then both equal the output path |
| OutputPaths.DotInDirectory | main.py:36-43 | "./out.png" becomes "_grayscale./out_grayscale.png" and "_binary./out_binary.png": dots in directory names are rewritten too |
| CommandLine.ProcessSingleImage | main.py:28-59 | an empty input path or a failed open ends the run with NoImageLoaded and no save attempted; a grayscale error ends it with that error; otherwise the report is the statistics of the image, its grayscale buffer and its binarization, and the paths it attempts to save to are the grayscale then the binary path when a non-empty output path is given |
| CommandLine.CompleteReport | image_processor.py:136-153 | after a successful run on a non-empty picture the report has all eight keys, and the white and black counts add up to width x height |

## Left out

- Decoding and encoding image files (`Image.open`, `save_image`, `Image.fromarray`): file I/O through PIL. A load is the parameter `decoded`; saving is left out, and since `save_image` catches its own errors it changes neither state nor outcome. `ProcessSingleImage` reports the paths it would save to.
- The messages printed by `load_image`, `save_image` and `main`: console output.
- `display_images`: a matplotlib window.
- `argparse`, batch mode (`batch_process_images`) and `validate_image_path`: `src/utils.py` is not part of this model; the input path, output path and threshold are parameters.
- Grayscale.Luma: computes 0.299 R + 0.587 G + 0.114 B in exact rational arithmetic before truncating. numpy computes it in binary floating point, where the three weights add up to just under 1, so a sum that is exactly an integer in the model may truncate one lower in the program.
- Grayscale.LumaOfGray: holds for the exact model only. In doubles (1,1,1) gives 0.9999999999999999, which truncates to 0, and about a quarter of the 256 gray levels k come out as k - 1.
- Adaptive.LocalMean: is the exact rational mean. `uniform_filter` computes it in floating point, one axis after the other.
- Stats.ImageStats: gives `grayscale_mean` and `binary_white_percentage` as exact rationals, where numpy gives floats.
- Samples are bytes. PIL images with 16-bit or floating-point samples (modes "I", "I;16", "F") are not modelled, and neither is the link between a mode name and its channel count.
- Threshold.Binarize: takes an integer threshold. A float threshold passed from Python code is not modelled.
- OutputPaths.Replace: requires a non-empty pattern. Python's behaviour for an empty pattern (inserting between characters) is never used by the program.
- Lazy decoding: `Image.open` reads only the header, and the pixel data is decoded at image_processor.py:35, inside `to_grayscale`. A file whose header opens but whose pixel data fails to decode, raising there, is not modelled: `decoded` is either `None` or fully decoded pixels.
- Default arguments: `threshold=128` (image_processor.py:49), `block_size=11` and `constant=2` (image_processor.py:64) are not modelled; every call passes its arguments explicitly.
- Mode "1" images: `np.array` of a bilevel PIL image is a boolean array, and comparing it with a threshold compares 0/1 values. The model treats every 2-D array as bytes.
- Aliasing: the methods return the buffer stored in the field as a value. The model does not capture that Python returns the same array object.
