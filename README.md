# aperturelib core in Dafny

A model of the image-processing core of aperturelib, the library behind the
Aperture command-line tool:

- `__pipeline_image` (aperturelib/__init__.py). It makes one resized copy per
  requested resolution. It then runs an optional image-watermark pass and an
  optional text-watermark pass over those copies, or over the original image
  when there are none. When nothing was resized, the original image is the only
  result.
- `resize_image` (aperturelib/resize.py). It returns an aspect-preserving
  thumbnail of a copy, or an exact resize.
- `watermark_image`, `watermark_text`, `resize_in_place` and `get_pos`
  (aperturelib/watermark.py). These cover:
  - the fit check that shrinks a large watermark to an eighth of the canvas;
  - the round trip from palette or greyscale to a truecolour mode and back;
  - the font-size search, which grows by 2 and then shrinks by 1;
  - the outline-then-fill text draw;
  - corner placement.

The imaging library the code calls is Pillow 5.0.0, pinned in setup.py. It is
modelled in module `Imaging`:

- An image is a mutable object, `Imaging.Image`, with width, height, mode,
  format and a log of drawing operations.
- `Picture` is a value snapshot of an image.
- `copy`, `resize` and `convert` return new objects, and their format is unset.
- `thumbnail`, `paste` and text drawing change the object they are called on.
- `thumbnail` follows an integer form of Pillow 5's arithmetic: shrink the width to the
  box, then the height. A side scaled by the ratio never goes below one pixel;
  a side clamped to a box side of 0 becomes 0.

Pixels are not modelled. A drawing call is recorded as an operation: a paste
with its position and size, or a text render with its position, text, font and
fill.

Aliasing matters in this code:

- Both watermark functions rebind their local image to a converted copy when
  the mode is neither RGB nor RGBA. Only truecolour images are therefore changed
  in place.
- The pipeline ignores the images the watermark functions return.
- The model tracks object identity and each object's state separately.
  `WatermarkImageInPlace`/`WatermarkTextInPlace` give what the caller's object
  holds afterwards. `WatermarkImageResult`/`WatermarkTextResult` give the
  returned image.

The file system, the font and the environment are parameters:

- `open: string -> Picture` is what `Image.open` reads from a path.
- `metrics: (Font, string) -> Size` is what the font reports as a text's size.
- `fontLoads` says whether the bundled TrueType face loads.

Both watermark functions document that they return the watermarked image
(aperturelib/watermark.py:24 and 77). The pipeline's loops over the resized copies
carry comments saying they watermark the actual image (aperturelib/__init__.py:79
and 88), yet the pipeline drops what the calls return. `Pipeline.PipelineImage` follows the code as
written. `Pipeline.PipelineImageCorrected` keeps the returned images, which is
what the docstrings and comments lead a reader to expect (see Findings).

## Model

| member | source | states |
|---|---|---|
| Imaging.ThumbSize | aperturelib/resize.py:20 | Pillow's thumbnail size: never taller than the box, and never wider than it when the box is at least one pixel wide |
| Imaging.ThumbFitsBox | aperturelib/resize.py:18-21 | the thumbnail of any size fits a box of positive size and is at least 1x1 when the source is |
| Imaging.ThumbNeverGrows | aperturelib/resize.py:18-21 | a thumbnail is never wider or taller than the image it was taken from |
| Imaging.ThumbKeepsFitting | aperturelib/resize.py:18-21 | an image already inside the box keeps its size |
| Imaging.ScaledDown | aperturelib/resize.py:18-21 | scaling a side by a ratio below one (the thumbnail's integer arithmetic) never lengthens it |
| Imaging.Image.Open | aperturelib/watermark.py:27 | the opened image object holds exactly what the file decodes to |
| Imaging.Image.Copy | aperturelib/resize.py:19 | a copy is a new object with the same size, mode and content; the library leaves its format unset |
| Imaging.Image.Thumbnail | aperturelib/resize.py:20 | the receiver itself takes the thumbnail size; mode, format and content are kept |
| Imaging.Image.Resize | aperturelib/resize.py:23 | a new object of exactly the requested size; the receiver is unchanged |
| Imaging.Image.Convert | aperturelib/watermark.py:43-47 | a new object in the target mode with the same size and content |
| Imaging.Image.Paste | aperturelib/watermark.py:49 | the receiver gains one paste of the overlay's size at the position; nothing else changes |
| Imaging.Image.Text | aperturelib/watermark.py:135-141 | the receiver gains one text render with that position, text, font and fill; nothing else changes |
| Placement.GetPos | aperturelib/watermark.py:161-171 | the overlay's left edge is `padding` from the canvas's left or its right edge `padding` from the canvas's right; likewise for the top and bottom |
| Placement.CornerAnchoring | aperturelib/watermark.py:161-171 | corners 0 and 3 sit `padding` from the left edge and the others end `padding` from the right edge; corners 0 and 1 sit `padding` from the top and the others end `padding` from the bottom |
| Placement.UnknownCornerIsBottomRight | aperturelib/watermark.py:168-170 | every corner code other than 0, 1 and 3 places the overlay bottom right |
| Placement.PlacedInsideMargins | aperturelib/watermark.py:161-171 | an overlay no larger than the canvas less twice the padding lies inside the canvas with that margin, for every corner |
| Placement.PlacementExamples | aperturelib/watermark.py:161-171 | concrete positions of a 20x10 overlay on a 100x100 canvas with padding 2 for corners 0, 1, 3, 2 and 7 |
| ModeRoundTrip.IsTruecolor | aperturelib/watermark.py:43 | the test `mode in ['RGB', 'RGBA']` that decides whether the image is converted (also at line 92) |
| ModeRoundTrip.IsJpegFamily | aperturelib/watermark.py:44 | the test `format in ['JPG', 'JPEG']` that picks RGB over RGBA (also at line 93) |
| ModeRoundTrip.WorkingMode | aperturelib/watermark.py:43-47 | the compositing mode is always RGB or RGBA; a truecolour image keeps its mode; any other image becomes RGB exactly when its format is JPG or JPEG |
| ModeRoundTrip.RoundTripMode | aperturelib/watermark.py:39-54 | a watermarked P image comes back P and an L image comes back L; RGB and RGBA keep their mode; every other mode ends RGB for JPEG files and RGBA otherwise |
| ModeRoundTrip.RestoreMode | aperturelib/watermark.py:51-54 | the conversion-back step on modes: P and L originals return to their mode, any other image keeps the compositing mode |
| ModeRoundTrip.Restored | aperturelib/watermark.py:51-54 | converting back keeps size and content; a P original comes back P, an L original L, and any other picture is returned unchanged |
| ModeRoundTrip.RoundTripIdempotent | aperturelib/watermark.py:39-54 | a second round trip leaves the mode alone, whatever format the image then has |
| ModeRoundTrip.Working | aperturelib/watermark.py:43-47 | the picture composited on is truecolour, has the original's size and content, and is the original itself when that is already truecolour |
| ModeRoundTrip.ToCompositable | aperturelib/watermark.py:43-47 | a truecolour image is used as the same object; any other image is replaced by a new converted object, and the given object is untouched |
| ModeRoundTrip.Restore | aperturelib/watermark.py:51-54 | a P or L original yields a new object converted back to that mode; otherwise the composited object itself is returned |
| ModeRoundTrip.RestoredMode | aperturelib/watermark.py:39-54 | the flags recorded before conversion and the conversion back yield the round-trip mode |
| FontFit.Fits | aperturelib/watermark.py:114 | the search's acceptance test, the text height against one twentieth of the image height, as the exact integer test `20 * h <= H` |
| FontFit.LawBoundsSearch | aperturelib/watermark.py:109-125 | for a well-behaved font, size 0 fits the one-twentieth bound and a size one more than the image height does not, so the search is bounded |
| FontFit.Odds | aperturelib/watermark.py:111-123 | the growing phase measures one size per round |
| FontFit.OddsAreOdd | aperturelib/watermark.py:111-123 | the sizes the growing phase measures are 1, 3, 5, ... |
| FontFit.Descent | aperturelib/watermark.py:115-123 | the shrinking phase measures one size per step from the first size down to the last |
| FontFit.DescentCountsDown | aperturelib/watermark.py:115-123 | the sizes the shrinking phase measures count down by one |
| FontFit.DescentExtend | aperturelib/watermark.py:115-123 | one more step down appends that size to the sizes measured |
| FontFit.GrowStep | aperturelib/watermark.py:118-122 | a fitting size in the growing phase moves the search up by 2 and never past a too-tall bound, for a monotone font |
| FontFit.TurnStep | aperturelib/watermark.py:114-117 | the first too-tall size turns the search downwards, one below it |
| FontFit.ShrinkStep | aperturelib/watermark.py:114-122 | a size still too tall in the shrinking phase moves the search down by one and never below 0 |
| FontFit.SearchEnds | aperturelib/watermark.py:118-120 | the first fitting size of the shrinking phase is the largest fitting size |
| FontFit.LargestFitFrom | aperturelib/watermark.py:113-125 | the largest fitting size at or above a fitting size: it fits and the next size does not |
| FontFit.LargestFit | aperturelib/watermark.py:113-125 | the reference for the search: the unique size r at which a size fits exactly when it is at most r |
| FontFit.FitFontSize | aperturelib/watermark.py:101-125 | the loop ends with one point less than the largest fitting size (at least -1, and it still fits); the first too-tall odd size is found after the smaller odd sizes all fit; the result lies 2 or 3 below it; the sizes measured are the odd sizes up to it and then a count down to the first fit |
| Watermark.NeedsShrink | aperturelib/watermark.py:32-33 | the fit check: the watermark is wider or taller than the canvas less the padding on both sides |
| Watermark.FitCheckIsMargin | aperturelib/watermark.py:32-37 | the check shrinks exactly the watermarks that, pasted at their own size in any corner, would cut into the two-pixel margin |
| Watermark.ShrinkBox | aperturelib/watermark.py:34 | the box is an eighth of the canvas on each side, rounded down |
| Watermark.ImageMarkOps | aperturelib/watermark.py:37-49 | one paste of the footprint's size, which on a canvas of at least 8x8 with a watermark of at least 1x1 lies inside the two-pixel margin |
| Watermark.MarkFootprint | aperturelib/watermark.py:32-35 | a watermark that fits inside the padding is pasted at its own size; a larger one shrinks within an eighth of a canvas of at least 8x8 and never grows |
| Watermark.MarkPlacedInside | aperturelib/watermark.py:26-37 | on a canvas of at least 8x8, the pasted watermark keeps two pixels clear of every edge, for every corner and every watermark of at least 1x1 |
| Watermark.WatermarkImageResult | aperturelib/watermark.py:5-56 | the returned image has the original's size and the round-trip mode, and its content is the original's plus one paste at the placed position |
| Watermark.WatermarkImageInPlace | aperturelib/watermark.py:39-56 | the given object carries the paste exactly when it was RGB or RGBA; otherwise it keeps its state |
| Watermark.ResizeInPlace | aperturelib/watermark.py:156-157 | the given image is thumbnailed in place |
| Watermark.WatermarkImage | aperturelib/watermark.py:5-56 | a truecolour image is returned as the same object; any other yields a new one; the given object's and the returned image's states are the in-place and result pictures |
| Watermark.LoadFont | aperturelib/watermark.py:108-129 | the font block yields exactly the chosen font |
| Watermark.DrawOutlined | aperturelib/watermark.py:131-141 | the target gains exactly the outline-then-fill renders at the corner placement |
| Watermark.ChosenFont | aperturelib/watermark.py:108-129 | the built-in font when the bundled face does not load; otherwise the bundled face at a size that fits, one point more still fits, and two more does not |
| Watermark.TextOps | aperturelib/watermark.py:132-141 | five renders of the text in the font; only the last is white |
| Watermark.OutlineThenFill | aperturelib/watermark.py:134-141 | five text renders: black at one pixel left, right, up and down of the placement, in that order, then white at the placement |
| Watermark.TextDrawnInside | aperturelib/watermark.py:131-141 | text that leaves room for the padding keeps every render, outline included, four pixels inside every edge |
| Watermark.WatermarkTextResult | aperturelib/watermark.py:59-152 | the returned image has the original's size and the round-trip mode, and its content is the original's plus the five renders in the chosen font |
| Watermark.WatermarkTextInPlace | aperturelib/watermark.py:88-152 | the given object carries the renders exactly when it was RGB or RGBA; otherwise it keeps its state |
| Watermark.WatermarkText | aperturelib/watermark.py:59-152 | object identity and the two resulting states, as for WatermarkImage, with the searched font |
| Resize.ResizedPicture | aperturelib/resize.py:18-23 | the resize keeps mode and content and leaves the format unset; with the aspect kept it is no taller than the box, otherwise it has exactly the box's size |
| Resize.ResizeHonoursBox | aperturelib/resize.py:1-23 | preserving the aspect ratio, the result fits a positive box, never exceeds the original, and keeps the size of an image already inside; otherwise the result has exactly the box's size; mode and content carry over either way |
| Resize.ResizeImage | aperturelib/resize.py:18-23 | the result is always a new object and the given image is left unchanged |
| Pipeline.Truthy | aperturelib/__init__.py:72-74 | a watermark option counts when the key is present and its string is non-empty, Python's truthiness of `if wtrmk_path:` (and of `if wtrmk_txt:` at line 83) |
| Pipeline.Resolutions | aperturelib/__init__.py:62-64 | the resolutions the resize loop walks; none when the key is absent |
| Pipeline.ResultCount | aperturelib/__init__.py:51-54 | the number of images returned: one per resolution, or 1 when there are none (the fallback at lines 91-92) |
| Pipeline.CallsOn | aperturelib/__init__.py:78-79 | one call per target, in order, each on that target |
| Pipeline.ResizeAll | aperturelib/__init__.py:62-69 | one new, distinct resized copy per resolution, in order |
| Pipeline.ImagePass | aperturelib/__init__.py:72-79 | as written, the image pass keeps size and mode and only adds operations; it leaves a non-truecolour image or a falsy option unchanged and otherwise gives the watermarked result |
| Pipeline.TextPass | aperturelib/__init__.py:81-88 | the same for the text pass |
| Pipeline.Passes | aperturelib/__init__.py:72-88 | both passes as written keep size and mode and only add operations |
| Pipeline.PassCalls | aperturelib/__init__.py:72-88 | one call per target for each enabled pass, and every call goes to a target |
| Pipeline.PassCallsSplit | aperturelib/__init__.py:72-88 | the calls of both passes are the image-pass calls followed by the text-pass calls |
| Pipeline.WatermarkImageDropped | aperturelib/__init__.py:79 | a `watermark_image` call whose result is ignored leaves only its in-place effect on the given object |
| Pipeline.WatermarkTextDropped | aperturelib/__init__.py:88 | the same for `watermark_text` |
| Pipeline.MarkEachWithImage | aperturelib/__init__.py:78-79 | each copy receives one image-watermark call, in order, and keeps its in-place effect |
| Pipeline.MarkEachWithText | aperturelib/__init__.py:87-88 | each copy receives one text-watermark call, in order, and keeps its in-place effect |
| Pipeline.ImageStep | aperturelib/__init__.py:72-79 | with an empty result list the original gets the image-watermark call; otherwise each copy does, and the original is unchanged; each object keeps only the call's in-place effect |
| Pipeline.TextStep | aperturelib/__init__.py:81-88 | the same for the text watermark |
| Pipeline.PipelineImage | aperturelib/__init__.py:45-94 | one result per resolution, or the original alone when there are none; the watermark calls go to exactly those objects, image pass first; with resolutions the original is unchanged and the results are new, distinct objects; each object ends in the as-written pass state |
| Pipeline.ReplaceEachWithImage | aperturelib/__init__.py:78-79 | corrected: each copy is replaced by the watermarked image returned for it; the copies stay distinct |
| Pipeline.ReplaceEachWithText | aperturelib/__init__.py:87-88 | the same for the text watermark |
| Pipeline.ImageStepCorrected | aperturelib/__init__.py:72-79 | each image is replaced by the image its watermark call returns |
| Pipeline.TextStepCorrected | aperturelib/__init__.py:81-88 | the same for the text watermark |
| Pipeline.PipelineImageCorrected | aperturelib/__init__.py:45-94 | the result count as written, with every result carrying both marks |
| Pipeline.AsWrittenDropsMarksOffTruecolor | aperturelib/__init__.py:72-88 | as written, an image not in RGB or RGBA comes out of both passes exactly as it went in |
| Pipeline.AsWrittenAgreesOnTruecolor | aperturelib/__init__.py:72-88 | on an RGB or RGBA image, the as-written and corrected pipelines agree |
| Pipeline.PaletteGifLosesTextMark | aperturelib/__init__.py:81-88 | a 64x64 palette GIF with a text watermark: as written nothing is drawn; corrected it has the five renders and is still a palette image |
| Pipeline.CorrectedPassesMarkEveryImage | aperturelib/__init__.py:72-88 | as corrected, every image keeps its size, takes the round-trip mode when a pass runs, and gains the enabled paste followed by the enabled text renders |

## Left out

- `format_image`, `save` and the opening of the input file in aperturelib/__init__.py. They are file I/O around the pipeline; the pipeline receives an open image.
- Failures of `Image.open` on the watermark path are not modelled: `open` is a total function.
- Locating the bundled font through package resources, `cleanup_resources` and the console message in the font fallback. They do not affect the model's image state; `fontLoads` stands for the outcome of the lookup.
- Pixel values. Pasting, text rendering, mask blending and palette quantisation are recorded as operations, not computed.
- Floating point. The one-twentieth test is the exact integer test `20 * h <= H`; the eighth-size box uses integer division, which agrees with the source's truncation for non-negative sizes. The thumbnail's scaled side is likewise integer floor division where Pillow truncates a float quotient; the two agree unless rounding of the float quotient crosses an integer.
- FontFit.FitFontSize: assumes a font whose text height is monotone in the size, for which size 0 fits and some size is too tall. Without these, the source's loop need not end.
- Watermark.LoadFont, Watermark.ChosenFont, Watermark.WatermarkText and Pipeline.TextPassDefined (and the text-watermark members built on them): when the bundled face loads, they assume the font law `FontFit.FontMetricsLaw`: heights monotone in the size, zero at size 0, and at least one twentieth of the size. The law gives the search its too-tall bound, one more than the image height. The pipeline never draws empty text, since `if wtrmk_txt:` (aperturelib/__init__.py:83) skips it.
- Watermark.ChosenFont: covers only the bundled face failing to load at all. A load failure at the final size (after the search returns 0 or -1) would also fall back to the built-in font; in the model the font is then the bundled face at that size.
- Imaging.ThumbFitsBox: says nothing about how closely Pillow keeps the aspect ratio. It states only the bounds and the integer arithmetic.
- Watermark.MarkFootprint: gives no bound when the canvas is smaller than 8 pixels on a side. There the eighth-size box is 0 pixels wide or tall, and the footprint's side clamped to it becomes 0: a 10x10 watermark on a 7x7 canvas gets a 1x0 footprint.
- Pillow's handling of a thumbnail or resize target with a side of 0 (it raises an error) is not modelled; the model computes a size with that side 0 and carries on.
- The constant `SUPPORTED_EXTENSIONS` (aperturelib/__init__.py:4) is not modelled, since nothing in the core reads it. The command-line option parsing lives in files that are not part of this model.
- Exceptions from the imaging library on malformed sizes, such as a negative resolution, are not modelled; sizes are natural numbers.

## Findings

| source | as written | input that shows it | evidently intended | confidence | as-written member | corrected member |
|---|---|---|---|---|---|---|
| aperturelib/__init__.py:72-88 | the pipeline calls `watermark_image`/`watermark_text` and drops what they return; for an image not in RGB or RGBA those functions draw on a converted copy (watermark.py:43-47, 92-96), so the image in the result list carries no watermark | a 64x64 palette (P) GIF, option 'wmark-txt' set to "(c) aperture", no resolutions | each result is replaced by the watermarked image the call returns, which both docstrings name as the result (watermark.py:24, 77) and the call-site comments call watermarking the actual image (__init__.py:79, 88), so the mark reaches every image in its original mode | high, not executed | Pipeline.PaletteGifLosesTextMark | Pipeline.PipelineImageCorrected |
