/** `__pipeline_image` (aperturelib/__init__.py): one resized copy per requested
    resolution, then an optional image-watermark pass and an optional
    text-watermark pass over those copies (or over the original image when there
    are none), and the original image as the only result when nothing was
    resized. */
module Pipeline {
  import opened Imaging
  import opened ModeRoundTrip
  import opened FontFit
  import opened Watermark
  import opened Resize

  datatype Option<T> = None | Some(value: T)

  /** The keys of the options dictionary the pipeline reads: 'resolutions',
      'wmark-img' and 'wmark-txt'; None is an absent key. */
  datatype Options = Options(resolutions: Option<seq<Size>>, wmarkImg: Option<string>, wmarkTxt: Option<string>)

  /** Python truthiness of a string value: present and non-empty. */
  predicate Truthy(v: Option<string>)
  {
    v.Some? && v.value != ""
  }

  /** The resolutions the resize loop walks: none when the key is absent. */
  function Resolutions(options: Options): seq<Size>
  {
    if options.resolutions.Some? then options.resolutions.value else []
  }

  /** Number of images the pipeline returns. */
  function ResultCount(options: Options): nat
  {
    if |Resolutions(options)| == 0 then 1 else |Resolutions(options)|
  }

  /** The font assumption the text pass needs, when it runs with the bundled face. */
  ghost predicate TextPassDefined(options: Options, metrics: (Font, string) -> Size, fontLoads: bool)
  {
    Truthy(options.wmarkTxt) && fontLoads ==> FontMetricsLaw(metrics, options.wmarkTxt.value)
  }

  /** State of one image object after the image-watermark pass as written: the
      returned image is dropped, so only the in-place effect remains. */
  ghost function ImagePass(p: Picture, options: Options, open: string -> Picture): (r: Picture)
    ensures r.Extent() == p.Extent() && r.mode == p.mode && p.ops <= r.ops
    ensures !IsTruecolor(p.mode) || !Truthy(options.wmarkImg) ==> r == p
    ensures IsTruecolor(p.mode) && Truthy(options.wmarkImg) ==>
      r == WatermarkImageResult(p, open(options.wmarkImg.value), DefaultCorner)
  {
    if Truthy(options.wmarkImg) then WatermarkImageInPlace(p, open(options.wmarkImg.value), DefaultCorner) else p
  }

  /** State of one image object after the text-watermark pass as written. */
  ghost function TextPass(p: Picture, options: Options, metrics: (Font, string) -> Size, fontLoads: bool): (r: Picture)
    requires TextPassDefined(options, metrics, fontLoads)
    ensures r.Extent() == p.Extent() && r.mode == p.mode && p.ops <= r.ops
    ensures !IsTruecolor(p.mode) || !Truthy(options.wmarkTxt) ==> r == p
    ensures IsTruecolor(p.mode) && Truthy(options.wmarkTxt) ==>
      r == WatermarkTextResult(p, options.wmarkTxt.value, DefaultCorner, metrics, fontLoads)
  {
    if Truthy(options.wmarkTxt) then WatermarkTextInPlace(p, options.wmarkTxt.value, DefaultCorner, metrics, fontLoads) else p
  }

  /** Both passes as written, image pass first. */
  ghost function Passes(p: Picture, options: Options, open: string -> Picture, metrics: (Font, string) -> Size, fontLoads: bool): (r: Picture)
    requires TextPassDefined(options, metrics, fontLoads)
    ensures r.Extent() == p.Extent() && r.mode == p.mode && p.ops <= r.ops
  {
    TextPass(ImagePass(p, options, open), options, metrics, fontLoads)
  }

  datatype Pass = ImageMark | TextMark

  /** One call of a watermark function, and the object it was handed. */
  datatype Call = Call(pass: Pass, target: Image)

  /** One call of `pass` per target, in order. */
  ghost function CallsOn(pass: Pass, targets: seq<Image>): (r: seq<Call>)
    ensures |r| == |targets|
    ensures forall i :: 0 <= i < |targets| ==> r[i] == Call(pass, targets[i])
  {
    if targets == [] then [] else CallsOn(pass, targets[..|targets| - 1]) + [Call(pass, targets[|targets| - 1])]
  }

  /** The watermark calls the pipeline makes on its targets: the enabled image
      pass over all of them, then the enabled text pass over all of them. */
  ghost function PassCalls(options: Options, targets: seq<Image>): (r: seq<Call>)
    ensures |r| == (if Truthy(options.wmarkImg) then |targets| else 0) + (if Truthy(options.wmarkTxt) then |targets| else 0)
    ensures forall c :: c in r ==> c.target in targets
  {
    (if Truthy(options.wmarkImg) then CallsOn(ImageMark, targets) else []) +
    (if Truthy(options.wmarkTxt) then CallsOn(TextMark, targets) else [])
  }

  /** The resize loop: one aspect-preserving resize of the original per
      resolution, in order, each a new object. */
  method ResizeAll(image: Image, resolutions: seq<Size>) returns (results: seq<Image>)
    ensures |results| == |resolutions|
    ensures forall i :: 0 <= i < |results| ==> (fresh(results[i]) &&
      results[i].Snapshot() == ResizedPicture(image.Snapshot(), resolutions[i], true))
    ensures forall i, j :: 0 <= i < j < |results| ==> results[i] != results[j]
  {
    results := [];
    for k := 0 to |resolutions|
      invariant |results| == k
      invariant forall i :: 0 <= i < k ==> (fresh(results[i]) &&
        results[i].Snapshot() == ResizedPicture(image.Snapshot(), resolutions[i], true))
      invariant forall i, j :: 0 <= i < j < k ==> results[i] != results[j]
    {
      var imgRs := ResizeImage(image, resolutions[k], true);
      results := results + [imgRs];
    }
  }

  /** The calls of both passes are those of the image pass followed by those of
      the text pass. */
  lemma PassCallsSplit(options: Options, targets: seq<Image>)
    ensures PassCalls(options, targets) ==
      PassCalls(options.(wmarkTxt := None), targets) + PassCalls(options.(wmarkImg := None), targets)
  {
    assert PassCalls(options.(wmarkTxt := None), targets) ==
      if Truthy(options.wmarkImg) then CallsOn(ImageMark, targets) else [];
    assert PassCalls(options.(wmarkImg := None), targets) ==
      if Truthy(options.wmarkTxt) then CallsOn(TextMark, targets) else [];
  }

  /** A `watermark_image` call used as a statement, its result dropped: only
      the effect on the given object remains. */
  method WatermarkImageDropped(img: Image, wtrmkPath: string, open: string -> Picture)
    modifies img
    ensures img.Snapshot() == WatermarkImageInPlace(old(img.Snapshot()), open(wtrmkPath), DefaultCorner)
  {
    var dropped := WatermarkImage(img, wtrmkPath, open, DefaultCorner);
  }

  /** A `watermark_text` call used as a statement, its result dropped. */
  method WatermarkTextDropped(img: Image, wtrmkTxt: string, metrics: (Font, string) -> Size, fontLoads: bool)
    requires fontLoads ==> FontMetricsLaw(metrics, wtrmkTxt)
    modifies img
    ensures img.Snapshot() == WatermarkTextInPlace(old(img.Snapshot()), wtrmkTxt, DefaultCorner, metrics, fontLoads)
  {
    var dropped := WatermarkText(img, wtrmkTxt, DefaultCorner, metrics, fontLoads);
  }

  /** The loop over the resized copies in step 2 as written: `watermark_image`
      on each copy in order, its returned image dropped. */
  method MarkEachWithImage(results: seq<Image>, wtrmkPath: string, open: string -> Picture) returns (ghost calls: seq<Call>)
    requires forall i, j :: 0 <= i < j < |results| ==> results[i] != results[j]
    modifies results
    ensures calls == CallsOn(ImageMark, results)
    ensures forall i :: 0 <= i < |results| ==>
      results[i].Snapshot() == WatermarkImageInPlace(old(results[i].Snapshot()), open(wtrmkPath), DefaultCorner)
  {
    calls := [];
    ghost var before := seq(|results|, i requires 0 <= i < |results| reads results => results[i].Snapshot());
    for k := 0 to |results|
      invariant forall i :: 0 <= i < k ==> results[i].Snapshot() == WatermarkImageInPlace(before[i], open(wtrmkPath), DefaultCorner)
      invariant forall i :: k <= i < |results| ==> results[i].Snapshot() == before[i]
      invariant calls == CallsOn(ImageMark, results[..k])
    {
      assert forall i :: 0 <= i < |results| && i != k ==> results[i] != results[k];
      WatermarkImageDropped(results[k], wtrmkPath, open);
      assert results[..k + 1][..k] == results[..k];
      calls := calls + [Call(ImageMark, results[k])];
    }
    assert results[..|results|] == results;
  }

  /** Step 2 of the pipeline as written (the 'wmark-img' key): when the value is
      truthy, `watermark_image` is called on the original image if there are no
      resized copies, else on each copy in order; every returned image is
      dropped, so each object keeps only the in-place effect of its call. */
  method ImageStep(image: Image, results: seq<Image>, options: Options, open: string -> Picture) returns (ghost calls: seq<Call>)
    requires image !in results
    requires forall i, j :: 0 <= i < j < |results| ==> results[i] != results[j]
    modifies image, results
    ensures |results| == 0 ==>
      image.Snapshot() == ImagePass(old(image.Snapshot()), options, open) &&
      calls == PassCalls(options.(wmarkTxt := None), [image])
    ensures |results| > 0 ==>
      unchanged(image) && calls == PassCalls(options.(wmarkTxt := None), results) &&
      forall i :: 0 <= i < |results| ==> results[i].Snapshot() == ImagePass(old(results[i].Snapshot()), options, open)
  {
    calls := [];
    if options.wmarkImg.Some? {
      var wtrmkPath := options.wmarkImg.value;
      if wtrmkPath != "" {
        if |results| == 0 {
          var dropped := WatermarkImage(image, wtrmkPath, open, DefaultCorner);
          calls := [Call(ImageMark, image)];
        } else {
          calls := MarkEachWithImage(results, wtrmkPath, open);
        }
      }
    }
  }

  /** The loop over the resized copies in step 3 as written: `watermark_text` on
      each copy in order, its returned image dropped. */
  method MarkEachWithText(results: seq<Image>, wtrmkTxt: string, metrics: (Font, string) -> Size, fontLoads: bool)
    returns (ghost calls: seq<Call>)
    requires fontLoads ==> FontMetricsLaw(metrics, wtrmkTxt)
    requires forall i, j :: 0 <= i < j < |results| ==> results[i] != results[j]
    modifies results
    ensures calls == CallsOn(TextMark, results)
    ensures forall i :: 0 <= i < |results| ==>
      results[i].Snapshot() == WatermarkTextInPlace(old(results[i].Snapshot()), wtrmkTxt, DefaultCorner, metrics, fontLoads)
  {
    calls := [];
    ghost var before := seq(|results|, i requires 0 <= i < |results| reads results => results[i].Snapshot());
    for k := 0 to |results|
      invariant forall i :: 0 <= i < k ==> results[i].Snapshot() == WatermarkTextInPlace(before[i], wtrmkTxt, DefaultCorner, metrics, fontLoads)
      invariant forall i :: k <= i < |results| ==> results[i].Snapshot() == before[i]
      invariant calls == CallsOn(TextMark, results[..k])
    {
      assert forall i :: 0 <= i < |results| && i != k ==> results[i] != results[k];
      WatermarkTextDropped(results[k], wtrmkTxt, metrics, fontLoads);
      assert results[..k + 1][..k] == results[..k];
      calls := calls + [Call(TextMark, results[k])];
    }
    assert results[..|results|] == results;
  }

  /** Step 3 of the pipeline as written (the 'wmark-txt' key), likewise with
      `watermark_text`. */
  method TextStep(image: Image, results: seq<Image>, options: Options, metrics: (Font, string) -> Size, fontLoads: bool)
    returns (ghost calls: seq<Call>)
    requires TextPassDefined(options, metrics, fontLoads)
    requires image !in results
    requires forall i, j :: 0 <= i < j < |results| ==> results[i] != results[j]
    modifies image, results
    ensures |results| == 0 ==>
      image.Snapshot() == TextPass(old(image.Snapshot()), options, metrics, fontLoads) &&
      calls == PassCalls(options.(wmarkImg := None), [image])
    ensures |results| > 0 ==>
      unchanged(image) && calls == PassCalls(options.(wmarkImg := None), results) &&
      forall i :: 0 <= i < |results| ==> results[i].Snapshot() == TextPass(old(results[i].Snapshot()), options, metrics, fontLoads)
  {
    calls := [];
    if options.wmarkTxt.Some? {
      var wtrmkTxt := options.wmarkTxt.value;
      if wtrmkTxt != "" {
        if |results| == 0 {
          var dropped := WatermarkText(image, wtrmkTxt, DefaultCorner, metrics, fontLoads);
          calls := [Call(TextMark, image)];
        } else {
          calls := MarkEachWithText(results, wtrmkTxt, metrics, fontLoads);
        }
      }
    }
  }

  /** `__pipeline_image` as written. `open`, `metrics` and `fontLoads` stand for
      the file system and the font the watermark functions use. `calls` records
      every watermark call and the object it was given. */
  method PipelineImage(image: Image, options: Options, open: string -> Picture, metrics: (Font, string) -> Size, fontLoads: bool)
    returns (results: seq<Image>, ghost calls: seq<Call>)
    requires TextPassDefined(options, metrics, fontLoads)
    modifies image
    ensures |results| == ResultCount(options)
    ensures |Resolutions(options)| == 0 ==>
      results == [image] &&
      image.Snapshot() == Passes(old(image.Snapshot()), options, open, metrics, fontLoads) &&
      calls == PassCalls(options, [image])
    ensures |Resolutions(options)| > 0 ==>
      unchanged(image) && image !in results && calls == PassCalls(options, results) &&
      (forall i :: 0 <= i < |results| ==> (fresh(results[i]) &&
        results[i].Snapshot() == Passes(ResizedPicture(old(image.Snapshot()), Resolutions(options)[i], true), options, open, metrics, fontLoads))) &&
      (forall i, j :: 0 <= i < j < |results| ==> results[i] != results[j])
  {
    results := [];
    // 1. one resized copy per resolution
    if options.resolutions.Some? {
      results := ResizeAll(image, options.resolutions.value);
    }
    // 2. and 3. the watermark passes
    ghost var imageCalls := ImageStep(image, results, options, open);
    ghost var textCalls := TextStep(image, results, options, metrics, fontLoads);
    calls := imageCalls + textCalls;
    PassCallsSplit(options, if |results| == 0 then [image] else results);
    // 4. fallback: nothing was resized
    if |results| == 0 {
      results := results + [image];
    }
  }

  /** The image-watermark pass as evidently intended: the returned image
      replaces the one it was made from. */
  ghost function ImagePassCorrected(p: Picture, options: Options, open: string -> Picture): Picture
  {
    if Truthy(options.wmarkImg) then WatermarkImageResult(p, open(options.wmarkImg.value), DefaultCorner) else p
  }

  /** The text-watermark pass as evidently intended. */
  ghost function TextPassCorrected(p: Picture, options: Options, metrics: (Font, string) -> Size, fontLoads: bool): Picture
    requires TextPassDefined(options, metrics, fontLoads)
  {
    if Truthy(options.wmarkTxt) then WatermarkTextResult(p, options.wmarkTxt.value, DefaultCorner, metrics, fontLoads) else p
  }

  ghost function CorrectedPasses(p: Picture, options: Options, open: string -> Picture, metrics: (Font, string) -> Size, fontLoads: bool): Picture
    requires TextPassDefined(options, metrics, fontLoads)
  {
    TextPassCorrected(ImagePassCorrected(p, options, open), options, metrics, fontLoads)
  }

  /** The loop over the resized copies in step 2 as evidently intended: each
      copy is replaced by the image `watermark_image` returns for it. */
  method ReplaceEachWithImage(results: seq<Image>, wtrmkPath: string, open: string -> Picture) returns (results': seq<Image>)
    requires forall i, j :: 0 <= i < j < |results| ==> results[i] != results[j]
    modifies results
    ensures |results'| == |results|
    ensures forall i :: 0 <= i < |results| ==> ((results'[i] == results[i] || fresh(results'[i])) &&
      results'[i].Snapshot() == WatermarkImageResult(old(results[i].Snapshot()), open(wtrmkPath), DefaultCorner))
    ensures forall i, j :: 0 <= i < j < |results'| ==> results'[i] != results'[j]
  {
    results' := results;
    for k := 0 to |results|
      invariant |results'| == |results|
      invariant forall i :: 0 <= i < |results| ==> results'[i] == results[i] || fresh(results'[i])
      invariant forall i, j :: 0 <= i < j < |results'| ==> results'[i] != results'[j]
      invariant forall i :: 0 <= i < k ==>
        results'[i].Snapshot() == WatermarkImageResult(old(results[i].Snapshot()), open(wtrmkPath), DefaultCorner)
      invariant forall i :: k <= i < |results| ==> results'[i] == results[i] && results[i].Snapshot() == old(results[i].Snapshot())
    {
      var marked := WatermarkImage(results'[k], wtrmkPath, open, DefaultCorner);
      results' := results'[k := marked];
    }
  }

  /** Step 2 as evidently intended: the image each `watermark_image` call
      returns takes the place of the one it was given. Every image handed back
      is the given object or a new one. */
  method ImageStepCorrected(image: Image, results: seq<Image>, options: Options, open: string -> Picture)
    returns (image': Image, results': seq<Image>)
    requires image !in results
    requires forall i, j :: 0 <= i < j < |results| ==> results[i] != results[j]
    modifies image, results
    ensures |results'| == |results|
    ensures image' == image || fresh(image')
    ensures |results| == 0 ==> image'.Snapshot() == ImagePassCorrected(old(image.Snapshot()), options, open)
    ensures |results| > 0 ==> unchanged(image) && image' == image
    ensures forall i :: 0 <= i < |results| ==> ((results'[i] == results[i] || fresh(results'[i])) &&
      results'[i].Snapshot() == ImagePassCorrected(old(results[i].Snapshot()), options, open))
    ensures forall i, j :: 0 <= i < j < |results'| ==> results'[i] != results'[j]
  {
    image', results' := image, results;
    if options.wmarkImg.Some? {
      var wtrmkPath := options.wmarkImg.value;
      if wtrmkPath != "" {
        if |results| == 0 {
          image' := WatermarkImage(image, wtrmkPath, open, DefaultCorner);
        } else {
          results' := ReplaceEachWithImage(results, wtrmkPath, open);
        }
      }
    }
  }

  /** The loop over the resized copies in step 3 as evidently intended. */
  method ReplaceEachWithText(results: seq<Image>, wtrmkTxt: string, metrics: (Font, string) -> Size, fontLoads: bool)
    returns (results': seq<Image>)
    requires fontLoads ==> FontMetricsLaw(metrics, wtrmkTxt)
    requires forall i, j :: 0 <= i < j < |results| ==> results[i] != results[j]
    modifies results
    ensures |results'| == |results|
    ensures forall i :: 0 <= i < |results| ==> ((results'[i] == results[i] || fresh(results'[i])) &&
      results'[i].Snapshot() == WatermarkTextResult(old(results[i].Snapshot()), wtrmkTxt, DefaultCorner, metrics, fontLoads))
    ensures forall i, j :: 0 <= i < j < |results'| ==> results'[i] != results'[j]
  {
    results' := results;
    for k := 0 to |results|
      invariant |results'| == |results|
      invariant forall i :: 0 <= i < |results| ==> results'[i] == results[i] || fresh(results'[i])
      invariant forall i, j :: 0 <= i < j < |results'| ==> results'[i] != results'[j]
      invariant forall i :: 0 <= i < k ==>
        results'[i].Snapshot() == WatermarkTextResult(old(results[i].Snapshot()), wtrmkTxt, DefaultCorner, metrics, fontLoads)
      invariant forall i :: k <= i < |results| ==> results'[i] == results[i] && results[i].Snapshot() == old(results[i].Snapshot())
    {
      var marked := WatermarkText(results'[k], wtrmkTxt, DefaultCorner, metrics, fontLoads);
      results' := results'[k := marked];
    }
  }

  /** Step 3 as evidently intended, likewise with `watermark_text`. */
  method TextStepCorrected(image: Image, results: seq<Image>, options: Options, metrics: (Font, string) -> Size, fontLoads: bool)
    returns (image': Image, results': seq<Image>)
    requires TextPassDefined(options, metrics, fontLoads)
    requires image !in results
    requires forall i, j :: 0 <= i < j < |results| ==> results[i] != results[j]
    modifies image, results
    ensures |results'| == |results|
    ensures image' == image || fresh(image')
    ensures |results| == 0 ==> image'.Snapshot() == TextPassCorrected(old(image.Snapshot()), options, metrics, fontLoads)
    ensures |results| > 0 ==> unchanged(image) && image' == image
    ensures forall i :: 0 <= i < |results| ==> ((results'[i] == results[i] || fresh(results'[i])) &&
      results'[i].Snapshot() == TextPassCorrected(old(results[i].Snapshot()), options, metrics, fontLoads))
    ensures forall i, j :: 0 <= i < j < |results'| ==> results'[i] != results'[j]
  {
    image', results' := image, results;
    if options.wmarkTxt.Some? {
      var wtrmkTxt := options.wmarkTxt.value;
      if wtrmkTxt != "" {
        if |results| == 0 {
          image' := WatermarkText(image, wtrmkTxt, DefaultCorner, metrics, fontLoads);
        } else {
          results' := ReplaceEachWithText(results, wtrmkTxt, metrics, fontLoads);
        }
      }
    }
  }

  /** The pipeline with the watermark functions' results kept: each image is
      replaced by the image its watermark call returned. */
  method PipelineImageCorrected(image: Image, options: Options, open: string -> Picture, metrics: (Font, string) -> Size, fontLoads: bool)
    returns (results: seq<Image>)
    requires TextPassDefined(options, metrics, fontLoads)
    modifies image
    ensures |results| == ResultCount(options)
    ensures |Resolutions(options)| == 0 ==>
      results[0].Snapshot() == CorrectedPasses(old(image.Snapshot()), options, open, metrics, fontLoads)
    ensures |Resolutions(options)| > 0 ==>
      unchanged(image) &&
      (forall i :: 0 <= i < |results| ==> (fresh(results[i]) &&
        results[i].Snapshot() == CorrectedPasses(ResizedPicture(old(image.Snapshot()), Resolutions(options)[i], true), options, open, metrics, fontLoads))) &&
      (forall i, j :: 0 <= i < j < |results| ==> results[i] != results[j])
  {
    results := [];
    if options.resolutions.Some? {
      results := ResizeAll(image, options.resolutions.value);
    }
    var img: Image;
    img, results := ImageStepCorrected(image, results, options, open);
    img, results := TextStepCorrected(img, results, options, metrics, fontLoads);
    if |results| == 0 {
      results := results + [img];
    }
  }

  /** As written, an image whose mode is not RGB or RGBA comes out of both
      passes exactly as it went in: both marks are drawn on converted copies that
      the pipeline drops. */
  lemma AsWrittenDropsMarksOffTruecolor(p: Picture, options: Options, open: string -> Picture, metrics: (Font, string) -> Size, fontLoads: bool)
    requires TextPassDefined(options, metrics, fontLoads)
    requires !IsTruecolor(p.mode)
    ensures Passes(p, options, open, metrics, fontLoads) == p
  {
  }

  /** On an RGB or RGBA image the in-place effect is the whole effect: the
      pipeline as written and as corrected agree. */
  lemma AsWrittenAgreesOnTruecolor(p: Picture, options: Options, open: string -> Picture, metrics: (Font, string) -> Size, fontLoads: bool)
    requires TextPassDefined(options, metrics, fontLoads)
    requires IsTruecolor(p.mode)
    ensures Passes(p, options, open, metrics, fontLoads) == CorrectedPasses(p, options, open, metrics, fontLoads)
  {
    var q := ImagePass(p, options, open);
    assert q == ImagePassCorrected(p, options, open);
    assert IsTruecolor(q.mode);
  }

  /** A 64x64 palette GIF with a text watermark and no resolutions: as written
      the returned image has nothing drawn on it; corrected it carries the five
      text renders and is still a palette image. */
  lemma PaletteGifLosesTextMark()
    ensures var p := Picture(64, 64, P, Named("GIF"), []);
      var options := Options(None, None, Some("(c) aperture"));
      var open := (path: string) => p;
      var metrics := (f: Font, t: string) => Size(30, 3);
      Passes(p, options, open, metrics, false).ops == [] &&
      |CorrectedPasses(p, options, open, metrics, false).ops| == 5 &&
      CorrectedPasses(p, options, open, metrics, false).mode == P
  {
  }

  /** As corrected, every image carries the enabled image mark and then the
      enabled text marks, keeps its size, and ends in its round-trip mode. */
  lemma CorrectedPassesMarkEveryImage(p: Picture, options: Options, open: string -> Picture, metrics: (Font, string) -> Size, fontLoads: bool)
    requires TextPassDefined(options, metrics, fontLoads)
    ensures var q := CorrectedPasses(p, options, open, metrics, fontLoads);
      var font := if Truthy(options.wmarkTxt) then ChosenFont(metrics, options.wmarkTxt.value, p.height, fontLoads) else DefaultFont;
      q.Extent() == p.Extent() &&
      q.mode == (if Truthy(options.wmarkImg) || Truthy(options.wmarkTxt) then RoundTripMode(p.mode, p.format) else p.mode) &&
      q.ops == p.ops +
        (if Truthy(options.wmarkImg) then ImageMarkOps(p.Extent(), open(options.wmarkImg.value).Extent(), DefaultCorner) else []) +
        (if Truthy(options.wmarkTxt) then TextOps(p.Extent(), options.wmarkTxt.value, font, metrics(font, options.wmarkTxt.value), DefaultCorner) else [])
  {
    var q1 := ImagePassCorrected(p, options, open);
    if Truthy(options.wmarkImg) {
      RoundTripIdempotent(p.mode, p.format, q1.format);
    }
  }
}
