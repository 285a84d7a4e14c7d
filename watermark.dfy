/** `watermark_image`, `watermark_text` and `resize_in_place` (watermark.py):
    the fit check on a watermark image, the text-size search, the outline-and-fill
    draw sequence, and which object each call changes. */
module Watermark {
  import opened Imaging
  import opened Placement
  import opened ModeRoundTrip
  import opened FontFit

  /** Padding of an image watermark from the canvas edges. */
  const ImagePadding := 2
  /** Padding of a text watermark from the canvas edges. */
  const TextPadding := 5
  /** The corner both watermark functions default to: bottom right. */
  const DefaultCorner := 2

  /** The fit check: the watermark is shrunk when it is wider or taller than
      the canvas less the padding on both sides. */
  predicate NeedsShrink(canvas: Size, mark: Size)
  {
    mark.w > canvas.w - ImagePadding * 2 || mark.h > canvas.h - ImagePadding * 2
  }

  /** The fit check shrinks exactly the watermarks that, placed at their own
      size in any corner, would cut into the two-pixel margin. */
  lemma FitCheckIsMargin(canvas: Size, mark: Size, corner: int)
    ensures !NeedsShrink(canvas, mark) <==>
      InsideWithMargin(GetPos(corner, canvas, mark, ImagePadding), mark, canvas, ImagePadding)
  {
    CornerAnchoring(corner, canvas, mark, ImagePadding);
  }

  /** Box a too-large watermark is shrunk into: an eighth of the canvas. */
  function ShrinkBox(canvas: Size): (r: Size)
    ensures 8 * r.w <= canvas.w < 8 * (r.w + 1)
    ensures 8 * r.h <= canvas.h < 8 * (r.h + 1)
  {
    Size(canvas.w / 8, canvas.h / 8)
  }

  /** Size of the watermark as it is pasted. */
  function MarkFootprint(canvas: Size, mark: Size): (r: Size)
    ensures !NeedsShrink(canvas, mark) ==> r == mark
    ensures NeedsShrink(canvas, mark) && canvas.w >= 8 && canvas.h >= 8 ==>
      (r.w <= canvas.w / 8 && r.h <= canvas.h / 8)
    ensures mark.w >= 1 && mark.h >= 1 ==> r.w <= mark.w && r.h <= mark.h
  {
    if NeedsShrink(canvas, mark) then
      var box := ShrinkBox(canvas);
      assert canvas.w >= 8 && canvas.h >= 8 ==> ThumbSize(mark, box).w <= box.w && ThumbSize(mark, box).h <= box.h by {
        if canvas.w >= 8 && canvas.h >= 8 { ThumbFitsBox(mark, box); }
      }
      assert mark.w >= 1 && mark.h >= 1 ==> ThumbSize(mark, box).w <= mark.w && ThumbSize(mark, box).h <= mark.h by {
        if mark.w >= 1 && mark.h >= 1 { ThumbNeverGrows(mark, box); }
      }
      ThumbSize(mark, box)
    else
      mark
  }

  /** On a canvas of at least 8x8, the pasted watermark never touches the two
      pixels along any edge, whatever its original size and the corner. */
  lemma MarkPlacedInside(canvas: Size, mark: Size, corner: int)
    requires canvas.w >= 8 && canvas.h >= 8
    requires mark.w >= 1 && mark.h >= 1
    ensures var fp := MarkFootprint(canvas, mark);
      InsideWithMargin(GetPos(corner, canvas, fp, ImagePadding), fp, canvas, ImagePadding)
  {
    var fp := MarkFootprint(canvas, mark);
    assert fp.w <= canvas.w - 2 * ImagePadding && fp.h <= canvas.h - 2 * ImagePadding;
    PlacedInsideMargins(corner, canvas, fp, ImagePadding);
  }

  /** The single paste `watermark_image` performs on a canvas. */
  function ImageMarkOps(canvas: Size, mark: Size, corner: int): (r: seq<DrawOp>)
    ensures |r| == 1 && r[0].PasteOp? && r[0].extent == MarkFootprint(canvas, mark)
    ensures canvas.w >= 8 && canvas.h >= 8 && mark.w >= 1 && mark.h >= 1 ==>
      InsideWithMargin(r[0].at, r[0].extent, canvas, ImagePadding)
  {
    var fp := MarkFootprint(canvas, mark);
    assert canvas.w >= 8 && canvas.h >= 8 && mark.w >= 1 && mark.h >= 1 ==>
      InsideWithMargin(GetPos(corner, canvas, fp, ImagePadding), fp, canvas, ImagePadding) by {
      if canvas.w >= 8 && canvas.h >= 8 && mark.w >= 1 && mark.h >= 1 {
        MarkPlacedInside(canvas, mark, corner);
      }
    }
    [PasteOp(GetPos(corner, canvas, fp, ImagePadding), fp)]
  }

  /** The image `watermark_image` returns. */
  function WatermarkImageResult(p: Picture, mark: Picture, corner: int): (q: Picture)
    ensures q.mode == RoundTripMode(p.mode, p.format)
    ensures q.Extent() == p.Extent()
    ensures q.ops == p.ops + ImageMarkOps(p.Extent(), mark.Extent(), corner)
  {
    RestoredMode(p, Working(p));
    Restored(p.mode == P, p.mode == L, Drawn(Working(p), ImageMarkOps(p.Extent(), mark.Extent(), corner)))
  }

  /** What `watermark_image` leaves in the object it was given: the paste lands
      on that object only when it is already truecolour; otherwise the paste goes
      to a converted copy and the given object keeps its state. */
  function WatermarkImageInPlace(p: Picture, mark: Picture, corner: int): (q: Picture)
    ensures IsTruecolor(p.mode) ==> q == WatermarkImageResult(p, mark, corner)
    ensures !IsTruecolor(p.mode) ==> q == p
  {
    if IsTruecolor(p.mode) then Drawn(p, ImageMarkOps(p.Extent(), mark.Extent(), corner)) else p
  }

  /** `resize_in_place`: thumbnails the given image and nothing else. */
  method ResizeInPlace(image: Image, res: Size)
    modifies image
    ensures image.Snapshot() == Thumbnailed(old(image.Snapshot()), res)
  {
    image.Thumbnail(res);
  }

  /** `watermark_image`. `open` is the file system: what `Image.open` reads
      from a path. The loaded watermark is a new object of its own, and only it
      is shrunk. */
  method WatermarkImage(image: Image, wtrmrkPath: string, open: string -> Picture, corner: int) returns (r: Image)
    modifies image
    ensures IsTruecolor(old(image.mode)) ==> r == image
    ensures !IsTruecolor(old(image.mode)) ==> fresh(r)
    ensures image.Snapshot() == WatermarkImageInPlace(old(image.Snapshot()), open(wtrmrkPath), corner)
    ensures r.Snapshot() == WatermarkImageResult(old(image.Snapshot()), open(wtrmrkPath), corner)
  {
    var mark := new Image.Open(open(wtrmrkPath));
    if mark.width > image.width - ImagePadding * 2 || mark.height > image.height - ImagePadding * 2 {
      var res := Size(image.width / 8, image.height / 8);
      ResizeInPlace(mark, res);
    }
    assert Size(mark.width, mark.height) == MarkFootprint(Size(image.width, image.height), open(wtrmrkPath).Extent());
    var pos := GetPos(corner, Size(image.width, image.height), Size(mark.width, mark.height), ImagePadding);
    var wasP := image.mode == P;
    var wasL := image.mode == L;
    var target := ToCompositable(image);
    var overlay := mark.Convert(RGBA);
    target.Paste(overlay, pos);
    r := Restore(target, wasP, wasL);
  }

  /** The font `watermark_text` draws with: the searched size in the bundled
      face, or the built-in font when the bundled one cannot be loaded. */
  ghost function ChosenFont(metrics: (Font, string) -> Size, text: string, imageHeight: nat, fontLoads: bool): (f: Font)
    requires fontLoads ==> FontMetricsLaw(metrics, text)
    ensures !fontLoads ==> f == DefaultFont
    ensures fontLoads ==> (f.TrueType? && Fits(metrics, text, imageHeight, f.points) &&
      Fits(metrics, text, imageHeight, f.points + 1) && !Fits(metrics, text, imageHeight, f.points + 2))
  {
    if fontLoads then
      LawBoundsSearch(metrics, text, imageHeight);
      TrueType(LargestFit(metrics, text, imageHeight, imageHeight + 1) - 1)
    else
      DefaultFont
  }

  /** The draw calls of `watermark_text` for text of size `extent` on a canvas:
      a black copy one pixel left, right, up and down of the placement, then the
      white text on it. */
  function TextOps(canvas: Size, text: string, font: Font, extent: Size, corner: int): (r: seq<DrawOp>)
    ensures |r| == 5
    ensures forall i :: 0 <= i < 5 ==> r[i].TextOp? && r[i].text == text && r[i].font == font
    ensures forall i :: 0 <= i < 5 ==> (r[i].fill == White <==> i == 4)
  {
    var at := GetPos(corner, canvas, extent, TextPadding);
    [TextOp(Pos(at.x - 1, at.y), text, font, Black),
     TextOp(Pos(at.x + 1, at.y), text, font, Black),
     TextOp(Pos(at.x, at.y - 1), text, font, Black),
     TextOp(Pos(at.x, at.y + 1), text, font, Black),
     TextOp(at, text, font, White)]
  }

  /** The outline is the four black renders at distance one from the fill
      position, in the order left, right, up, down; the white fill comes last,
      at the corner placement itself. */
  lemma OutlineThenFill(canvas: Size, text: string, font: Font, extent: Size, corner: int)
    ensures var ops := TextOps(canvas, text, font, extent, corner);
      var at := GetPos(corner, canvas, extent, TextPadding);
      |ops| == 5 &&
      (forall i :: 0 <= i < 4 ==> ops[i].TextOp? && ops[i].fill == Black && ops[i].text == text && ops[i].font == font) &&
      ops[4] == TextOp(at, text, font, White) &&
      ops[0].at.x == at.x - 1 && ops[1].at.x == at.x + 1 && ops[0].at.y == at.y && ops[1].at.y == at.y &&
      ops[2].at.y == at.y - 1 && ops[3].at.y == at.y + 1 && ops[2].at.x == at.x && ops[3].at.x == at.x
  {
  }

  /** Text that leaves room for the padding keeps every render, outline
      included, at least four pixels from every edge. */
  lemma TextDrawnInside(canvas: Size, text: string, font: Font, extent: Size, corner: int)
    requires extent.w <= canvas.w - 2 * TextPadding && extent.h <= canvas.h - 2 * TextPadding
    ensures forall op :: op in TextOps(canvas, text, font, extent, corner) ==>
      InsideWithMargin(op.at, extent, canvas, TextPadding - 1)
  {
    PlacedInsideMargins(corner, canvas, extent, TextPadding);
  }

  /** The image `watermark_text` returns. */
  ghost function WatermarkTextResult(p: Picture, text: string, corner: int, metrics: (Font, string) -> Size, fontLoads: bool): (q: Picture)
    requires fontLoads ==> FontMetricsLaw(metrics, text)
    ensures q.mode == RoundTripMode(p.mode, p.format)
    ensures q.Extent() == p.Extent()
    ensures q.ops == p.ops + TextOps(p.Extent(), text, ChosenFont(metrics, text, p.height, fontLoads),
                                     metrics(ChosenFont(metrics, text, p.height, fontLoads), text), corner)
  {
    var font := ChosenFont(metrics, text, p.height, fontLoads);
    RestoredMode(p, Working(p));
    Restored(p.mode == P, p.mode == L, Drawn(Working(p), TextOps(p.Extent(), text, font, metrics(font, text), corner)))
  }

  /** What `watermark_text` leaves in the object it was given (see
      WatermarkImageInPlace). */
  ghost function WatermarkTextInPlace(p: Picture, text: string, corner: int, metrics: (Font, string) -> Size, fontLoads: bool): (q: Picture)
    requires fontLoads ==> FontMetricsLaw(metrics, text)
    ensures IsTruecolor(p.mode) ==> q == WatermarkTextResult(p, text, corner, metrics, fontLoads)
    ensures !IsTruecolor(p.mode) ==> q == p
  {
    var font := ChosenFont(metrics, text, p.height, fontLoads);
    if IsTruecolor(p.mode) then Drawn(p, TextOps(p.Extent(), text, font, metrics(font, text), corner)) else p
  }

  /** The font block of `watermark_text`: the size search with the bundled
      face when it loads, the built-in font when it does not. */
  method LoadFont(metrics: (Font, string) -> Size, text: string, imageHeight: nat, fontLoads: bool) returns (font: Font)
    requires fontLoads ==> FontMetricsLaw(metrics, text)
    ensures font == ChosenFont(metrics, text, imageHeight, fontLoads)
  {
    if fontLoads {
      LawBoundsSearch(metrics, text, imageHeight);
      var fontsize: int;
      ghost var rounds: nat, overshoot: int, probes: seq<int>;
      fontsize, rounds, overshoot, probes := FitFontSize(metrics, text, imageHeight, imageHeight + 1);
      font := TrueType(fontsize);
    } else {
      font := DefaultFont;
    }
  }

  /** The draw block of `watermark_text`: places text of size `extent` in the
      corner and renders the outline and then the fill on `target`. */
  method DrawOutlined(target: Image, text: string, font: Font, corner: int, extent: Size)
    modifies target
    ensures target.Snapshot() == Drawn(old(target.Snapshot()), TextOps(old(target.Snapshot()).Extent(), text, font, extent, corner))
  {
    var pos := GetPos(corner, Size(target.width, target.height), extent, TextPadding);
    target.Text(Pos(pos.x - 1, pos.y), text, font, Black);
    target.Text(Pos(pos.x + 1, pos.y), text, font, Black);
    target.Text(Pos(pos.x, pos.y - 1), text, font, Black);
    target.Text(Pos(pos.x, pos.y + 1), text, font, Black);
    target.Text(pos, text, font, White);
  }

  /** `watermark_text`. `metrics` gives the rendered size of a text in a font; `fontLoads` says
      whether the bundled TrueType face loads (when it does not, the search is
      skipped and the built-in font is used). */
  method WatermarkText(image: Image, text: string, corner: int, metrics: (Font, string) -> Size, fontLoads: bool)
    returns (r: Image)
    requires fontLoads ==> FontMetricsLaw(metrics, text)
    modifies image
    ensures IsTruecolor(old(image.mode)) ==> r == image
    ensures !IsTruecolor(old(image.mode)) ==> fresh(r)
    ensures image.Snapshot() == WatermarkTextInPlace(old(image.Snapshot()), text, corner, metrics, fontLoads)
    ensures r.Snapshot() == WatermarkTextResult(old(image.Snapshot()), text, corner, metrics, fontLoads)
  {
    var wasP := image.mode == P;
    var wasL := image.mode == L;
    var target := ToCompositable(image);
    var font := LoadFont(metrics, text, target.height, fontLoads);
    DrawOutlined(target, text, font, corner, metrics(font, text));
    r := Restore(target, wasP, wasL);
  }
}
