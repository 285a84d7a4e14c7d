/** The colour-mode round trip both watermark functions wrap around their
    drawing (watermark.py): palette and greyscale images are composited in a
    truecolour mode and converted back afterwards. */
module ModeRoundTrip {
  import opened Imaging

  /** Modes the compositing step works in without conversion. */
  predicate IsTruecolor(m: Mode)
  {
    m == RGB || m == RGBA
  }

  /** The image was read as a JPEG file (format name JPG or JPEG). */
  predicate IsJpegFamily(f: Format)
  {
    f == Named("JPG") || f == Named("JPEG")
  }

  /** Mode the image is converted to before compositing. */
  function WorkingMode(m: Mode, f: Format): (r: Mode)
    ensures IsTruecolor(r)
    ensures IsTruecolor(m) ==> r == m
    ensures !IsTruecolor(m) ==> (r == RGB <==> IsJpegFamily(f))
  {
    if IsTruecolor(m) then m
    else if IsJpegFamily(f) then RGB
    else RGBA
  }

  /** Mode after the conversion back: palette and greyscale images return to
      their mode, every other image keeps the one it was composited in. */
  function RestoreMode(original: Mode, current: Mode): Mode
  {
    if original == P then P
    else if original == L then L
    else current
  }

  /** Mode of the image a watermark function returns, given the input's mode and
      format: the two steps composed. */
  function RoundTripMode(m: Mode, f: Format): (r: Mode)
    ensures m == P ==> r == P
    ensures m == L ==> r == L
    ensures IsTruecolor(m) ==> r == m
    ensures m != P && m != L && !IsTruecolor(m) ==> r == (if IsJpegFamily(f) then RGB else RGBA)
  {
    RestoreMode(m, WorkingMode(m, f))
  }

  /** A second round trip changes nothing, whatever format the image then has:
      the mode class (palette, greyscale, truecolour) is a fixed point. */
  lemma RoundTripIdempotent(m: Mode, f: Format, g: Format)
    ensures RoundTripMode(RoundTripMode(m, f), g) == RoundTripMode(m, f)
  {
  }

  /** The picture compositing works on. */
  function Working(p: Picture): (q: Picture)
    ensures IsTruecolor(q.mode) && q.mode == WorkingMode(p.mode, p.format)
    ensures q.Extent() == p.Extent() && q.ops == p.ops
    ensures IsTruecolor(p.mode) ==> q == p
  {
    if IsTruecolor(p.mode) then p else Converted(p, WorkingMode(p.mode, p.format))
  }

  /** The picture returned after the conversion back, from the flags recorded
      before compositing. */
  function Restored(wasP: bool, wasL: bool, q: Picture): (r: Picture)
    ensures r.Extent() == q.Extent() && r.ops == q.ops
    ensures wasP ==> r.mode == P
    ensures !wasP && wasL ==> r.mode == L
    ensures !wasP && !wasL ==> r == q
  {
    if wasP then Converted(q, P)
    else if wasL then Converted(q, L)
    else q
  }

  /** Converts `image` to a compositable mode. A truecolour image is used as it
      is; any other is replaced by a new converted object, leaving the original
      object untouched. */
  method ToCompositable(image: Image) returns (target: Image)
    ensures IsTruecolor(image.mode) ==> target == image
    ensures !IsTruecolor(image.mode) ==> fresh(target)
    ensures target.Snapshot() == Working(image.Snapshot())
  {
    if image.mode != RGB && image.mode != RGBA {
      if image.format == Named("JPG") || image.format == Named("JPEG") {
        target := image.Convert(RGB);
      } else {
        target := image.Convert(RGBA);
      }
    } else {
      target := image;
    }
  }

  /** Converts back: to a palette image (adaptive 256-colour palette) when the
      input was one, to greyscale when the input was greyscale. */
  method Restore(target: Image, wasP: bool, wasL: bool) returns (r: Image)
    ensures (wasP || wasL) ==> fresh(r)
    ensures !wasP && !wasL ==> r == target
    ensures r.Snapshot() == Restored(wasP, wasL, target.Snapshot())
  {
    if wasP {
      r := target.Convert(P);
    } else if wasL {
      r := target.Convert(L);
    } else {
      r := target;
    }
  }

  /** The recorded flags and the two conversions yield the round-trip mode. */
  lemma RestoredMode(p: Picture, q: Picture)
    requires q.mode == WorkingMode(p.mode, p.format)
    ensures Restored(p.mode == P, p.mode == L, q).mode == RoundTripMode(p.mode, p.format)
  {
  }
}
