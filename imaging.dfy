/** The part of the imaging library (Pillow 5.0.0) that aperturelib calls, as an
    abstract image record: a size, a colour mode, the file format it was read
    from, and the log of drawing operations applied to its pixels. Resampling,
    palette quantisation and glyph rendering are not modelled; only their effect
    on this record is. */
module Imaging {

  /** A (width, height) pair, as the tuples Pillow takes and returns. */
  datatype Size = Size(w: nat, h: nat)

  /** A top-left coordinate; it may lie outside the canvas. */
  datatype Pos = Pos(x: int, y: int)

  /** The colour modes Pillow knows ("1" is Bilevel). */
  datatype Mode = Bilevel | L | P | RGB | RGBA | LA | PA | CMYK | YCbCr | LAB | HSV | I | F | RGBX

  /** `Image.format`: the name of the file format the image was read from, or
      None (Unnamed) for every image the library itself creates. */
  datatype Format = Unnamed | Named(name: string)

  /** The bundled TrueType face at a point size, or the library's built-in font. */
  datatype Font = TrueType(points: int) | DefaultFont

  datatype Fill = Black | White

  /** One drawing call on the pixels: a paste of an overlay of the given extent,
      or one text render. */
  datatype DrawOp =
    | PasteOp(at: Pos, extent: Size)
    | TextOp(at: Pos, text: string, font: Font, fill: Fill)

  /** The observable state of one image object. */
  datatype Picture = Picture(width: nat, height: nat, mode: Mode, format: Format, ops: seq<DrawOp>)
  {
    function Extent(): Size { Size(width, height) }
  }

  /** The size `Image.thumbnail(box)` gives an image of size `src`: shrink the
      width to the box keeping the aspect ratio (never below 1), then the same for
      the height. A size already inside the box is kept. */
  function ThumbSize(src: Size, box: Size): (r: Size)
    ensures r.h <= box.h
    ensures box.w >= 1 ==> r.w <= box.w
  {
    var first := if src.w > box.w then Size(box.w, AtLeastOne(src.h * box.w / src.w)) else src;
    if first.h > box.h then
      ScaledDown(first.w, box.h, first.h);
      Size(AtLeastOne(first.w * box.h / first.h), box.h)
    else first
  }

  function AtLeastOne(n: int): nat
  {
    if n < 1 then 1 else n
  }

  /** Scaling by a ratio below one never grows a length. */
  lemma ScaledDown(a: nat, num: nat, den: nat)
    requires num < den
    ensures a * num / den <= a
  {
    var q := a * num / den;
    assert q * den + a * num % den == a * num;
    assert a * num <= a * den by {
      MulLeft(a, num, den);
    }
    if q > a {
      MulLeft(den, a + 1, q);
      assert false;
    }
  }

  lemma MulLeft(k: nat, x: nat, y: nat)
    requires x <= y
    ensures k * x <= k * y
  {
    var d := y - x;
    assert k * y == k * x + k * d;
  }

  /** The thumbnail fits inside a box of positive size, and is never empty when
      the source is not. */
  lemma ThumbFitsBox(src: Size, box: Size)
    requires box.w >= 1 && box.h >= 1
    ensures ThumbSize(src, box).w <= box.w && ThumbSize(src, box).h <= box.h
    ensures src.w >= 1 && src.h >= 1 ==> ThumbSize(src, box).w >= 1 && ThumbSize(src, box).h >= 1
  {
    var first := if src.w > box.w then Size(box.w, AtLeastOne(src.h * box.w / src.w)) else src;
    assert first.w <= box.w;
    if first.h > box.h {
      ScaledDown(first.w, box.h, first.h);
    }
  }

  /** The thumbnail never exceeds the source in either dimension. */
  lemma ThumbNeverGrows(src: Size, box: Size)
    requires src.w >= 1 && src.h >= 1
    ensures ThumbSize(src, box).w <= src.w && ThumbSize(src, box).h <= src.h
  {
    var first := if src.w > box.w then Size(box.w, AtLeastOne(src.h * box.w / src.w)) else src;
    if src.w > box.w {
      ScaledDown(src.h, box.w, src.w);
    }
    assert first.w <= src.w && first.h <= src.h;
    if first.h > box.h {
      ScaledDown(first.w, box.h, first.h);
    }
  }

  /** A source already inside the box is left as it is. */
  lemma ThumbKeepsFitting(src: Size, box: Size)
    requires src.w <= box.w && src.h <= box.h
    ensures ThumbSize(src, box) == src
  {
  }

  /** Effect of `Image.thumbnail(box)`: in place, only the size changes. */
  function Thumbnailed(p: Picture, box: Size): Picture
  {
    var s := ThumbSize(p.Extent(), box);
    p.(width := s.w, height := s.h)
  }

  /** Effect of `Image.copy()`: a new image the library created. */
  function Copied(p: Picture): Picture
  {
    p.(format := Unnamed)
  }

  /** Effect of `Image.resize(box)`: a new image of exactly the box's size. */
  function Scaled(p: Picture, box: Size): Picture
  {
    p.(width := box.w, height := box.h, format := Unnamed)
  }

  /** Effect of `Image.convert(mode)`: a new image in the given mode. */
  function Converted(p: Picture, m: Mode): Picture
  {
    p.(mode := m, format := Unnamed)
  }

  /** Effect of drawing calls on the pixels: they are appended to the log. */
  function Drawn(p: Picture, ops: seq<DrawOp>): Picture
  {
    p.(ops := p.ops + ops)
  }

  /** A mutable image object (a PIL Image). Several names may refer to one
      object; calls that mutate it in place are visible through all of them. */
  class Image {
    var width: nat
    var height: nat
    var mode: Mode
    var format: Format
    var ops: seq<DrawOp>

    function Snapshot(): Picture
      reads this
    {
      Picture(width, height, mode, format, ops)
    }

    /** `Image.open`: an object holding what the file decodes to. */
    constructor Open(p: Picture)
      ensures Snapshot() == p
    {
      width, height, mode, format, ops := p.width, p.height, p.mode, p.format, p.ops;
    }

    method Copy() returns (c: Image)
      ensures fresh(c) && c.Snapshot() == Copied(Snapshot())
    {
      c := new Image.Open(Copied(Snapshot()));
    }

    method Thumbnail(box: Size)
      modifies this
      ensures Snapshot() == Thumbnailed(old(Snapshot()), box)
    {
      var s := ThumbSize(Size(width, height), box);
      width, height := s.w, s.h;
    }

    method Resize(box: Size) returns (r: Image)
      ensures fresh(r) && r.Snapshot() == Scaled(Snapshot(), box)
    {
      r := new Image.Open(Scaled(Snapshot(), box));
    }

    method Convert(m: Mode) returns (c: Image)
      ensures fresh(c) && c.Snapshot() == Converted(Snapshot(), m)
    {
      c := new Image.Open(Converted(Snapshot(), m));
    }

    /** `Image.paste(overlay, at, mask)`: composites the overlay in place. */
    method Paste(overlay: Image, at: Pos)
      modifies this
      ensures Snapshot() == Drawn(old(Snapshot()), [PasteOp(at, old(Size(overlay.width, overlay.height)))])
    {
      ops := ops + [PasteOp(at, Size(overlay.width, overlay.height))];
    }

    /** `ImageDraw.Draw(image).text(at, text, font, fill)`: renders in place. */
    method Text(at: Pos, text: string, font: Font, fill: Fill)
      modifies this
      ensures Snapshot() == Drawn(old(Snapshot()), [TextOp(at, text, font, fill)])
    {
      ops := ops + [TextOp(at, text, font, fill)];
    }
  }
}
