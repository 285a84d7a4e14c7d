/** `resize_image` (resize.py): a resized copy of an image, aspect-preserving by
    default, that never changes the image it is given. */
module Resize {
  import opened Imaging

  /** The picture `resize_image` returns: a thumbnail of a copy, or an exact
      resize. */
  function ResizedPicture(p: Picture, box: Size, preserveAspect: bool): (q: Picture)
    ensures q.mode == p.mode && q.ops == p.ops && q.format == Unnamed
    ensures preserveAspect ==> q.height <= box.h
    ensures !preserveAspect ==> q.Extent() == box
  {
    if preserveAspect then Thumbnailed(Copied(p), box) else Scaled(p, box)
  }

  /** With the aspect kept, the result fits a box of positive size and never
      exceeds the original; without it, the result has exactly the box's size.
      Either way only the size changes: the mode and the drawn content carry
      over, and the result is an image the library created. */
  lemma ResizeHonoursBox(p: Picture, box: Size, preserveAspect: bool)
    ensures var q := ResizedPicture(p, box, preserveAspect);
      q.mode == p.mode && q.ops == p.ops && q.format == Unnamed &&
      (preserveAspect && box.w >= 1 && box.h >= 1 ==> q.width <= box.w && q.height <= box.h) &&
      (preserveAspect && p.width >= 1 && p.height >= 1 ==> q.width <= p.width && q.height <= p.height) &&
      (preserveAspect && p.width <= box.w && p.height <= box.h ==> q.Extent() == p.Extent()) &&
      (!preserveAspect ==> q.Extent() == box)
  {
    if preserveAspect {
      if box.w >= 1 && box.h >= 1 {
        ThumbFitsBox(p.Extent(), box);
      }
      if p.width >= 1 && p.height >= 1 {
        ThumbNeverGrows(p.Extent(), box);
      }
    }
  }

  /** `resize_image`: copy then thumbnail the copy, or `image.resize`. The
      result is always a new object and the input is left as it was. */
  method ResizeImage(image: Image, tupleWh: Size, preserveAspect: bool) returns (r: Image)
    ensures fresh(r)
    ensures unchanged(image)
    ensures r.Snapshot() == ResizedPicture(image.Snapshot(), tupleWh, preserveAspect)
  {
    if preserveAspect {
      var imgCpy := image.Copy();
      imgCpy.Thumbnail(tupleWh);
      r := imgCpy;
    } else {
      r := image.Resize(tupleWh);
    }
  }
}
