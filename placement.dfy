/** Corner placement of an overlay on a canvas (`get_pos` in watermark.py). */
module Placement {
  import opened Imaging

  /** Top-left coordinate for an overlay of size `sub` on a canvas of size
      `main`, `padding` pixels in from the chosen corner: 0 top left, 1 top
      right, 3 bottom left, and every other value bottom right. */
  function GetPos(corner: int, main: Size, sub: Size, padding: int): (r: Pos)
    ensures r.x == padding || r.x + sub.w + padding == main.w
    ensures r.y == padding || r.y + sub.h + padding == main.h
  {
    if corner == 0 then Pos(padding, padding)
    else if corner == 1 then Pos(main.w - sub.w - padding, padding)
    else if corner == 3 then Pos(padding, main.h - sub.h - padding)
    else Pos(main.w - sub.w - padding, main.h - sub.h - padding)
  }

  /** The rectangle at `at` of size `extent` keeps `margin` pixels clear of every
      edge of the canvas. */
  predicate InsideWithMargin(at: Pos, extent: Size, canvas: Size, margin: int)
  {
    margin <= at.x && at.x + extent.w <= canvas.w - margin &&
    margin <= at.y && at.y + extent.h <= canvas.h - margin
  }

  /** Which edges the overlay is anchored to: the left corners (0, 3) put it
      `padding` from the left edge, all others put its right side `padding`
      from the right edge; the top corners (0, 1) put it `padding` from the top,
      all others put its bottom side `padding` from the bottom. */
  lemma CornerAnchoring(corner: int, main: Size, sub: Size, padding: int)
    ensures var at := GetPos(corner, main, sub, padding);
      ((corner == 0 || corner == 3) ==> at.x == padding) &&
      ((corner != 0 && corner != 3) ==> at.x + sub.w + padding == main.w) &&
      ((corner == 0 || corner == 1) ==> at.y == padding) &&
      ((corner != 0 && corner != 1) ==> at.y + sub.h + padding == main.h)
  {
  }

  /** Any corner code other than 0, 1 and 3 (2 included, negative or large
      values too) places the overlay bottom right. */
  lemma UnknownCornerIsBottomRight(corner: int, main: Size, sub: Size, padding: int)
    requires corner != 0 && corner != 1 && corner != 3
    ensures GetPos(corner, main, sub, padding) == GetPos(2, main, sub, padding)
  {
  }

  /** An overlay that leaves room for the padding on both sides of both axes
      lies inside the canvas with that margin, whatever the corner. */
  lemma PlacedInsideMargins(corner: int, main: Size, sub: Size, padding: int)
    requires sub.w <= main.w - 2 * padding && sub.h <= main.h - 2 * padding
    ensures InsideWithMargin(GetPos(corner, main, sub, padding), sub, main, padding)
  {
    CornerAnchoring(corner, main, sub, padding);
  }

  /** The four placements of a 20x10 overlay on a 100x100 canvas with padding 2. */
  lemma PlacementExamples()
    ensures GetPos(0, Size(100, 100), Size(20, 10), 2) == Pos(2, 2)
    ensures GetPos(1, Size(100, 100), Size(20, 10), 2) == Pos(78, 2)
    ensures GetPos(3, Size(100, 100), Size(20, 10), 2) == Pos(2, 88)
    ensures GetPos(2, Size(100, 100), Size(20, 10), 2) == Pos(78, 88)
    ensures GetPos(7, Size(100, 100), Size(20, 10), 2) == Pos(78, 88)
  {
  }
}
