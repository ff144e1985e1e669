/** Toroidal screen edges: a circle that has left the world through one edge is
    moved to just outside the opposite edge. Both the live circle tick and the
    preview step apply the same rule to the centre of a circle of radius `r` in a
    world of size `width` by `height`. */
module EdgeWrap {

  /** One axis of the wrap: a centre wholly past the far edge lands just before
      the near edge, a centre wholly before the near edge lands just past the far
      edge, and any other centre stays where it is. */
  function WrapAxis(p: real, r: real, bound: real): (q: real)
    ensures 0.0 < p + r && p - r < bound ==> q == p
    ensures p - r >= bound ==> q + r == 0.0
    ensures p - r < bound && p + r <= 0.0 ==> q - r == bound
  {
    if p - r >= bound then 0.0 - r
    else if p + r <= 0.0 then bound + r
    else p
  }

  /** The wrap of a centre: the source first asks whether the circle is outside on
      any side, and only then applies the per-axis rule to both axes. */
  function Wrap(x: real, y: real, r: real, width: real, height: real): (p: (real, real))
    ensures p == (WrapAxis(x, r, width), WrapAxis(y, r, height))
  {
    if x - r >= width || x + r <= 0.0 || y - r >= height || y + r <= 0.0 then
      (WrapAxis(x, r, width), WrapAxis(y, r, height))
    else (x, y)
  }

  /** A circle that overlaps the world on both axes is not moved. */
  lemma WrapInsideUntouched(x: real, y: real, r: real, width: real, height: real)
    requires 0.0 < x + r && x - r < width
    requires 0.0 < y + r && y - r < height
    ensures Wrap(x, y, r, width, height) == (x, y)
  {
  }

  /** The axes are wrapped independently: moving the circle along y does not
      change where its x coordinate lands. */
  lemma WrapAxesIndependent(x: real, y1: real, y2: real, r: real, width: real, height: real)
    ensures Wrap(x, y1, r, width, height).0 == Wrap(x, y2, r, width, height).0
  {
  }

  /** The landing points are not fixed points of the wrap. With a positive radius
      in a world of positive width, a centre at -r still counts as wholly outside
      the near edge and is sent to width + r, and from there it is sent back to -r.
      The wrap therefore relies on the motion between ticks to bring the circle in. */
  lemma WrapNotIdempotent(r: real, width: real)
    requires r > 0.0 && width > 0.0
    ensures WrapAxis(0.0 - r, r, width) == width + r
    ensures WrapAxis(width + r, r, width) == 0.0 - r
    ensures WrapAxis(WrapAxis(0.0 - r, r, width), r, width) != WrapAxis(0.0 - r, r, width)
  {
  }
}
