/** The fixed geometry of a candidate crop: the whitelisted widths, the
    4:3 height, and the nine points at which a crop is sampled. */
module Sampling {

  /** The crop widths a selection attempt chooses from. */
  const WIDTHS: seq<nat> := [600, 800, 1000, 1200, 2000]

  /** `width * 3 / 4`. The source divides as floats; the integer quotient is
      used here, and HeightIsExact shows it is the same number for every
      whitelisted width. */
  function HeightOf(width: nat): (h: nat)
    ensures width % 4 == 0 ==> 4 * h == 3 * width
    ensures h <= width
  {
    width * 3 / 4
  }

  lemma HeightIsExact(width: nat)
    requires width in WIDTHS
    ensures HeightOf(width) as real == width as real * 3.0 / 4.0
    ensures 0 < HeightOf(width) < width
  {
  }

  /** The column coordinates sampled in a crop of width w: left edge,
      middle, right edge, with `right = w - 1`. */
  function Columns(w: nat): set<int>
  {
    {0, (w - 1) / 2, w - 1}
  }

  /** The row coordinates sampled in a crop of height h: top, middle, bottom. */
  function Rows(h: nat): set<int>
  {
    {0, (h - 1) / 2, h - 1}
  }

  /** The nine `(column, row)` points, in the order the source lists them:
      corners, edge midpoints and centre. The midpoints `right / 2` and
      `bottom / 2` are floats of the form k.5 in the source (every width and
      height is even); they are modelled as the floor, which assumes that the
      pixel lookup truncates a non-negative float coordinate
      (see MidpointIsTruncated). */
  function SamplePoints(w: nat, h: nat): (pts: seq<(nat, nat)>)
    requires 0 < w && 0 < h
    ensures |pts| == 9
    ensures forall k :: 0 <= k < |pts| ==> pts[k].0 < w && pts[k].1 < h
  {
    var left, top := 0, 0;
    var right, bottom := w - 1, h - 1;
    [(left, top), (right, top), (right / 2, top),
     (left, bottom / 2), (right, bottom / 2), (right / 2, bottom / 2),
     (left, bottom), (right, bottom), (right / 2, bottom)]
  }

  /** The sample points are exactly the grid Columns(w) x Rows(h). */
  lemma SamplePointsAreGrid(w: nat, h: nat)
    requires 0 < w && 0 < h
    ensures forall c: nat, r: nat :: (c, r) in SamplePoints(w, h) <==> c in Columns(w) && r in Rows(h)
  {
  }

  /** For crops at least three pixels wide and tall (every whitelisted size)
      the nine points are pairwise distinct, so nine different pixels are
      sampled. */
  lemma SamplePointsDistinct(w: nat, h: nat)
    requires 3 <= w && 3 <= h
    ensures forall k, l :: 0 <= k < l < |SamplePoints(w, h)| ==> SamplePoints(w, h)[k] != SamplePoints(w, h)[l]
  {
  }

  /** Every whitelisted width and its height are even, so `right` and
      `bottom` are odd and their halves are k.5 in the source; truncating
      that float gives the integer quotient used by SamplePoints. */
  lemma MidpointIsTruncated(width: nat)
    requires width in WIDTHS
    ensures (width - 1) as real / 2.0 == ((width - 1) / 2) as real + 0.5
    ensures (HeightOf(width) - 1) as real / 2.0 == ((HeightOf(width) - 1) / 2) as real + 0.5
  {
  }
}
