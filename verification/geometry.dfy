/**
 * Integer rectangles in device pixels, y axis pointing down: the `Rect` of
 * pdf2xml with its surface, intersection and bounding-union operations.
 * Rect is a C++ value type, copied on every assignment, so the in-place
 * `enlarge_to_contain` is modelled as a function returning the new value.
 */
module Geometry {

  function Min(a: int, b: int): int { if a < b then a else b }
  function Max(a: int, b: int): int { if a > b then a else b }

  datatype Rect = Rect(x: int, y: int, width: int, height: int) {

    function Right(): int { x + width }
    function Bottom(): int { y + height }

    /** A rectangle with a zero or negative side carries no visible content. */
    predicate Degenerate() { width <= 0 || height <= 0 }

    /** The pixel (px, py) lies inside the rectangle (half-open on the right and bottom). */
    predicate Contains(px: int, py: int) {
      x <= px < x + width && y <= py < y + height
    }

    /** `other` lies within this rectangle, compared edge by edge. */
    predicate Covers(other: Rect) {
      x <= other.x && other.Right() <= Right() && y <= other.y && other.Bottom() <= Bottom()
    }

    /** `surface()`: the area, width times height. */
    function Surface(): (s: int)
      ensures width > 0 && height > 0 ==> s >= width && s >= height
      ensures width == 0 || height == 0 ==> s == 0
      ensures (width > 0 && height < 0) || (width < 0 && height > 0) ==> s < 0
    {
      width * height
    }

    /**
     * `is_intersecting`: the overlap of this rectangle and `other`, and
     * whether it is non-empty.
     */
    function IsIntersecting(other: Rect): (result: (bool, Rect))
      ensures result.1.x == Max(x, other.x) && result.1.Right() == Min(Right(), other.Right())
      ensures result.1.y == Max(y, other.y) && result.1.Bottom() == Min(Bottom(), other.Bottom())
      ensures result.0 <==> result.1.width > 0 && result.1.height > 0
      ensures forall px, py :: result.1.Contains(px, py) <==> Contains(px, py) && other.Contains(px, py)
    {
      var w0 := x + width;
      var w1 := if other.x + other.width < w0 then other.x + other.width else w0;
      var rx := if x > other.x then x else other.x;
      var h0 := y + height;
      var h1 := if other.y + other.height < h0 then other.y + other.height else h0;
      var ry := if y > other.y then y else other.y;
      var r := Rect(rx, ry, w1 - rx, h1 - ry);
      (r.width > 0 && r.height > 0, r)
    }

    /**
     * `enlarge_to_contain`: an accumulator with a zero side takes the
     * operand outright; an operand with a zero side leaves the accumulator
     * alone; otherwise the result reaches from the smaller left/top edge to
     * the larger right/bottom edge. Only a side exactly equal to zero counts
     * as empty here: negative sides go through the general branch.
     */
    function EnlargeToContain(c: Rect): (r: Rect)
      ensures width == 0 || height == 0 ==> r == c
      ensures width != 0 && height != 0 && (c.width == 0 || c.height == 0) ==> r == this
      ensures width != 0 && height != 0 && c.width != 0 && c.height != 0 ==>
        && r.x == Min(x, c.x) && r.Right() == Max(Right(), c.Right())
        && r.y == Min(y, c.y) && r.Bottom() == Max(Bottom(), c.Bottom())
    {
      if height == 0 || width == 0 then c
      else if c.width != 0 && c.height != 0 then
        var curRight := x + width;
        var curBottom := y + height;
        // top left corner
        var (x1, w1) := if x > c.x then (c.x, width + (x - c.x)) else (x, width);
        var (y1, h1) := if y > c.y then (c.y, height + (y - c.y)) else (y, height);
        // dimensions
        var h2 := if c.y + c.height - curBottom > 0 then h1 + (c.y + c.height - curBottom) else h1;
        var w2 := if c.x + c.width - curRight > 0 then w1 + (c.x + c.width - curRight) else w1;
        Rect(x1, y1, w2, h2)
      else this
    }
  }

  /** The empty rectangle a fresh text block starts from. */
  const Zero := Rect(0, 0, 0, 0)

  /** The overlap does not depend on the order of the arguments. */
  lemma IntersectionSymmetric(a: Rect, b: Rect)
    ensures a.IsIntersecting(b) == b.IsIntersecting(a)
  {
  }

  /** Rectangles apart on either axis never intersect. */
  lemma DisjointNeverIntersect(a: Rect, b: Rect)
    requires a.Right() <= b.x || b.Right() <= a.x || a.Bottom() <= b.y || b.Bottom() <= a.y
    ensures !a.IsIntersecting(b).0
  {
  }

  /**
   * For rectangles with positive sides, the enlarged rectangle covers both
   * and is covered by every rectangle that covers both: it is the smallest
   * bounding rectangle.
   */
  lemma EnlargeIsSmallestCover(a: Rect, c: Rect, o: Rect)
    requires a.width > 0 && a.height > 0 && c.width > 0 && c.height > 0
    ensures a.EnlargeToContain(c).Covers(a) && a.EnlargeToContain(c).Covers(c)
    ensures o.Covers(a) && o.Covers(c) ==> o.Covers(a.EnlargeToContain(c))
  {
  }

  /** Every pixel of either rectangle lies in the enlarged one (positive sides). */
  lemma EnlargeContainsBoth(a: Rect, c: Rect, px: int, py: int)
    requires a.width > 0 && a.height > 0 && c.width > 0 && c.height > 0
    requires a.Contains(px, py) || c.Contains(px, py)
    ensures a.EnlargeToContain(c).Contains(px, py)
  {
  }

  /** Enlarging the empty starting rectangle yields the operand. */
  lemma EnlargeZero(c: Rect)
    ensures Zero.EnlargeToContain(c) == c
  {
  }
}
