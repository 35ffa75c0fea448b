/**
 * Axis-aligned bounding boxes and the cheap rectangle-overlap test that the
 * parcel filter runs before the exact containment test.
 */
module Bounds {

  /** A bounding box in the order shapely reports it: (min_x, min_y, max_x, max_y). */
  datatype BoundingBox = BoundingBox(minX: real, minY: real, maxX: real, maxY: real)

  /** A box whose minimum does not exceed its maximum on either axis. */
  predicate WellFormed(b: BoundingBox) {
    b.minX <= b.maxX && b.minY <= b.maxY
  }

  /** The point (x, y) lies in the closed box b. */
  ghost predicate Covers(b: BoundingBox, x: real, y: real) {
    b.minX <= x <= b.maxX && b.minY <= y <= b.maxY
  }

  /** Box a lies entirely to the left of box b, with a gap between them. */
  predicate StrictlyLeftOf(a: BoundingBox, b: BoundingBox) {
    a.maxX < b.minX
  }

  /** Box a lies entirely below box b, with a gap between them. */
  predicate StrictlyBelow(a: BoundingBox, b: BoundingBox) {
    a.maxY < b.minY
  }

  /** Box inner lies inside box outer (closed boxes). */
  predicate Within(inner: BoundingBox, outer: BoundingBox) {
    outer.minX <= inner.minX && inner.maxX <= outer.maxX &&
    outer.minY <= inner.minY && inner.maxY <= outer.maxY
  }

  /**
   * The four closed-interval comparisons of the prefilter. Boxes that only
   * touch along an edge or at a corner intersect; boxes separated by a gap
   * on either axis do not.
   */
  function BoundsIntersect(b1: BoundingBox, b2: BoundingBox): (r: bool)
    ensures WellFormed(b1) && b2 == b1 ==> r
    ensures StrictlyLeftOf(b1, b2) || StrictlyLeftOf(b2, b1) ==> !r
    ensures StrictlyBelow(b1, b2) || StrictlyBelow(b2, b1) ==> !r
    ensures !r ==> StrictlyLeftOf(b1, b2) || StrictlyLeftOf(b2, b1) ||
                   StrictlyBelow(b1, b2) || StrictlyBelow(b2, b1)
  {
    b1.minX <= b2.maxX &&
    b2.minX <= b1.maxX &&
    b1.minY <= b2.maxY &&
    b2.minY <= b1.maxY
  }

  /** The larger of two coordinates: the witness point's coordinate below. */
  ghost function Max(a: real, b: real): real {
    if a < b then b else a
  }

  /** The order of the two boxes does not matter. */
  lemma BoundsIntersectSymmetric(a: BoundingBox, b: BoundingBox)
    ensures BoundsIntersect(a, b) == BoundsIntersect(b, a)
  {
  }

  /**
   * For well-formed boxes the prefilter is exactly "the two closed boxes
   * share a point": the geometric meaning of the four comparisons.
   */
  lemma BoundsIntersectIffCommonPoint(b1: BoundingBox, b2: BoundingBox)
    requires WellFormed(b1) && WellFormed(b2)
    ensures BoundsIntersect(b1, b2) <==> exists x, y :: Covers(b1, x, y) && Covers(b2, x, y)
  {
    if BoundsIntersect(b1, b2) {
      var x, y := Max(b1.minX, b2.minX), Max(b1.minY, b2.minY);
      assert Covers(b1, x, y) && Covers(b2, x, y);
    }
  }

  /**
   * A well-formed box inside another always passes the prefilter against
   * it, so the prefilter never rejects a parcel whose box lies within the
   * division's box.
   */
  lemma WithinImpliesIntersect(inner: BoundingBox, outer: BoundingBox)
    requires WellFormed(inner) && Within(inner, outer)
    ensures BoundsIntersect(outer, inner)
  {
  }
}
