/**
 * The integer grid vector and the axis-aligned segment that the tunnel code
 * consumes. Both come from a vector library whose source is not part of this
 * model: the vector is a value with structural equality, and a segment's
 * containment test is defined here under the stated assumption below.
 */
module Geometry {

  /** A grid coordinate, compared by value. */
  datatype Vec2 = Vec2(x: int, y: int)

  function Min(a: int, b: int): int { if a <= b then a else b }
  function Max(a: int, b: int): int { if a <= b then b else a }

  /** Two grid points one step apart along one axis. */
  predicate Adjacent(a: Vec2, b: Vec2) {
    (a.x == b.x && (a.y - b.y == 1 || b.y - a.y == 1)) ||
    (a.y == b.y && (a.x - b.x == 1 || b.x - a.x == 1))
  }

  /** The segment between two grid points. */
  datatype Segment = Segment(a: Vec2, b: Vec2) {

    /**
     * Inclusive containment on an axis-aligned segment: the fixed coordinate
     * matches and the varying one lies between the two ends. ASSUMPTION: the
     * library's own definition is not available; on a diagonal segment (which
     * the tunnel code never builds from well-formed paths) only the two ends
     * are taken to be contained.
     */
    predicate Contains(q: Vec2) {
      if a.x == b.x then q.x == a.x && Min(a.y, b.y) <= q.y <= Max(a.y, b.y)
      else if a.y == b.y then q.y == a.y && Min(a.x, b.x) <= q.x <= Max(a.x, b.x)
      else q == a || q == b
    }
  }

  /** Both ends of a segment are on it. */
  lemma ContainsEnds(s: Segment)
    ensures s.Contains(s.a) && s.Contains(s.b)
  {
  }

  /** A one-step segment contains exactly its two ends. */
  lemma UnitSegmentContains(a: Vec2, b: Vec2, q: Vec2)
    requires Adjacent(a, b)
    ensures Segment(a, b).Contains(q) <==> q == a || q == b
  {
  }
}
