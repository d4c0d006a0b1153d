/** Screen rectangles (common/graphics2d/Rect.hpp): half open in both directions. */
module Geometry {
  import opened Maths

  datatype Rect = Rect(x1: int, y1: int, x2: int, y2: int) {

    function Offset(x: int, y: int): Rect {
      Rect(x1 + x, y1 + y, x2 + x, y2 + y)
    }

    /** A direction in which the rectangles do not meet collapses to [0, 0). */
    function Intersect(that: Rect): Rect {
      var left, right := Max(x1, that.x1), Min(x2, that.x2);
      var top, bottom := Max(y1, that.y1), Min(y2, that.y2);
      Rect(if right <= left then 0 else left,
           if bottom <= top then 0 else top,
           if right <= left then 0 else right,
           if bottom <= top then 0 else bottom)
    }

    predicate Contains(x: int, y: int) {
      x1 <= x < x2 && y1 <= y < y2
    }
  }

  /** Intersection means set intersection even though empty results are moved to the origin. */
  lemma IntersectContains(r: Rect, s: Rect, x: int, y: int)
    ensures r.Intersect(s).Contains(x, y) <==> r.Contains(x, y) && s.Contains(x, y)
  {
  }

  /** Shifting a rectangle shifts its points. */
  lemma OffsetContains(r: Rect, dx: int, dy: int, x: int, y: int)
    ensures r.Offset(dx, dy).Contains(x, y) <==> r.Contains(x - dx, y - dy)
  {
  }
}
