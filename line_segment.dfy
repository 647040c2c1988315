// src/linalg/LineSegment.ts: a segment between two points, with the
// projection of a point onto it and the distance from a point to it.

module Segments {
  import opened Common
  import opened Vectors

  /**
   * The segment keeps its own copies of both endpoints, so it is a value:
   * nothing done later to the `Vector2` objects it was built from reaches it.
   */
  datatype LineSegment = LineSegment(from: Vec, to: Vec) {

    /** `asVector`: the vector from `to` back to `from`. */
    function AsVector(): (r: Vec)
      ensures r.Plus(to) == from
    {
      from.Minus(to)
    }

    /** The point a fraction `s` of the way from `from` to `to`. */
    function PointAt(s: real): Vec
    {
      Vec(from.x + s * (to.x - from.x), from.y + s * (to.y - from.y))
    }

    /** `p` lies on the segment. */
    ghost predicate Contains(p: Vec)
    {
      exists s: real :: 0.0 <= s <= 1.0 && p == PointAt(s)
    }

    /** |to - from|², the divisor of the projection; positive for a proper segment. */
    function SquaredLength(): (r: real)
      requires from != to
      ensures r > 0.0
    {
      SumOfSquaresPositive(to.x - from.x, to.y - from.y);
      Sq(to.x - from.x) + Sq(to.y - from.y)
    }

    /**
     * The parameter `t` of the projection of `p` onto the line through both
     * endpoints (src/linalg/LineSegment.ts:33): the solution of t |to - from|² = (p - from) . (to - from).
     */
    function Parameter(p: Vec): (t: real)
      requires from != to
      ensures t * SquaredLength() == (p.x - from.x) * (to.x - from.x) + (p.y - from.y) * (to.y - from.y)
    {
      var dot := (p.x - from.x) * (to.x - from.x) + (p.y - from.y) * (to.y - from.y);
      QuotientTimesDivisor(dot, SquaredLength());
      dot / SquaredLength()
    }

    /**
     * `closestPointOnSegment` (src/linalg/LineSegment.ts:28-44): the projection
     * with its parameter clamped to [0, 1]. The source divides by |to - from|²
     * without a guard, so a segment whose endpoints coincide is excluded.
     */
    function ClosestPoint(p: Vec): (r: Vec)
      requires from != to
      ensures Contains(r)
    {
      var t := Parameter(p);
      if t < 0.0 then
        assert from == PointAt(0.0);
        from
      else if t > 1.0 then
        assert to == PointAt(1.0);
        to
      else
        PointAt(t)
    }

    /** `distanceFrom` (src/linalg/LineSegment.ts:46-49): length of `p` minus its closest point. */
    function DistanceFrom(p: Vec): (r: real)
      requires from != to
      ensures r >= 0.0
      ensures r == 0.0 <==> p == ClosestPoint(p)
    {
      p.Minus(ClosestPoint(p)).Len()
    }
  }

  /** `new LineSegment(from, to)` / `LineSegment.create`: copies both endpoints. */
  method Create(from: Vector2, to: Vector2) returns (s: LineSegment)
    ensures s.from == from.vector && s.to == to.vector
  {
    s := LineSegment(from.vector, to.vector);
  }

  function Sq(a: real): real
  {
    a * a
  }

  /** Squared Euclidean distance between two points. */
  function SquaredDistance(a: Vec, b: Vec): real
  {
    Sq(a.x - b.x) + Sq(a.y - b.y)
  }

  /** Projecting a point of the segment gives back that point. */
  lemma ParameterOfPointAt(seg: LineSegment, s: real)
    requires seg.from != seg.to
    ensures seg.Parameter(seg.PointAt(s)) == s
  {
    var dx, dy := seg.to.x - seg.from.x, seg.to.y - seg.from.y;
    var p := seg.PointAt(s);
    assert p.x - seg.from.x == s * dx;
    assert p.y - seg.from.y == s * dy;
    calc {
      (p.x - seg.from.x) * dx + (p.y - seg.from.y) * dy;
      (s * dx) * dx + (s * dy) * dy;
      s * (Sq(dx) + Sq(dy));
      s * seg.SquaredLength();
    }
  }

  /** Every point of the segment, both endpoints included, is its own closest point. */
  lemma {:induction false} ClosestPointOnSegmentIsItself(seg: LineSegment, s: real)
    requires seg.from != seg.to && 0.0 <= s <= 1.0
    ensures seg.ClosestPoint(seg.PointAt(s)) == seg.PointAt(s)
  {
    ParameterOfPointAt(seg, s);
  }

  /** The distance from any point of the segment, both endpoints included, is zero. */
  lemma DistanceOnSegmentIsZero(seg: LineSegment, p: Vec)
    requires seg.from != seg.to && seg.Contains(p)
    ensures seg.DistanceFrom(p) == 0.0
  {
    var s :| 0.0 <= s <= 1.0 && p == seg.PointAt(s);
    ClosestPointOnSegmentIsItself(seg, s);
  }

  /** Corollary for the endpoints. */
  lemma DistanceFromEndpointsIsZero(seg: LineSegment)
    requires seg.from != seg.to
    ensures seg.DistanceFrom(seg.from) == 0.0 && seg.DistanceFrom(seg.to) == 0.0
  {
    assert seg.from == seg.PointAt(0.0);
    assert seg.to == seg.PointAt(1.0);
    DistanceOnSegmentIsZero(seg, seg.from);
    DistanceOnSegmentIsZero(seg, seg.to);
  }

  /** A point whose projection falls outside [0, 1] is measured from the nearer endpoint. */
  lemma DistanceBeyondTheEnds(seg: LineSegment, p: Vec)
    requires seg.from != seg.to
    ensures seg.Parameter(p) < 0.0 ==> seg.DistanceFrom(p) == p.Minus(seg.from).Len()
    ensures seg.Parameter(p) > 1.0 ==> seg.DistanceFrom(p) == p.Minus(seg.to).Len()
  {
  }

  /** One coordinate of the difference of two squared distances. */
  lemma SquareDifference(w: real, a: real, s: real, u: real)
    ensures Sq(w - s * a) - Sq(w - u * a) == (u - s) * (2.0 * w * a - (s + u) * Sq(a))
  {
  }

  lemma SquareSign(a: real)
    ensures Sq(a) >= 0.0
    ensures a != 0.0 ==> Sq(a) > 0.0
  {
    if a > 0.0 {
      ProductPositive(a, a, Sq(a));
    } else if a < 0.0 {
      ProductPositive(-a, -a, Sq(a));
    }
  }

  lemma SumOfSquaresPositive(a: real, b: real)
    requires a != 0.0 || b != 0.0
    ensures Sq(a) + Sq(b) > 0.0
  {
    SquareSign(a);
    SquareSign(b);
  }

  /** Moving the parameter from `s` to the clamped `u` never moves away from the point. */
  lemma ClampNeverWorse(s: real, t: real, u: real, d: real)
    requires 0.0 <= s <= 1.0 && d > 0.0
    requires u == Clamp(t)
    ensures (u - s) * d * (2.0 * t - s - u) >= 0.0
  {
    var f := (u - s) * (2.0 * t - s - u);
    if t < 0.0 {
      ProductNonNegative(s, s - 2.0 * t, f);
    } else if t > 1.0 {
      ProductNonNegative(1.0 - s, 2.0 * t - s - 1.0, f);
    } else if t >= s {
      ProductNonNegative(t - s, t - s, f);
    } else {
      ProductNonNegative(s - t, s - t, f);
    }
    ProductNonNegative(f, d, (u - s) * d * (2.0 * t - s - u));
  }

  /** The nearest-point inequality on coordinates relative to `from`. */
  lemma NearestOnCoordinates(wx: real, wy: real, dx: real, dy: real, s: real, t: real, u: real)
    requires 0.0 <= s <= 1.0 && Sq(dx) + Sq(dy) > 0.0
    requires wx * dx + wy * dy == t * (Sq(dx) + Sq(dy))
    requires u == Clamp(t)
    ensures Sq(wx - u * dx) + Sq(wy - u * dy) <= Sq(wx - s * dx) + Sq(wy - s * dy)
  {
    var d := Sq(dx) + Sq(dy);
    SquareDifference(wx, dx, s, u);
    SquareDifference(wy, dy, s, u);
    assert Sq(wx - s * dx) + Sq(wy - s * dy) - (Sq(wx - u * dx) + Sq(wy - u * dy))
        == (u - s) * d * (2.0 * t - s - u);
    ClampNeverWorse(s, t, u, d);
  }

  /**
   * The clamped projection is the point of the segment nearest to `p` in the
   * Euclidean sense: no point of the segment is closer.
   */
  lemma ClosestPointIsNearest(seg: LineSegment, p: Vec, s: real)
    requires seg.from != seg.to && 0.0 <= s <= 1.0
    ensures SquaredDistance(p, seg.ClosestPoint(p)) <= SquaredDistance(p, seg.PointAt(s))
  {
    ClosestPointAtClampedParameter(seg, p);
    ClampedParameterIsNearest(seg, p, s, seg.Parameter(p), Clamp(seg.Parameter(p)));
  }

  /** The squared distance to the point at the clamped parameter `u` is at most that to the point at `s`. */
  lemma ClampedParameterIsNearest(seg: LineSegment, p: Vec, s: real, t: real, u: real)
    requires seg.from != seg.to && 0.0 <= s <= 1.0
    requires t == seg.Parameter(p) && u == Clamp(t)
    ensures SquaredDistance(p, seg.PointAt(u)) <= SquaredDistance(p, seg.PointAt(s))
  {
    var dx, dy := seg.to.x - seg.from.x, seg.to.y - seg.from.y;
    var wx, wy := p.x - seg.from.x, p.y - seg.from.y;
    DistanceToPointAt(seg, p, s, wx, wy, dx, dy);
    DistanceToPointAt(seg, p, u, wx, wy, dx, dy);
    ParameterTimesLength(seg, p, t, wx, wy, dx, dy);
    SumOfSquaresPositive(dx, dy);
    NearestOnCoordinates(wx, wy, dx, dy, s, t, u);
  }

  function Clamp(t: real): real
  {
    if t < 0.0 then 0.0 else if t > 1.0 then 1.0 else t
  }

  lemma ClosestPointAtClampedParameter(seg: LineSegment, p: Vec)
    requires seg.from != seg.to
    ensures seg.ClosestPoint(p) == seg.PointAt(Clamp(seg.Parameter(p)))
  {
    assert seg.from == seg.PointAt(0.0);
    assert seg.to == seg.PointAt(1.0);
  }

  /** The squared distance from `p` to a point of the line, on coordinates relative to `from`. */
  lemma DistanceToPointAt(seg: LineSegment, p: Vec, s: real, wx: real, wy: real, dx: real, dy: real)
    requires wx == p.x - seg.from.x && wy == p.y - seg.from.y
    requires dx == seg.to.x - seg.from.x && dy == seg.to.y - seg.from.y
    ensures SquaredDistance(p, seg.PointAt(s)) == Sq(wx - s * dx) + Sq(wy - s * dy)
  {
    assert p.x - seg.PointAt(s).x == wx - s * dx;
    assert p.y - seg.PointAt(s).y == wy - s * dy;
  }

  /** The projection parameter solves t |d|^2 = w . d. */
  lemma ParameterTimesLength(seg: LineSegment, p: Vec, t: real, wx: real, wy: real, dx: real, dy: real)
    requires seg.from != seg.to && t == seg.Parameter(p)
    requires wx == p.x - seg.from.x && wy == p.y - seg.from.y
    requires dx == seg.to.x - seg.from.x && dy == seg.to.y - seg.from.y
    ensures wx * dx + wy * dy == t * (Sq(dx) + Sq(dy))
  {
    QuotientTimesDivisor(wx * dx + wy * dy, seg.SquaredLength());
  }

  lemma QuotientTimesDivisor(n: real, d: real)
    requires d != 0.0
    ensures (n / d) * d == n
  {
  }
}
