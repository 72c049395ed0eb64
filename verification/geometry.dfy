/** Plane geometry used for picking: squared distances and the clamped
    point-to-segment distance of `Edge::distance_squared` (src/edge.rs).
    Coordinates are exact reals; `mus`'s f32 rounding is not modelled. */
module Geometry {

  datatype Vec2 = Vec2(x: real, y: real)

  function Add(a: Vec2, b: Vec2): Vec2 {
    Vec2(a.x + b.x, a.y + b.y)
  }

  function Sub(a: Vec2, b: Vec2): Vec2 {
    Vec2(a.x - b.x, a.y - b.y)
  }

  function Scale(t: real, v: Vec2): Vec2 {
    Vec2(t * v.x, t * v.y)
  }

  function Dot(a: Vec2, b: Vec2): real {
    a.x * b.x + a.y * b.y
  }

  /** `Vec2::distance_squared`. */
  function DistSq(a: Vec2, b: Vec2): (r: real)
    ensures r >= 0.0
    ensures a == b ==> r == 0.0
  {
    var dx := a.x - b.x;
    var dy := a.y - b.y;
    SquareSign(dx);
    SquareSign(dy);
    dx * dx + dy * dy
  }

  lemma SquareSign(v: real)
    ensures v * v >= 0.0
  {
    if v < 0.0 {
      assert v * v == (-v) * (-v);
    }
  }

  /** `f32::clamp`, which panics unless `lo <= hi`. */
  function Clamp(v: real, lo: real, hi: real): (r: real)
    requires lo <= hi
    ensures lo <= r <= hi
    ensures lo <= v <= hi ==> r == v
  {
    if v < lo then lo else if v > hi then hi else v
  }

  /** The point at parameter `t` along the segment from `a` to `b`. */
  function PointAt(a: Vec2, b: Vec2, t: real): Vec2 {
    Add(a, Scale(t, Sub(b, a)))
  }

  /** Lowest and highest projection parameter allowed by `clamp`. */
  function Lo(clamp: real): real {
    clamp / 2.0
  }

  function Hi(clamp: real): real {
    1.0 - clamp / 2.0
  }

  /** The projection parameter of `pos` onto the line through `a` and `b`,
      clamped into [clamp/2, 1 - clamp/2]. */
  function ProjectionParam(pos: Vec2, a: Vec2, b: Vec2, clamp: real): (t: real)
    requires clamp <= 1.0
    requires DistSq(a, b) != 0.0
    ensures Lo(clamp) <= t <= Hi(clamp)
  {
    Clamp(Dot(Sub(pos, a), Sub(b, a)) / DistSq(a, b), Lo(clamp), Hi(clamp))
  }

  /** `Edge::distance_squared`: squared distance from `pos` to the segment
      a-b with the projection clamped away from the endpoints. */
  function SegmentDistSq(pos: Vec2, a: Vec2, b: Vec2, clamp: real): (r: real)
    requires clamp <= 1.0
    ensures r >= 0.0
    ensures a == b ==> r == DistSq(a, pos)
  {
    if DistSq(a, b) == 0.0 then DistSq(a, pos)
    else DistSq(PointAt(a, b, ProjectionParam(pos, a, b, clamp)), pos)
  }

  /** One coordinate of the parabola identity below. */
  lemma ParabolaGap1(q: real, d: real, s: real, t: real)
    ensures (q + s * d) * (q + s * d) - (q + t * d) * (q + t * d)
         == d * d * (s - t) * (s - t) + 2.0 * (s - t) * (d * d * t + q * d)
  {
  }

  /** The parabola identity for one coordinate, with `p` the pointer's
      coordinate and `a`, `b` the endpoints'. */
  lemma CoordGap(p: real, a: real, b: real, s: real, t: real)
    ensures (a + s * (b - a) - p) * (a + s * (b - a) - p) - (a + t * (b - a) - p) * (a + t * (b - a) - p)
         == (a - b) * (a - b) * (s - t) * (s - t)
            + 2.0 * (s - t) * ((a - b) * (a - b) * t - (p - a) * (b - a))
  {
    var d, q := b - a, a - p;
    ParabolaGap1(q, d, s, t);
    assert a + s * d - p == q + s * d && a + t * d - p == q + t * d;
    assert (a - b) * (a - b) == d * d;
    assert q * d == -((p - a) * (b - a));
  }

  /** Sums of the two coordinates' terms regroup as products of sums. */
  lemma Regroup(lx: real, ly: real, wx: real, wy: real, u: real, t: real)
    ensures lx * u * u + 2.0 * u * (lx * t - wx) + (ly * u * u + 2.0 * u * (ly * t - wy))
         == (lx + ly) * u * u + 2.0 * u * ((lx + ly) * t - (wx + wy))
  {
  }

  /** The parabola identity written out over the coordinates of the
      pointer `p` and the endpoints `e` and `f`. */
  lemma PlaneGap(px: real, py: real, ex: real, ey: real, fx: real, fy: real, s: real, t: real)
    ensures (ex + s * (fx - ex) - px) * (ex + s * (fx - ex) - px) + (ey + s * (fy - ey) - py) * (ey + s * (fy - ey) - py)
          - ((ex + t * (fx - ex) - px) * (ex + t * (fx - ex) - px) + (ey + t * (fy - ey) - py) * (ey + t * (fy - ey) - py))
         == ((ex - fx) * (ex - fx) + (ey - fy) * (ey - fy)) * (s - t) * (s - t)
            + 2.0 * (s - t) * (((ex - fx) * (ex - fx) + (ey - fy) * (ey - fy)) * t
                               - ((px - ex) * (fx - ex) + (py - ey) * (fy - ey)))
  {
    CoordGap(px, ex, fx, s, t);
    CoordGap(py, ey, fy, s, t);
    Regroup((ex - fx) * (ex - fx), (ey - fy) * (ey - fy), (px - ex) * (fx - ex), (py - ey) * (fy - ey), s - t, t);
  }

  /** How much farther from `pos` the point at `s` is than the point at `t`:
      the squared distance along the segment is a parabola in the parameter. */
  lemma ParabolaGap(pos: Vec2, a: Vec2, b: Vec2, s: real, t: real)
    ensures DistSq(PointAt(a, b, s), pos) - DistSq(PointAt(a, b, t), pos)
         == DistSq(a, b) * (s - t) * (s - t)
            + 2.0 * (s - t) * (DistSq(a, b) * t - Dot(Sub(pos, a), Sub(b, a)))
  {
    PlaneGap(pos.x, pos.y, a.x, a.y, b.x, b.y, s, t);
  }

  /** Scalar core of the nearest-point argument: the parabola
      l*(s-t)^2 + 2*(s-t)*(l*t - w) with t the clamp of its free minimum
      w/l is never negative on [lo, hi]. */
  lemma ClampedMinimum(l: real, w: real, lo: real, hi: real, s: real)
    requires l > 0.0 && lo <= s <= hi
    ensures var t := Clamp(w / l, lo, hi);
      l * (s - t) * (s - t) + 2.0 * (s - t) * (l * t - w) >= 0.0
  {
    var t0 := w / l;
    var t := Clamp(t0, lo, hi);
    var d := s - t;
    var slope := l * t - w;
    assert l * t0 == w;
    assert slope == l * (t - t0);
    // the linear term never helps s: either t is the free minimum
    // (slope 0) or s lies on the side of t away from t0
    if t0 < lo {
      assert t - t0 > 0.0 && d >= 0.0;
      assert slope > 0.0;
      assert d * slope >= 0.0;
    } else if t0 > hi {
      assert t - t0 < 0.0 && d <= 0.0;
      assert slope < 0.0;
      assert d * slope >= 0.0;
    } else {
      assert slope == 0.0;
    }
    SquareSign(d);
    assert l * d * d == l * (d * d);
    assert l * (d * d) >= 0.0;
  }

  /** The clamped projection is the point of the clamped sub-segment
      [clamp/2, 1 - clamp/2] nearest to `pos`: the result is attained there
      and no point of the sub-segment is closer. */
  lemma SegmentDistIsNearest(pos: Vec2, a: Vec2, b: Vec2, clamp: real)
    requires clamp <= 1.0
    requires DistSq(a, b) != 0.0
    ensures Lo(clamp) <= ProjectionParam(pos, a, b, clamp) <= Hi(clamp)
    ensures SegmentDistSq(pos, a, b, clamp)
         == DistSq(PointAt(a, b, ProjectionParam(pos, a, b, clamp)), pos)
    ensures forall s :: Lo(clamp) <= s <= Hi(clamp) ==>
              SegmentDistSq(pos, a, b, clamp) <= DistSq(PointAt(a, b, s), pos)
  {
    var l := DistSq(a, b);
    var w := Dot(Sub(pos, a), Sub(b, a));
    var t := ProjectionParam(pos, a, b, clamp);
    forall s | Lo(clamp) <= s <= Hi(clamp)
      ensures DistSq(PointAt(a, b, t), pos) <= DistSq(PointAt(a, b, s), pos)
    {
      ParabolaGap(pos, a, b, s, t);
      ClampedMinimum(l, w, Lo(clamp), Hi(clamp), s);
    }
  }

  lemma OffsetNonzero(base: real, d: real, t: real)
    requires d != 0.0 && t != 0.0
    ensures base + t * d != base
  {
  }

  /** With a positive clamp the projected point is never an endpoint; with
      the caller's clamp of 0.5 the parameter lies in [0.25, 0.75]. */
  lemma ProjectionAvoidsEndpoints(pos: Vec2, a: Vec2, b: Vec2, clamp: real)
    requires 0.0 < clamp <= 1.0
    requires DistSq(a, b) != 0.0
    ensures PointAt(a, b, ProjectionParam(pos, a, b, clamp)) != a
    ensures PointAt(a, b, ProjectionParam(pos, a, b, clamp)) != b
    ensures clamp == 0.5 ==> 0.25 <= ProjectionParam(pos, a, b, clamp) <= 0.75
  {
    var t := ProjectionParam(pos, a, b, clamp);
    var d := Sub(b, a);
    assert d.x != 0.0 || d.y != 0.0;
    assert 0.0 < t < 1.0;
    var p := PointAt(a, b, t);
    if d.x != 0.0 {
      OffsetNonzero(a.x, d.x, t);
      OffsetNonzero(a.x, d.x, t - 1.0);
      assert p.x == a.x + t * d.x;
      assert b.x == a.x + 1.0 * d.x;
    } else {
      OffsetNonzero(a.y, d.y, t);
      OffsetNonzero(a.y, d.y, t - 1.0);
      assert p.y == a.y + t * d.y;
      assert b.y == a.y + 1.0 * d.y;
    }
  }
}
