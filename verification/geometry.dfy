/** Plane vectors and the `Ray` record: a position plus a direction, used
    both for interest points and for line-line intersection. */
module Geometry {

  datatype Vec = Vec(x: real, y: real)

  function Add(u: Vec, v: Vec): Vec
  {
    Vec(u.x + v.x, u.y + v.y)
  }

  function Sub(u: Vec, v: Vec): Vec
  {
    Vec(u.x - v.x, u.y - v.y)
  }

  function Scale(v: Vec, t: real): Vec
  {
    Vec(v.x * t, v.y * t)
  }

  /** z-component of the cross product; zero exactly when `u` and `v` are parallel. */
  function Cross(u: Vec, v: Vec): real
  {
    u.x * v.y - u.y * v.x
  }

  /** `p5.Vector.div(p5.Vector.add(u, v), 2)`. */
  function Midpoint(u: Vec, v: Vec): (m: Vec)
    ensures Sub(m, u) == Sub(v, m)
  {
    Vec((u.x + v.x) / 2.0, (u.y + v.y) / 2.0)
  }

  /** A line piece through `pos` along `dir`. `infinite`: it extends past
      `pos + dir`; `bidirectional`: it also extends behind `pos`. */
  datatype Ray = Ray(pos: Vec, dir: Vec, infinite: bool, bidirectional: bool)

  /** The point at parameter `t` along the ray: `pos + t * dir`. */
  function PointAt(r: Ray, t: real): (p: Vec)
    ensures Cross(Sub(p, r.pos), r.dir) == 0.0
    ensures t == 0.0 ==> p == r.pos
    ensures t == 1.0 ==> p == Add(r.pos, r.dir)
  {
    Add(Scale(r.dir, t), r.pos)
  }

  /** `q` lies on the (infinite, two-sided) line carrying `r`. */
  ghost predicate OnLine(q: Vec, r: Ray)
  {
    Cross(Sub(q, r.pos), r.dir) == 0.0
  }

  /** Parameter `t` lies within the extent of the ray. */
  predicate WithinExtent(r: Ray, t: real)
  {
    (t >= 0.0 || r.bidirectional) && (t <= 1.0 || r.infinite)
  }

  /** Parameter along `self` at which it meets the line of `other`, or the
      sentinel -1 when the lines are parallel or the crossing lies outside
      `self`'s extent. The numerator and denominator are the two-point form
      of the line-line intersection. */
  function DistanceTo(self: Ray, other: Ray): (t: real)
    ensures Cross(self.dir, other.dir) == 0.0 ==> t == -1.0
    ensures t != -1.0 ==> OnLine(PointAt(self, t), other) && WithinExtent(self, t)
    ensures Cross(self.dir, other.dir) != 0.0 ==>
      forall s :: OnLine(PointAt(self, s), other) && WithinExtent(self, s) ==> t == s
  {
    var p1 := Add(self.pos, self.dir);
    var p2 := Add(other.pos, other.dir);
    var num := (self.pos.x - other.pos.x) * (other.pos.y - p2.y)
             - (self.pos.y - other.pos.y) * (other.pos.x - p2.x);
    var denom := (self.pos.x - p1.x) * (other.pos.y - p2.y)
               - (self.pos.y - p1.y) * (other.pos.x - p2.x);
    CrossingParameter(self, other, num, denom);
    if denom == 0.0 then -1.0
    else
      var t := num / denom;
      assert t * denom == num;
      OnlyCrossing(self, other, t);
      if t < 0.0 && !self.bidirectional then -1.0
      else if t > 1.0 && !self.infinite then -1.0
      else t
  }

  /** The intersection algebra: the two-point denominator is the cross product
      of the directions, and the point at `s` along `self` is on `other`'s
      line exactly when `s * denom == num`, so a non-zero denominator fixes
      `s`. */
  lemma CrossingParameter(self: Ray, other: Ray, num: real, denom: real)
    requires num == (self.pos.x - other.pos.x) * (other.pos.y - Add(other.pos, other.dir).y)
                  - (self.pos.y - other.pos.y) * (other.pos.x - Add(other.pos, other.dir).x)
    requires denom == (self.pos.x - Add(self.pos, self.dir).x) * (other.pos.y - Add(other.pos, other.dir).y)
                    - (self.pos.y - Add(self.pos, self.dir).y) * (other.pos.x - Add(other.pos, other.dir).x)
    ensures denom == Cross(self.dir, other.dir)
    ensures forall s {:trigger PointAt(self, s)} :: OnLine(PointAt(self, s), other) <==> s * denom == num
  {
    var D := Cross(self.dir, other.dir);
    var E := Cross(Sub(self.pos, other.pos), other.dir);
    assert num == -E;
    assert denom == D;
    forall s
      ensures OnLine(PointAt(self, s), other) <==> s * denom == num
    {
      var q := PointAt(self, s);
      assert Cross(Sub(q, other.pos), other.dir) == s * D + E;
    }
  }

  /** A non-parallel pair of lines crosses at exactly one parameter along `self`. */
  lemma OnlyCrossing(self: Ray, other: Ray, t: real)
    requires Cross(self.dir, other.dir) != 0.0
    requires OnLine(PointAt(self, t), other)
    ensures forall s {:trigger PointAt(self, s)} :: OnLine(PointAt(self, s), other) ==> s == t
  {
    var D := Cross(self.dir, other.dir);
    var E := Cross(Sub(self.pos, other.pos), other.dir);
    forall s | OnLine(PointAt(self, s), other)
      ensures s == t
    {
      assert Cross(Sub(PointAt(self, s), other.pos), other.dir) == s * D + E;
      assert Cross(Sub(PointAt(self, t), other.pos), other.dir) == t * D + E;
      assert (s - t) * D == 0.0;
    }
  }
}
