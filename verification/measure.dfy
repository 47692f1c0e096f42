/** What the host's trigonometry and square root must satisfy to agree
    with the interest points it measures. The per-point measurements
    `dotcenter`, `d` and `f` are computed here from the points with the
    host's square root, as `normalize` and `dist` compute them; the gate
    angles and the axis direction come from `angleBetween` and `atan2`,
    which are constrained only where they take an exact value. */
module Measure {
  import opened Basics
  import opened Geometry
  import opened Extraction
  import opened Voting
  import opened Scoring
  import opened Detection
  import opened Session

  function Dot(u: Vec, v: Vec): real
  {
    u.x * v.x + u.y * v.y
  }

  /** `u` and `v` are parallel, non-zero and point the same way. */
  predicate SameWay(u: Vec, v: Vec)
  {
    Cross(u, v) == 0.0 && Dot(u, v) > 0.0
  }

  /** `u` and `v` are parallel, non-zero and point opposite ways. */
  predicate OppositeWay(u: Vec, v: Vec)
  {
    Cross(u, v) == 0.0 && Dot(u, v) < 0.0
  }

  /** `abs(p5.Vector.angleBetween(u, v))`: between 0 and `PI`, exactly 0
      for vectors that point the same way and `PI` for opposite ones. */
  predicate AngleAgrees(t: real, u: Vec, v: Vec)
  {
    && 0.0 <= t <= PI
    && (SameWay(u, v) ==> t == 0.0)
    && (OppositeWay(u, v) ==> t == PI)
  }

  /** `atan2(u.y, u.x)`: in `(-PI, PI]`, 0 along the positive x axis and
      `PI` along the negative one. */
  predicate DirectionAgrees(t: real, u: Vec)
  {
    && -PI < t <= PI
    && (u.y == 0.0 && u.x > 0.0 ==> t == 0.0)
    && (u.y == 0.0 && u.x < 0.0 ==> t == PI)
  }

  /** p5 `mag`. */
  function Magnitude(u: Vec, sqrt: real -> real): real
  {
    sqrt(Dot(u, u))
  }

  /** p5 `normalize`: scales to length 1, and leaves a vector of length 0
      as it is. */
  function Normalize(u: Vec, sqrt: real -> real): Vec
  {
    var n := Magnitude(u, sqrt);
    if n == 0.0 then u else Scale(u, 1.0 / n)
  }

  /** `p5.Vector.dist`. */
  function Distance(u: Vec, v: Vec, sqrt: real -> real): real
  {
    sqrt(SqDist(u, v))
  }

  /** The measurement of interest point `q` against the axis `(e1, e2)`:
      `dotcenter` from the unit vector towards the centre and the unit
      gradient, `d` the distance to the centre, `f` the smaller of the
      distances to the two axis ends. */
  function MeasureOf(q: Ray, e1: Vec, e2: Vec, sqrt: real -> real): Measurement
  {
    var c := Midpoint(e1, e2);
    Measurement(
      Dot(Normalize(Sub(c, q.pos), sqrt), Normalize(q.dir, sqrt)),
      Distance(q.pos, c, sqrt),
      Min(Distance(q.pos, e1, sqrt), Distance(q.pos, e2, sqrt)))
  }

  /** The host's square root agrees with the real one: it is non-negative
      on non-negative arguments, positive on positive ones, and gives back
      `r` for `r^2`. */
  ghost predicate SqrtAgrees(sqrt: real -> real)
  {
    && (forall x :: 0.0 <= x ==> 0.0 <= sqrt(x))
    && (forall x :: 0.0 < x ==> 0.0 < sqrt(x))
    && (forall r :: 0.0 <= r ==> sqrt(Sq(r)) == r)
  }

  /** Everything the host measures for the pair `(p1, p2)` of `poi` agrees
      with the points: the four gate angles, the axis direction, and every
      point's measurement. */
  predicate PairAgrees(poi: seq<Ray>, p1: nat, p2: nat, g: PairGeometry, sqrt: real -> real)
    requires p1 < |poi| && p2 < |poi|
  {
    var u := Sub(poi[p2].pos, poi[p1].pos);
    var w := Sub(poi[p1].pos, poi[p2].pos);
    && AngleAgrees(g.a211, u, poi[p1].dir) && AngleAgrees(g.a121, w, poi[p1].dir)
    && AngleAgrees(g.a212, u, poi[p2].dir) && AngleAgrees(g.a122, w, poi[p2].dir)
    && DirectionAgrees(g.alpha, u)
    && forall p {:trigger g.probe(p)} :: 0 <= p < |poi| ==> g.probe(p) == MeasureOf(poi[p], poi[p1].pos, poi[p2].pos, sqrt)
  }

  /** The host measures a view faithfully: its square root agrees with the
      real one, and for every pair of the view's interest points its
      measurements agree with the points' positions and gradients. */
  ghost predicate Measured(h: Host, mars: bool)
  {
    && HostOk(h) && SqrtAgrees(h.sqrt)
    && var x := Extract(h, mars);
    forall p1: nat, p2: nat :: p1 < |x| && p2 < |x| ==> PairAgrees(x, p1, p2, h.geometry(x, p1, p2), h.sqrt)
  }

  /** With a square root that agrees with the real one, a measurement is a
      valid `Probe`: a point that faces the centre lies away from it,
      because a point at the centre has no direction towards it. */
  lemma MeasuredProbe(q: Ray, e1: Vec, e2: Vec, sqrt: real -> real)
    requires SqrtAgrees(sqrt)
    ensures var m := MeasureOf(q, e1, e2, sqrt);
      m.dotCenter >= Cos45 ==> m.d > 0.0
  {
    var c := Midpoint(e1, e2);
    var s := SqDist(q.pos, c);
    if s == 0.0 {
      AtCentre(q, c, sqrt);
    } else {
      assert MeasureOf(q, e1, e2, sqrt).d == sqrt(s) > 0.0;
    }
  }

  /** A point at the centre has no direction towards it: `dotcenter` 0. */
  lemma AtCentre(q: Ray, c: Vec, sqrt: real -> real)
    requires SqrtAgrees(sqrt) && SqDist(q.pos, c) == 0.0
    ensures Dot(Normalize(Sub(c, q.pos), sqrt), Normalize(q.dir, sqrt)) == 0.0
  {
    SquaresVanish(q.pos.x - c.x, q.pos.y - c.y);
    assert sqrt(Sq(0.0)) == 0.0;
    ZeroNormal(Sub(c, q.pos), Normalize(q.dir, sqrt), sqrt);
  }

  /** `normalize` leaves the zero vector zero. */
  lemma ZeroNormal(u: Vec, v: Vec, sqrt: real -> real)
    requires sqrt(0.0) == 0.0 && u == Vec(0.0, 0.0)
    ensures Dot(Normalize(u, sqrt), v) == 0.0
  {
    assert Dot(u, u) == 0.0;
  }

  lemma SquaresVanish(x: real, y: real)
    requires Sq(x) + Sq(y) == 0.0
    ensures x == 0.0 && y == 0.0
  {
    ProductZero(x, x);
    ProductZero(y, y);
  }

  /** An angle the host could report: 0 for vectors pointing the same way,
      `PI` for opposite ones, and 0 otherwise. */
  function AngleOf(u: Vec, v: Vec): (t: real)
    ensures AngleAgrees(t, u, v)
  {
    if OppositeWay(u, v) then PI else 0.0
  }

  /** A direction the host could report: `PI` along the negative x axis and
      0 otherwise. */
  function DirectionOf(u: Vec): (t: real)
    ensures DirectionAgrees(t, u)
  {
    if u.y == 0.0 && u.x < 0.0 then PI else 0.0
  }

  /** `MeasureOf` as a `Probe`; the zero measurement where it is not one,
      which a square root that agrees with the real one never gives. */
  function ProbeOf(q: Ray, e1: Vec, e2: Vec, sqrt: real -> real): Probe
  {
    var m := MeasureOf(q, e1, e2, sqrt);
    if m.dotCenter >= Cos45 ==> m.d > 0.0 then m else Measurement(0.0, 0.0, 0.0)
  }

  /** Host trigonometry built from `AngleOf`, `DirectionOf` and `MeasureOf`. */
  function GeometryOf(sqrt: real -> real): (seq<Ray>, nat, nat) -> PairGeometry
  {
    (poi: seq<Ray>, p1: nat, p2: nat) =>
      if p1 < |poi| && p2 < |poi| then
        var u := Sub(poi[p2].pos, poi[p1].pos);
        var w := Sub(poi[p1].pos, poi[p2].pos);
        var e1, e2 := poi[p1].pos, poi[p2].pos;
        PairGeometry(
          AngleOf(u, poi[p1].dir), AngleOf(w, poi[p1].dir),
          AngleOf(u, poi[p2].dir), AngleOf(w, poi[p2].dir),
          DirectionOf(u),
          (p: nat) => if p < |poi| then ProbeOf(poi[p], e1, e2, sqrt) else Measurement(0.0, 0.0, 0.0))
      else PairGeometry(0.0, 0.0, 0.0, 0.0, 0.0, p => Measurement(0.0, 0.0, 0.0))
  }

  /** A square root: the non-negative root where one exists. */
  ghost function RootOf(x: real): real
  {
    if exists r :: 0.0 <= r && Sq(r) == x then
      var r :| 0.0 <= r && Sq(r) == x; r
    else if 0.0 < x then 1.0 else 0.0
  }

  lemma RootOfAgrees()
    ensures SqrtAgrees(RootOf)
  {
    forall r | 0.0 <= r
      ensures RootOf(Sq(r)) == r
    {
      var s := RootOf(Sq(r));
      assert 0.0 <= s && Sq(s) == Sq(r);
      RootOfSquare(s, r);
    }
    forall x | 0.0 < x
      ensures 0.0 < RootOf(x)
    {
      if exists r :: 0.0 <= r && Sq(r) == x {
        var s := RootOf(x);
        assert Sq(s) == x;
      }
    }
  }

  /** Faithful measurement is no vacuous demand: every host whose draws stay
      in range and whose geometry is `GeometryOf(RootOf)` measures every
      view faithfully. */
  lemma GeometryOfMeasures(gradient: Image, samples: seq<Vec>, pick: nat -> nat, mars: bool)
    requires forall k: nat :: pick(k) <= k
    ensures Measured(Host(gradient, samples, pick, GeometryOf(RootOf), RootOf), mars)
  {
    var h := Host(gradient, samples, pick, GeometryOf(RootOf), RootOf);
    RootOfAgrees();
    var x := Extract(h, mars);
    forall p1: nat, p2: nat | p1 < |x| && p2 < |x|
      ensures PairAgrees(x, p1, p2, h.geometry(x, p1, p2), h.sqrt)
    {
      GeometryAgrees(x, p1, p2, RootOf);
    }
  }

  /** With a square root that agrees with the real one, `GeometryOf`
      measures every pair faithfully. */
  lemma GeometryAgrees(poi: seq<Ray>, p1: nat, p2: nat, sqrt: real -> real)
    requires p1 < |poi| && p2 < |poi| && SqrtAgrees(sqrt)
    ensures PairAgrees(poi, p1, p2, GeometryOf(sqrt)(poi, p1, p2), sqrt)
  {
    forall p | 0 <= p < |poi|
      ensures GeometryOf(sqrt)(poi, p1, p2).probe(p) == MeasureOf(poi[p], poi[p1].pos, poi[p2].pos, sqrt)
    {
      MeasuredProbe(poi[p], poi[p1].pos, poi[p2].pos, sqrt);
    }
  }

  /** A non-negative number is the only non-negative root of its square. */
  lemma RootOfSquare(r: real, t: real)
    requires 0.0 <= r && 0.0 <= t && Sq(r) == Sq(t)
    ensures r == t
  {
    assert (r - t) * (r + t) == r * r - t * t;
    ProductZero(r - t, r + t);
  }

  lemma ProductZero(x: real, y: real)
    requires x * y == 0.0
    ensures x == 0.0 || y == 0.0
  {
    if x != 0.0 {
      assert y == x * y / x;
    }
  }

  lemma MulPositive(x: real, y: real)
    requires x > 0.0 && y > 0.0
    ensures Mul(x, y) > 0.0
  {
  }

  /** Two horizontal vectors whose x components have the same sign point
      the same way. */
  lemma HorizontalSameWay(u: Vec, v: Vec)
    requires u.y == 0.0 && v.y == 0.0
    requires (u.x > 0.0 && v.x > 0.0) || (u.x < 0.0 && v.x < 0.0)
    ensures SameWay(u, v)
  {
    if u.x < 0.0 {
      MulPositive(-u.x, -v.x);
      assert Mul(-u.x, -v.x) == u.x * v.x;
    } else {
      MulPositive(u.x, v.x);
    }
  }
}
