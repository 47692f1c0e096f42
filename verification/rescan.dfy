/** A concrete view on which the detector as written never stops. Twelve
    interest points sit in a row, on a 12 x 1 gradient image whose left
    half has gradients pointing right and whose right half has gradients
    pointing left. The shuffle's draws bring the two row ends to the front
    of the working list. For any host whose trigonometry and square root
    agree with the points, the pair `(0, 1)` proposes the whole row as
    major axis. Every other point faces the centre and votes the semi-minor
    estimate 0, so the resulting ellipse takes the whole working list. The
    rescan of the empty list then finds it again on every second frame. */
module Rescan {
  import opened Basics
  import opened Geometry
  import opened Extraction
  import opened Hypothesis
  import opened Voting
  import opened Scoring
  import opened Registry
  import opened Detection
  import opened Scan
  import opened Session
  import opened Measure

  /** Red byte of pixel `i`: 255 on the left half, 0 on the right. */
  function Red(i: int): Byte
  {
    if i < 6 then 255 else 0
  }

  /** The 12 x 1 gradient image. Every pixel has blue byte 128, so a zero
      vertical gradient, and the red byte `Red(i)`. */
  function Edge(): Image
  {
    Image(12, 1, seq(48, k => if k % 4 == 0 then Red(k / 4) else 128 as Byte))
  }

  /** The gradient decoded on the left half of the image, from red byte 255. */
  const Rightward: Vec := Vec(127.0 / 128.0, 0.0)
  /** The gradient decoded on the right half, from red byte 0. */
  const Leftward: Vec := Vec(-1.0, 0.0)

  /** One sample at each pixel of the row. */
  function Row(): seq<Vec>
  {
    seq(12, i => Vec(i as real, 0.0))
  }

  /** The interest point at pixel `i` of the row. */
  function Pt(i: int): Ray
  {
    Ray(Vec(i as real, 0.0), if i < 6 then Rightward else Leftward, false, false)
  }

  /** The kept points in sampling order. */
  function Line(): seq<Ray>
  {
    seq(12, i => Pt(i))
  }

  /** The shuffle's draws: index 11 draws 1 and every other index draws
      itself. */
  function Pick(k: nat): nat
  {
    if k == 11 then 1 else k
  }

  /** The working list the draws give: the row with its second and last
      points exchanged, so that the two row ends come first. */
  function Points(): seq<Ray>
  {
    Swap(Line(), 11, 1)
  }

  /** The witness view: its image, samples and draws are fixed, and its
      trigonometry `g` and square root `sqrt` are whatever the host
      computes. */
  function View(g: (seq<Ray>, nat, nat) -> PairGeometry, sqrt: real -> real): Host
  {
    Host(Edge(), Row(), Pick, g, sqrt)
  }

  /** Pixel `i` decodes to the gradient of its point, which passes the
      Mars threshold. */
  lemma PixelGradient(i: int)
    requires 0 <= i < 12
    ensures GradientAt(Edge(), i, 0) == Some(Pt(i).dir)
    ensures Kept(Edge(), Row()[i], true)
  {
    var img := Edge();
    assert Offset(12, i, 0) == 4 * i;
    assert img.pixels[4 * i] == Red(i);
    assert img.pixels[4 * i + 2] == 128;
    assert Row()[i].x.Floor == i && Row()[i].y.Floor == 0;
  }

  /** The sample at pixel `i` gives the point of pixel `i`. */
  lemma SampleKept(i: int)
    requires 0 <= i < 12
    ensures Select(Edge(), [Row()[i]], true) == [Pt(i)]
  {
    PixelGradient(i);
    assert PointFrom(Edge(), Row()[i]) == Pt(i);
  }

  /** Samples each of which gives its own point give those points, in
      order. */
  lemma {:induction false} SelectEach(img: Image, xs: seq<Vec>, ys: seq<Ray>)
    requires |xs| == |ys|
    requires forall i :: 0 <= i < |xs| ==> Select(img, [xs[i]], true) == [ys[i]]
    ensures Select(img, xs, true) == ys
    decreases |xs|
  {
    if |xs| > 0 {
      var n := |xs| - 1;
      forall i | 0 <= i < n
        ensures Select(img, [xs[..n][i]], true) == [ys[..n][i]]
      {
        assert xs[..n][i] == xs[i] && ys[..n][i] == ys[i];
      }
      SelectEach(img, xs[..n], ys[..n]);
      Snoc(xs);
      Snoc(ys);
      SelectLast(img, xs[..n], xs[n], ys[..n], ys[n]);
    }
  }

  lemma Snoc<T>(s: seq<T>)
    requires |s| > 0
    ensures s == s[..|s| - 1] + [s[|s| - 1]]
  {
  }

  lemma SelectLast(img: Image, us: seq<Vec>, u: Vec, vs: seq<Ray>, v: Ray)
    requires Select(img, us, true) == vs && Select(img, [u], true) == [v]
    ensures Select(img, us + [u], true) == vs + [v]
  {
    SelectAppend(img, us, [u], true);
  }

  /** Draws that pick their own index swap nothing. */
  lemma {:induction false} FixedDraws(a: seq<Ray>, i: int)
    requires -1 <= i < |a| && i <= 10
    ensures ShuffleDown(a, i, Pick) == a
    decreases i
  {
    if i > 0 {
      assert Swap(a, i, Pick(i)) == a;
      FixedDraws(a, i - 1);
    }
  }

  /** Every sample is kept, in sampling order. */
  lemma RowKept()
    ensures Select(Edge(), Row(), true) == Line()
  {
    forall i | 0 <= i < 12
      ensures Select(Edge(), [Row()[i]], true) == [Line()[i]]
    {
      SampleKept(i);
    }
    SelectEach(Edge(), Row(), Line());
  }

  /** The draws exchange the second and last points and nothing else. */
  lemma Shuffled()
    ensures Shuffle(Line(), Pick) == Points()
  {
    assert ShuffleDown(Line(), 11, Pick) == ShuffleDown(Points(), 10, Pick);
    FixedDraws(Points(), 10);
  }

  /** Whatever the host's trigonometry, the view's interest points are
      `Points()`. */
  lemma ViewPoints(g: (seq<Ray>, nat, nat) -> PairGeometry, sqrt: real -> real)
    requires forall x :: 0.0 <= x ==> 0.0 <= sqrt(x)
    ensures HostOk(View(g, sqrt))
    ensures Extract(View(g, sqrt), true) == Points()
  {
    assert HostOk(View(g, sqrt));
    FoundRow();
  }

  lemma FoundRow()
    ensures FindPoi(Edge(), Row(), true, Pick) == Points()
  {
    RowKept();
    Shuffled();
  }

  /** The pixel whose point sits at index `p` of the working list. */
  function Slot(p: int): int
  {
    if p == 1 then 11 else if p == 11 then 1 else p
  }

  lemma PointsAt(p: int)
    requires 0 <= p < 12
    ensures Points()[p] == Pt(Slot(p))
  {
  }

  /** The centre of the axis from pixel 0 to pixel 11. */
  const Centre: Vec := Vec(5.5, 0.0)

  lemma CentreIsMidpoint()
    ensures Midpoint(Pt(0).pos, Pt(11).pos) == Centre
  {
  }

  /** A row point strictly between pixel 0 and pixel 11 and off the
      centre `(5.5, 0)`, whose gradient points towards the centre. */
  predicate Inside(q: Ray)
  {
    && q.pos.y == 0.0
    && ((0.0 < q.pos.x < 5.5 && q.dir == Rightward) || (5.5 < q.pos.x < 11.0 && q.dir == Leftward))
  }

  /** `normalize` takes a non-zero horizontal vector to the unit vector
      pointing the same way. */
  lemma UnitHorizontal(u: Vec, sqrt: real -> real)
    requires SqrtAgrees(sqrt) && u.y == 0.0 && u.x != 0.0
    ensures Normalize(u, sqrt) == Vec(if u.x > 0.0 then 1.0 else -1.0, 0.0)
  {
    var t := Abs(u.x);
    assert Dot(u, u) == Sq(t);
    assert Magnitude(u, sqrt) == t;
  }

  /** An inside point faces the centre head on: `dotcenter` is 1. */
  lemma InsideFacing(q: Ray, sqrt: real -> real)
    requires Inside(q) && SqrtAgrees(sqrt)
    ensures Dot(Normalize(Sub(Centre, q.pos), sqrt), Normalize(q.dir, sqrt)) == 1.0
  {
    UnitHorizontal(Sub(Centre, q.pos), sqrt);
    UnitHorizontal(q.dir, sqrt);
  }

  /** An inside point lies `|x - 5.5|` from the centre. */
  lemma InsideCentre(q: Ray, sqrt: real -> real)
    requires Inside(q) && SqrtAgrees(sqrt)
    ensures Distance(q.pos, Centre, sqrt) == Abs(q.pos.x - 5.5)
    ensures 0.0 < Abs(q.pos.x - 5.5) < 5.5
  {
    assert SqDist(q.pos, Centre) == Sq(Abs(q.pos.x - 5.5));
  }

  /** An inside point lies the rest of the semimajor 5.5 from the nearer
      end. */
  lemma InsideEnds(q: Ray, sqrt: real -> real)
    requires Inside(q) && SqrtAgrees(sqrt)
    ensures Min(Distance(q.pos, Pt(0).pos, sqrt), Distance(q.pos, Pt(11).pos, sqrt)) == 5.5 - Abs(q.pos.x - 5.5)
  {
    var x := q.pos.x;
    assert SqDist(q.pos, Pt(0).pos) == Sq(x);
    assert SqDist(q.pos, Pt(11).pos) == Sq(11.0 - x);
  }

  /** The measurement of an inside point against the axis from pixel 0 to
      pixel 11: it faces the centre, lies less than the semimajor 5.5 from
      it, and lies the rest of the semimajor from the nearer end. */
  lemma InsideMeasure(m: Measurement, q: Ray, e1: Vec, e2: Vec, sqrt: real -> real)
    requires Inside(q) && SqrtAgrees(sqrt)
    requires e1 == Pt(0).pos && e2 == Pt(11).pos && m == MeasureOf(q, e1, e2, sqrt)
    ensures m.dotCenter == 1.0
    ensures m.d == Abs(q.pos.x - 5.5) && 0.0 < m.d < 5.5
    ensures m.f == 5.5 - m.d
  {
    CentreIsMidpoint();
    InsideFacing(q, sqrt);
    InsideCentre(q, sqrt);
    InsideEnds(q, sqrt);
  }

  /** A point on the axis, whose distance to the nearer end is what its
      distance to the centre leaves of the semimajor, has `cos^2 tau` 1. */
  lemma CollinearCosine(a: real, d: real)
    requires 0.0 < d < a
    ensures CosTauSq(a, d, a - d) == 1.0
  {
    var n := 2.0 * a * d;
    assert Sq(a) + Sq(d) - Sq(a - d) == n;
    MulPositive(2.0 * a, d);
    assert n / n == 1.0;
    assert Sq(1.0) == 1.0;
  }

  /** Such a point strictly inside the ellipse votes the semi-minor
      estimate 0. */
  lemma CollinearEstimate(a: real, d: real, sqrt: real -> real)
    requires 0.0 < d < a && SqrtAgrees(sqrt)
    ensures Semiminor(a, d, a - d, sqrt) == Finite(0.0)
  {
    CollinearCosine(a, d);
    DenominatorVanishes(a, d, 1.0);
    ZeroEstimate(a * a * (d * d), Denominator(a, d, 1.0), sqrt);
  }

  lemma ZeroEstimate(n: real, q: real, sqrt: real -> real)
    requires SqrtAgrees(sqrt) && q != 0.0
    ensures sqrt(Abs(n * (1.0 - 1.0) / q)) == 0.0
  {
    assert Abs(n * (1.0 - 1.0) / q) == Sq(0.0);
  }

  /** What the pair `(0, 1)` needs to know of a working list: twelve
      points, the two row ends first, and an inside point at every later
      index. */
  predicate Arranged(x: seq<Ray>)
  {
    && |x| == 12 && x[0] == Pt(0) && x[1] == Pt(11)
    && forall p :: 2 <= p < 12 ==> Inside(x[p])
  }

  lemma PointsArranged()
    ensures Arranged(Points())
  {
    forall p | 2 <= p < 12
      ensures Inside(Points()[p])
    {
      PointsAt(p);
    }
    PointsAt(0);
    PointsAt(1);
  }

  /** The two row ends pass the major-axis gate: both gradients lie along
      the segment between them, which runs along the x axis. */
  lemma EndsPassGate(x: seq<Ray>, g: PairGeometry, sqrt: real -> real)
    requires Arranged(x) && PairAgrees(x, 0, 1, g, sqrt)
    ensures AxisGate(g.a211, g.a121, g.a212, g.a122)
    ensures g.alpha == 0.0
  {
    AlongAxis(g.a211, Sub(x[1].pos, x[0].pos), x[0].dir);
    AlongAxis(g.a122, Sub(x[0].pos, x[1].pos), x[1].dir);
    FacingEnds(g.a211, g.a121, g.a212, g.a122);
  }

  lemma FacingEnds(a211: real, a121: real, a212: real, a122: real)
    requires a211 == 0.0 && a122 == 0.0
    ensures AxisGate(a211, a121, a212, a122)
  {
  }

  /** The angle between two horizontal vectors pointing the same way is 0. */
  lemma AlongAxis(t: real, u: Vec, v: Vec)
    requires AngleAgrees(t, u, v) && u.y == 0.0 && v.y == 0.0
    requires (u.x > 0.0 && v.x > 0.0) || (u.x < 0.0 && v.x < 0.0)
    ensures t == 0.0
  {
    HorizontalSameWay(u, v);
  }

  /** The row ends are 11 apart, so the semimajor is 5.5. */
  lemma EndsSemimajor(sqrt: real -> real)
    requires SqrtAgrees(sqrt)
    ensures Semimajor(Pt(0).pos, Pt(11).pos, sqrt) == 5.5
  {
    assert SqDist(Pt(0).pos, Pt(11).pos) == Sq(11.0);
  }

  /** Every point other than the two ends votes, with the estimate 0. */
  predicate RowVotes(probe: nat -> Probe, sqrt: real -> real)
    requires forall x :: 0.0 <= x ==> 0.0 <= sqrt(x)
  {
    forall p :: 2 <= p < 12 ==>
      && Votes(5.5, probe(p), p, 0, 1)
      && Semiminor(5.5, probe(p).d, probe(p).f, sqrt) == Finite(0.0)
  }

  lemma AxisVotes(x: seq<Ray>, g: PairGeometry, sqrt: real -> real)
    requires Arranged(x) && PairAgrees(x, 0, 1, g, sqrt) && SqrtAgrees(sqrt)
    ensures RowVotes(g.probe, sqrt)
  {
    forall p | 2 <= p < 12
      ensures Votes(5.5, g.probe(p), p, 0, 1)
      ensures Semiminor(5.5, g.probe(p).d, g.probe(p).f, sqrt) == Finite(0.0)
    {
      ProbeVotes(x, g, sqrt, p);
    }
  }

  lemma ProbeVotes(x: seq<Ray>, g: PairGeometry, sqrt: real -> real, p: nat)
    requires Arranged(x) && PairAgrees(x, 0, 1, g, sqrt) && SqrtAgrees(sqrt) && 2 <= p < 12
    ensures Votes(5.5, g.probe(p), p, 0, 1)
    ensures Semiminor(5.5, g.probe(p).d, g.probe(p).f, sqrt) == Finite(0.0)
  {
    var m := g.probe(p);
    assert Inside(x[p]);
    assert m == MeasureOf(x[p], x[0].pos, x[1].pos, sqrt);
    InsideMeasure(m, x[p], x[0].pos, x[1].pos, sqrt);
    OnAxisVotes(m, p, sqrt);
  }

  /** A point other than the ends that faces the centre head on, lies
      inside the ellipse, and lies on the axis votes the estimate 0. */
  lemma OnAxisVotes(m: Probe, p: nat, sqrt: real -> real)
    requires 2 <= p && SqrtAgrees(sqrt)
    requires m.dotCenter == 1.0 && 0.0 < m.d < 5.5 && m.f == 5.5 - m.d
    ensures Votes(5.5, m, p, 0, 1)
    ensures Semiminor(5.5, m.d, m.f, sqrt) == Finite(0.0)
  {
    CollinearEstimate(5.5, m.d, sqrt);
  }

  /** Ten voters with the estimate 0 fill one bin of ten. */
  lemma RowBins(probe: nat -> Probe, sqrt: real -> real)
    requires SqrtAgrees(sqrt)
    requires RowVotes(probe, sqrt)
    ensures Accumulate(5.5, probe, 0, 1, sqrt, 12) == [Bin(Finite(0.0), 10, seq(10, i => i + 2))]
  {
    CommonEstimate(5.5, probe, 0, 1, sqrt, 12, 0.0);
    VoterRun(5.5, probe, 12);
  }

  /** When every point from 2 on votes, the voters of the pair `(0, 1)`
      are exactly those points, in order. */
  lemma {:induction false} VoterRun(a: real, probe: nat -> Probe, k: nat)
    requires 2 <= k
    requires forall p :: 2 <= p < k ==> Votes(a, probe(p), p, 0, 1)
    ensures Voters(a, probe, 0, 1, k) == seq(k - 2, i => i + 2)
    decreases k
  {
    if k == 2 {
      assert Voters(a, probe, 0, 1, 1) == Voters(a, probe, 0, 1, 0) == [];
    } else {
      VoterRun(a, probe, k - 1);
      assert seq(k - 2, i => i + 2) == seq(k - 3, i => i + 2) + [k - 1];
    }
  }

  /** One bin of ten votes with estimate 0 wins the decision for semimajor
      5.5: its score is at least `10 / (11 PI)`, above `BinThresh`. */
  lemma TenVotesAccepted(v: seq<nat>)
    ensures Decide(5.5, [Bin(Finite(0.0), 10, v)]) == Accept(0)
  {
    var bins := [Bin(Finite(0.0), 10, v)];
    CircumferenceAtMost(5.5, 0.0);
    var c := Circumference(5.5, 0.0);
    var s := ScoreOf(5.5, bins[0]);
    assert s * c == 10.0;
    MulMonotone(s, c, 11.0 * PI);
    assert s > BinThresh;
    var scores := Scores(5.5, bins);
    assert scores == [Num(s)];
    assert MaxScore(scores) == Some(s);
  }

  /** On a host whose measurements of the pair `(0, 1)` agree with the
      points, that pair finds the degenerate ellipse along the whole row:
      centre `(5.5, 0)`, major axis 11, minor axis 0, angle 0. Its ten
      voters and the two ends are all twelve points, so nothing is left. */
  lemma PairTakesAll(x: seq<Ray>, g: PairGeometry, sqrt: real -> real)
    requires Arranged(x) && PairAgrees(x, 0, 1, g, sqrt) && SqrtAgrees(sqrt)
    ensures WholeOf(PairStep(x, 0, 1, g, sqrt), x)
  {
    EndsPassGate(x, g, sqrt);
    AxisVotes(x, g, sqrt);
    VotedTakesAll(x, g, sqrt);
  }

  /** The same, from the gate and the votes alone. */
  lemma VotedTakesAll(x: seq<Ray>, g: PairGeometry, sqrt: real -> real)
    requires |x| == 12 && x[0] == Pt(0) && x[1] == Pt(11) && SqrtAgrees(sqrt)
    requires AxisGate(g.a211, g.a121, g.a212, g.a122) && g.alpha == 0.0
    requires RowVotes(g.probe, sqrt)
    ensures WholeOf(PairStep(x, 0, 1, g, sqrt), x)
  {
    CentreIsMidpoint();
    AxisBins(x, g, sqrt);
    TenVotesAccepted(Tail());
    FoundShape(x, g, sqrt);
    FoundWhole(x, g, sqrt);
  }

  /** The voters of the pair `(0, 1)`: every point from 2 on. */
  function Tail(): seq<nat>
  {
    seq(10, i => i + 2)
  }

  /** The pair `(0, 1)` has semimajor 5.5 and one bin of ten votes. */
  lemma AxisBins(x: seq<Ray>, g: PairGeometry, sqrt: real -> real)
    requires |x| == 12 && x[0] == Pt(0) && x[1] == Pt(11) && SqrtAgrees(sqrt)
    requires RowVotes(g.probe, sqrt)
    ensures Semimajor(x[0].pos, x[1].pos, sqrt) == 5.5
    ensures Bins(x, 0, 1, g, sqrt) == [Bin(Finite(0.0), 10, Tail())]
  {
    EndsSemimajor(sqrt);
    RowBins(g.probe, sqrt);
  }

  /** An accepted bin of value 0 on the axis from pixel 0 to pixel 11
      gives the ellipse with centre `(5.5, 0)`, axes 11 and 0, angle 0. */
  lemma FoundShape(x: seq<Ray>, g: PairGeometry, sqrt: real -> real)
    requires |x| == 12 && SqrtAgrees(sqrt)
    requires AxisGate(g.a211, g.a121, g.a212, g.a122) && g.alpha == 0.0
    requires Midpoint(x[0].pos, x[1].pos) == Centre && Semimajor(x[0].pos, x[1].pos, sqrt) == 5.5
    requires Bins(x, 0, 1, g, sqrt) == [Bin(Finite(0.0), 10, Tail())]
    requires Decide(5.5, [Bin(Finite(0.0), 10, Tail())]) == Accept(0)
    ensures var o := PairStep(x, 0, 1, g, sqrt);
      && o.Found? && o.ellipse.center == Centre && o.ellipse.major == 11.0
      && o.ellipse.minor == 0.0 && o.ellipse.angle == 0.0
      && Winner(x, 0, 1, g, sqrt).count == 10
  {
    FoundExactly(x, 0, 1, g, sqrt);
  }

  /** An ellipse of the witness shape found by the pair `(0, 1)` with ten
      voters takes all twelve points. */
  lemma FoundWhole(x: seq<Ray>, g: PairGeometry, sqrt: real -> real)
    requires |x| == 12 && SqrtAgrees(sqrt)
    requires var o := PairStep(x, 0, 1, g, sqrt);
      && o.Found? && o.ellipse.center == Centre && o.ellipse.major == 11.0
      && o.ellipse.minor == 0.0 && o.ellipse.angle == 0.0
      && Winner(x, 0, 1, g, sqrt).count == 10
    ensures WholeOf(PairStep(x, 0, 1, g, sqrt), x)
  {
    FoundPartitions(x, 0, 1, g, sqrt);
    NothingLeft(PairStep(x, 0, 1, g, sqrt), x);
  }

  /** What the pair `(0, 1)` of the witness view gives, on host
      trigonometry `g` and square root `sqrt`. */
  function FirstPair(g: (seq<Ray>, nat, nat) -> PairGeometry, sqrt: real -> real): Outcome
    requires forall x :: 0.0 <= x ==> 0.0 <= sqrt(x)
  {
    ViewPoints(g, sqrt);
    var x := Extract(View(g, sqrt), true);
    PairStep(x, 0, 1, g(x, 0, 1), sqrt)
  }

  /** The outcome that takes all of `x`, laid out as the witness row: the
      degenerate ellipse with centre `(5.5, 0)`, major axis 11, minor axis
      0 and angle 0, holding every point of `x` and leaving nothing
      behind. */
  predicate WholeOf(o: Outcome, x: seq<Ray>)
  {
    && o.Found? && o.rest == []
    && multiset(o.ellipse.points) == multiset(x)
    && o.ellipse.center == Centre && o.ellipse.major == 11.0
    && o.ellipse.minor == 0.0 && o.ellipse.angle == 0.0
  }

  /** On any host that measures the witness view faithfully, the pair
      `(0, 1)` finds the degenerate ellipse along the whole row, and that
      ellipse takes every interest point of the view. */
  lemma ViewTakesAll(g: (seq<Ray>, nat, nat) -> PairGeometry, sqrt: real -> real)
    requires Measured(View(g, sqrt), true)
    ensures WholeOf(FirstPair(g, sqrt), Points())
    ensures TakesAll(View(g, sqrt), true, FirstPair(g, sqrt).ellipse)
  {
    ViewPair(g, sqrt);
    PairTakesAll(Points(), g(Points(), 0, 1), sqrt);
  }

  lemma NothingLeft(o: Outcome, x: seq<Ray>)
    requires o.Found? && o.rest == [] && multiset(o.rest) + multiset(o.ellipse.points) == multiset(x)
    requires o.ellipse.center == Centre && o.ellipse.major == 11.0
    requires o.ellipse.minor == 0.0 && o.ellipse.angle == 0.0
    ensures WholeOf(o, x)
  {
    assert multiset(o.rest) == multiset{};
  }

  /** What a faithful host tells about the pair `(0, 1)` of the witness
      view. */
  lemma ViewPair(g: (seq<Ray>, nat, nat) -> PairGeometry, sqrt: real -> real)
    requires Measured(View(g, sqrt), true)
    ensures HostOk(View(g, sqrt)) && SqrtAgrees(sqrt)
    ensures Extract(View(g, sqrt), true) == Points() && Arranged(Points())
    ensures PairAgrees(Points(), 0, 1, g(Points(), 0, 1), sqrt)
  {
    ViewPoints(g, sqrt);
    PointsArranged();
  }

  /** The first frame of the scan on a view whose pair `(0, 1)` takes
      every point: both versions extract the view, examine `(0, 1)`, record
      the ellipse and empty the working list; only the corrected one
      remembers that the view has been extracted. */
  lemma FirstFrame(s: State, h: Host, e: Ellipse)
    requires s.calculating && s.poi == [] && s.cursor == Cursor(0, 0) && TakesAll(h, s.mars, e)
    ensures TickAsWritten(s, h) == s.(ellipses := s.ellipses + [e], cursor := Cursor(0, -1))
    ensures !s.scanned && s.ellipses == [] ==>
      Tick(s, h) == s.(ellipses := [e], cursor := Cursor(0, -1), scanned := true)
  {
    FirstTickAsWritten(s, h, e);
    if !s.scanned && s.ellipses == [] {
      FirstTick(s, h, e);
    }
  }

  lemma FirstTickAsWritten(s: State, h: Host, e: Ellipse)
    requires s.calculating && s.poi == [] && s.cursor == Cursor(0, 0) && TakesAll(h, s.mars, e)
    ensures TickAsWritten(s, h) == s.(ellipses := s.ellipses + [e], cursor := Cursor(0, -1))
  {
    FirstStep(s, Extract(h, s.mars), h, e);
  }

  lemma FirstTick(s: State, h: Host, e: Ellipse)
    requires s.calculating && s.poi == [] && s.cursor == Cursor(0, 0) && TakesAll(h, s.mars, e)
    requires !s.scanned && s.ellipses == []
    ensures Tick(s, h) == s.(ellipses := [e], cursor := Cursor(0, -1), scanned := true)
  {
    var t := s.(scanned := true);
    assert t.ellipses + [e] == [e];
    FirstStep(t, Extract(h, s.mars), h, e);
    assert t.(poi := [], ellipses := t.ellipses + [e], cursor := Cursor(0, -1))
      == s.(ellipses := [e], cursor := Cursor(0, -1), scanned := true);
  }

  /** From the start of a scan, a step over a working list whose pair
      `(0, 1)` takes every point records the ellipse and empties the list. */
  lemma FirstStep(s: State, poi: seq<Ray>, h: Host, e: Ellipse)
    requires HostOk(h) && s.calculating && s.cursor == Cursor(0, 0) && |poi| >= 2
    requires PairStep(poi, 0, 1, h.geometry(poi, 0, 1), h.sqrt) == Found(e, [])
    ensures Step(s, poi, h) == s.(poi := [], ellipses := s.ellipses + [e], cursor := Cursor(0, -1))
  {
    assert Advance(s.cursor, |poi|) == Next(Cursor(0, 1));
  }

  /** The scan the space key starts, in the Mars view. */
  const Start: State := KeyPressed(Initial, 32)

  /** As written, the scan on the witness view never ends: after the first
      frame and `2 k` more it is still calculating and has recorded the same
      ellipse `k + 1` times. */
  lemma WitnessLoops(g: (seq<Ray>, nat, nat) -> PairGeometry, sqrt: real -> real, k: nat)
    requires Measured(View(g, sqrt), true)
    ensures FirstPair(g, sqrt).Found?
    ensures var h, e := View(g, sqrt), FirstPair(g, sqrt).ellipse;
      && RunAsWritten(TickAsWritten(Start, h), h, k).calculating
      && RunAsWritten(TickAsWritten(Start, h), h, k).ellipses == [e] + Copies(e, k)
  {
    ViewTakesAll(g, sqrt);
    var h, e := View(g, sqrt), FirstPair(g, sqrt).ellipse;
    FirstFrame(Start, h, e);
    AsWrittenLoops(TickAsWritten(Start, h), h, e, k);
  }

  /** Corrected, the same scan ends on its second frame with the ellipse
      recorded once and every interest point of the view held exactly
      once. */
  lemma WitnessStops(g: (seq<Ray>, nat, nat) -> PairGeometry, sqrt: real -> real)
    requires Measured(View(g, sqrt), true)
    ensures FirstPair(g, sqrt).Found?
    ensures var h, e := View(g, sqrt), FirstPair(g, sqrt).ellipse;
      && Valid(Start) && Valid(Tick(Start, h)) && Tick(Start, h).calculating
      && !Tick(Tick(Start, h), h).calculating
      && Tick(Tick(Start, h), h).ellipses == [e]
      && Pool(Tick(Tick(Start, h), h)) == multiset(Points())
  {
    ViewTakesAll(g, sqrt);
    var h, e := View(g, sqrt), FirstPair(g, sqrt).ellipse;
    FirstFrame(Start, h, e);
    TickConserves(Start, h);
    FrameValid(Start, false, 0, h);
    CorrectedStops(Tick(Start, h), h);
  }

  /** The witness view has a faithful host: the one whose geometry is
      computed by `GeometryOf` with the real square root. */
  lemma WitnessMeasurable()
    ensures Measured(View(GeometryOf(RootOf), RootOf), true)
  {
    GeometryOfMeasures(Edge(), Row(), Pick, true);
  }
}
