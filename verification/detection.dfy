/** One call of the detector on the pair `(p1, p2)` of the working list:
    the self-pair skip, the major-axis gate, the voting pass, the acceptance
    decision and, on acceptance, the new ellipse and the rebuilt working
    list. */
module Detection {
  import opened Basics
  import opened Geometry
  import opened Hypothesis
  import opened Voting
  import opened Scoring
  import opened Registry

  /** What the host measures for one pair with trigonometry and
      normalisation: the four `angleBetween` results of the gate, the axis
      direction `atan2(dy, dx)`, and each candidate third point's
      measurement. */
  datatype PairGeometry = PairGeometry(
    a211: real, a121: real, a212: real, a122: real,
    alpha: real, probe: nat -> Probe)

  /** Squared Euclidean distance. */
  function SqDist(u: Vec, v: Vec): (r: real)
    ensures r >= 0.0
  {
    Sq(u.x - v.x) + Sq(u.y - v.y)
  }

  /** `dist(p1, p2) / 2` with the host's square root. */
  function Semimajor(u: Vec, v: Vec, sqrt: real -> real): (a: real)
    requires forall x :: 0.0 <= x ==> 0.0 <= sqrt(x)
    ensures a >= 0.0
    ensures 2.0 * a == sqrt(SqDist(u, v))
  {
    sqrt(SqDist(u, v)) / 2.0
  }

  datatype Outcome = NoEllipse | Found(ellipse: Ellipse, rest: seq<Ray>)

  /** `stepFindEllipses` for the pair `(p1, p2)` of `poi`. */
  function PairStep(poi: seq<Ray>, p1: nat, p2: nat, g: PairGeometry, sqrt: real -> real): (o: Outcome)
    requires p1 < |poi| && p2 < |poi|
    requires forall x :: 0.0 <= x ==> 0.0 <= sqrt(x)
    ensures p1 == p2 ==> o.NoEllipse?
    ensures !AxisGate(g.a211, g.a121, g.a212, g.a122) ==> o.NoEllipse?
  {
    if p1 == p2 then NoEllipse
    else if !AxisGate(g.a211, g.a121, g.a212, g.a122) then NoEllipse
    else
      var a := Semimajor(poi[p1].pos, poi[p2].pos, sqrt);
      var bins := Accumulate(a, g.probe, p1, p2, sqrt, |poi|);
      AccumulateScorable(a, g.probe, p1, p2, sqrt, |poi|);
      match Decide(a, bins)
      case Reject => NoEllipse
      case Accept(w) =>
        var s := Partition(poi, bins[w].members, p1, p2, |poi|);
        Found(
          Ellipse(Midpoint(poi[p1].pos, poi[p2].pos), 2.0 * a, 2.0 * bins[w].value.b, g.alpha,
                  poi[p1].pos, poi[p2].pos, s.taken),
          s.keep)
  }

  /** The accumulator of the voting pass for `(p1, p2)`. */
  function Bins(poi: seq<Ray>, p1: nat, p2: nat, g: PairGeometry, sqrt: real -> real): seq<Bin>
    requires p1 < |poi| && p2 < |poi|
    requires forall x :: 0.0 <= x ==> 0.0 <= sqrt(x)
  {
    Accumulate(Semimajor(poi[p1].pos, poi[p2].pos, sqrt), g.probe, p1, p2, sqrt, |poi|)
  }

  /** An ellipse is found exactly when the pair is a proper pair that passes
      the gate and the decision on its accumulator accepts. It then has
      the pair's midpoint as centre, the pair's distance as major axis,
      twice the winning bin's value as minor axis, and the pair's direction
      as angle; the winning bin has a finite value and the first largest
      score among such bins, which exceeds `BinThresh`, and holds more than
      `MinPointsThresh` votes. */
  lemma FoundExactly(poi: seq<Ray>, p1: nat, p2: nat, g: PairGeometry, sqrt: real -> real)
    requires p1 < |poi| && p2 < |poi|
    requires forall x :: 0.0 <= x ==> 0.0 <= sqrt(x)
    ensures var bins := Bins(poi, p1, p2, g, sqrt);
      var a := Semimajor(poi[p1].pos, poi[p2].pos, sqrt);
      && Scorable(a, bins)
      && (PairStep(poi, p1, p2, g, sqrt).Found? <==>
            p1 != p2 && AxisGate(g.a211, g.a121, g.a212, g.a122) && Decide(a, bins).Accept?)
      && (PairStep(poi, p1, p2, g, sqrt).Found? ==>
            var e := PairStep(poi, p1, p2, g, sqrt).ellipse;
            var w := Decide(a, bins).winner;
            && w < |bins| && bins[w].value.Finite?
            && IsFirstBest(Scores(a, bins), w)
            && Scores(a, bins)[w].v > BinThresh && bins[w].count > MinPointsThresh
            && e.center == Midpoint(poi[p1].pos, poi[p2].pos)
            && e.major == sqrt(SqDist(poi[p1].pos, poi[p2].pos))
            && e.minor == 2.0 * bins[w].value.b && e.minor >= 0.0
            && e.angle == g.alpha && e.p1 == poi[p1].pos && e.p2 == poi[p2].pos)
  {
    var a := Semimajor(poi[p1].pos, poi[p2].pos, sqrt);
    AccumulateScorable(a, g.probe, p1, p2, sqrt, |poi|);
  }

  /** The winning bin of a pair that finds an ellipse. */
  function Winner(poi: seq<Ray>, p1: nat, p2: nat, g: PairGeometry, sqrt: real -> real): Bin
    requires p1 < |poi| && p2 < |poi|
    requires forall x :: 0.0 <= x ==> 0.0 <= sqrt(x)
    requires PairStep(poi, p1, p2, g, sqrt).Found?
  {
    var a := Semimajor(poi[p1].pos, poi[p2].pos, sqrt);
    var bins := Bins(poi, p1, p2, g, sqrt);
    FoundExactly(poi, p1, p2, g, sqrt);
    bins[Decide(a, bins).winner]
  }

  /** On acceptance nothing is lost or duplicated: the new working list and
      the ellipse's own points together are the old working list, the
      ellipse takes the winning bin's voters and both axis ends: two more
      points than the bin's count, so more than `MinPointsThresh + 2`. */
  lemma FoundPartitions(poi: seq<Ray>, p1: nat, p2: nat, g: PairGeometry, sqrt: real -> real)
    requires p1 < |poi| && p2 < |poi|
    requires forall x :: 0.0 <= x ==> 0.0 <= sqrt(x)
    requires PairStep(poi, p1, p2, g, sqrt).Found?
    ensures var o := PairStep(poi, p1, p2, g, sqrt);
      && multiset(o.rest) + multiset(o.ellipse.points) == multiset(poi)
      && |o.ellipse.points| == Winner(poi, p1, p2, g, sqrt).count + 2
      && |o.ellipse.points| > MinPointsThresh + 2
      && |o.rest| + |o.ellipse.points| == |poi|
      && poi[p1] in o.ellipse.points && poi[p2] in o.ellipse.points
  {
    var a := Semimajor(poi[p1].pos, poi[p2].pos, sqrt);
    var n := |poi|;
    var bins := Accumulate(a, g.probe, p1, p2, sqrt, n);
    AccumulateScorable(a, g.probe, p1, p2, sqrt, n);
    var w := Decide(a, bins).winner;
    WinnerMembers(a, g.probe, p1, p2, sqrt, n, w);
    var s := Partition(poi, bins[w].members, p1, p2, n);
    assert PairStep(poi, p1, p2, g, sqrt) == Found(
      Ellipse(Midpoint(poi[p1].pos, poi[p2].pos), 2.0 * a, 2.0 * bins[w].value.b, g.alpha,
              poi[p1].pos, poi[p2].pos, s.taken),
      s.keep);
    PartitionTakes(poi, bins[w].members, p1, p2);
  }

  /** The winning bin's index list names distinct voters other than the
      axis ends, one per vote. */
  lemma WinnerMembers(a: real, probe: nat -> Probe, p1: nat, p2: nat, sqrt: real -> real, n: nat, w: nat)
    requires forall x :: 0.0 <= x ==> 0.0 <= sqrt(x)
    requires w < |Accumulate(a, probe, p1, p2, sqrt, n)|
    ensures var bin := Accumulate(a, probe, p1, p2, sqrt, n)[w];
      && Increasing(bin.members) && bin.count == |bin.members|
      && forall m :: m in bin.members ==> m < n && m != p1 && m != p2
  {
    var bins := Accumulate(a, probe, p1, p2, sqrt, n);
    AccumulateAccounted(a, probe, p1, p2, sqrt, n);
    forall m | m in bins[w].members
      ensures m != p1 && m != p2
    {
      InMembers(bins, w, m);
      if m == p1 || m == p2 {
        NonVotersAbsent(a, probe, p1, p2, sqrt, n, m);
      }
    }
  }
}
