/** Scoring the accumulator of one axis hypothesis and deciding whether
    its best bin is an ellipse: votes per unit circumference, the first
    maximal score, and the two acceptance thresholds. */
module Scoring {
  import opened Basics
  import opened Voting

  /** p5's `PI`. */
  const PI: real := 3.141592653589793
  /** Minimal score, in votes per unit circumference (`binThresh`). */
  const BinThresh: real := 0.2
  /** The winning bin needs strictly more votes than this (`minPointsThresh`). */
  const MinPointsThresh: nat := 8

  /** `(a - b) / (a + b)`, whose square is the shape parameter `h`. */
  function Ratio(a: real, b: real): real
    requires 0.0 < a + b
  {
    (a - b) / (a + b)
  }

  /** `ellipseCircumference(a, b)`: the approximation
      `PI (a + b) (64 + 3 h^2) / (64 - 16 h)` with `h = ((a - b) / (a + b))^2`.
      It never falls below `PI (a + b)`, so it is positive. */
  function Circumference(a: real, b: real): (c: real)
    requires 0.0 <= a && 0.0 <= b && 0.0 < a + b
    ensures c >= PI * (a + b)
  {
    ShapeBounds(a, b);
    Approximation(a + b, Sq(Ratio(a, b)))
  }

  /** `PI s (64 + 3 h^2) / (64 - 16 h)` for `s = a + b` and the shape
      parameter `h`. */
  function Approximation(s: real, h: real): (c: real)
    requires 0.0 <= s && 0.0 <= h <= 1.0
    ensures c >= PI * s
  {
    FactorAtLeastOne(h);
    Scaled(PI * s, 64.0 + 3.0 * h * h, 64.0 - 16.0 * h)
  }

  /** `p * n / m` for a factor `n / m` of at least one. */
  function Scaled(p: real, n: real, m: real): (r: real)
    requires p >= 0.0 && m > 0.0 && n / m >= 1.0
    ensures r >= p
  {
    ScaledUp(p, n, m);
    p * n / m
  }

  /** `h` lies in `[0, 1]`, and in `[0, 1)` when both semi-axes are
      positive, so the denominator `64 - 16 h` stays at least 48. */
  lemma ShapeBounds(a: real, b: real)
    requires 0.0 <= a && 0.0 <= b && 0.0 < a + b
    ensures 0.0 <= Sq(Ratio(a, b)) <= 1.0
    ensures 0.0 < a && 0.0 < b ==> Sq(Ratio(a, b)) < 1.0
    ensures 64.0 - 16.0 * Sq(Ratio(a, b)) >= 48.0
  {
    DivBounds(a - b, a + b);
    SqAtMostOne(Ratio(a, b));
  }

  lemma DivBounds(n: real, m: real)
    requires m > 0.0 && -m <= n <= m
    ensures -1.0 <= n / m <= 1.0
    ensures -m < n < m ==> -1.0 < n / m < 1.0
  {
  }

  lemma FactorAtLeastOne(h: real)
    requires 0.0 <= h <= 1.0
    ensures 64.0 - 16.0 * h >= 48.0
    ensures (64.0 + 3.0 * h * h) / (64.0 - 16.0 * h) >= 1.0
  {
    MulMonotone(3.0 * h, 0.0, h);
    DivAtLeastOne(64.0 + 3.0 * h * h, 64.0 - 16.0 * h);
  }

  lemma DivAtLeastOne(n: real, m: real)
    requires m > 0.0 && n >= m
    ensures n / m >= 1.0
  {
  }

  lemma ScaledUp(p: real, n: real, m: real)
    requires p >= 0.0 && m > 0.0 && n / m >= 1.0
    ensures p * n / m >= p
  {
    MulDiv(p, n, m);
    MulMonotone(p, 1.0, n / m);
    MulOne(p);
  }

  lemma MulDiv(p: real, n: real, m: real)
    requires m != 0.0
    ensures p * n / m == Mul(p, n / m)
  {
  }

  /** The approximation stays within a factor two of `PI (a + b)`: `h` is
      at most 1, so the correction factor is at most `67 / 48`. */
  lemma CircumferenceAtMost(a: real, b: real)
    requires 0.0 <= a && 0.0 <= b && 0.0 < a + b
    ensures Circumference(a, b) <= 2.0 * PI * (a + b)
  {
    var h := Sq(Ratio(a, b));
    var p := PI * (a + b);
    ShapeBounds(a, b);
    CorrectionAtMostTwo(h);
    var n := 64.0 + 3.0 * h * h;
    var m := 64.0 - 16.0 * h;
    MulDiv(p, n, m);
    MulMonotone(p, n / m, 2.0);
    assert Circumference(a, b) == Approximation(a + b, h) == p * n / m;
  }

  lemma CorrectionAtMostTwo(h: real)
    requires 0.0 <= h <= 1.0
    ensures (64.0 + 3.0 * h * h) / (64.0 - 16.0 * h) <= 2.0
  {
    MulMonotone(3.0 * h, h, 1.0);
    MulOne(3.0 * h);
    FactorAtMostTwo(64.0 + 3.0 * h * h, 64.0 - 16.0 * h);
  }

  lemma FactorAtMostTwo(n: real, m: real)
    requires n <= 67.0 && m >= 48.0
    ensures n / m <= 2.0
  {
  }

  /** The approximation does not care which semi-axis is which. */
  lemma CircumferenceSymmetric(a: real, b: real)
    requires 0.0 <= a && 0.0 <= b && 0.0 < a + b
    ensures Circumference(a, b) == Circumference(b, a)
  {
    RatioSwap(a, b);
    SqIsMul(Ratio(a, b));
    assert Sq(Ratio(b, a)) == Sq(Ratio(a, b));
    assert b + a == a + b;
  }

  lemma RatioSwap(a: real, b: real)
    requires 0.0 < a + b
    ensures Ratio(b, a) == -Ratio(a, b)
  {
  }

  /** On a circle the approximation is exact. */
  lemma CircleCircumference(a: real)
    requires 0.0 < a
    ensures Circumference(a, a) == 2.0 * PI * a
  {
    assert Ratio(a, a) == 0.0;
  }

  /** What scoring needs of an accumulator: a positive semimajor when there
      is a bin, and non-negative finite values. */
  predicate Scorable(a: real, bins: seq<Bin>)
  {
    && (|bins| > 0 ==> a > 0.0)
    && forall i :: 0 <= i < |bins| && bins[i].value.Finite? ==> bins[i].value.b >= 0.0
  }

  /** Every accumulator the voting pass builds can be scored. */
  lemma AccumulateScorable(a: real, probe: nat -> Probe, p1: nat, p2: nat, sqrt: real -> real, k: nat)
    requires forall x :: 0.0 <= x ==> 0.0 <= sqrt(x)
    ensures Scorable(a, Accumulate(a, probe, p1, p2, sqrt, k))
  {
    AccumulateAccounted(a, probe, p1, p2, sqrt, k);
  }

  /** `count / ellipseCircumference(a, value)` of a bin with a finite value. */
  function ScoreOf(a: real, bin: Bin): (s: real)
    requires a > 0.0 && bin.value.Finite? && bin.value.b >= 0.0
    ensures s >= 0.0
    ensures s * Circumference(a, bin.value.b) == bin.count as real
  {
    bin.count as real / Circumference(a, bin.value.b)
  }

  /** A score as JavaScript computes it. A bin whose value is `Infinity` or
      `NaN` has a `NaN` shape parameter, so a `NaN` circumference and a
      `NaN` score. */
  datatype Score = NaN | Num(v: real)

  function ScoreAt(a: real, bin: Bin): (s: Score)
    requires a > 0.0 && (bin.value.Finite? ==> bin.value.b >= 0.0)
    ensures s.Num? <==> bin.value.Finite?
  {
    if bin.value.Finite? then Num(ScoreOf(a, bin)) else NaN
  }

  /** `accumulator.map(x => x[1] / ellipseCircumference(semimajor, x[0]))`. */
  function Scores(a: real, bins: seq<Bin>): (r: seq<Score>)
    requires Scorable(a, bins)
    ensures |r| == |bins|
    ensures forall i :: 0 <= i < |bins| ==> r[i] == ScoreAt(a, bins[i])
  {
    seq(|bins|, i requires 0 <= i < |bins| => ScoreAt(a, bins[i]))
  }

  /** `w` is the first index at which `xs` takes its largest value. */
  predicate IsFirstMax(xs: seq<real>, w: nat)
  {
    && w < |xs|
    && (forall j :: 0 <= j < |xs| ==> xs[j] <= xs[w])
    && (forall j :: 0 <= j < w ==> xs[j] < xs[w])
  }

  lemma FirstMaxUnique(xs: seq<real>, v: nat, w: nat)
    requires IsFirstMax(xs, v) && IsFirstMax(xs, w)
    ensures v == w
  {
    assert xs[v] <= xs[w] && xs[w] <= xs[v];
  }

  /** The largest of a non-empty list of numbers. */
  function MaxOf(xs: seq<real>): (m: real)
    requires |xs| > 0
    ensures m in xs
    ensures forall j :: 0 <= j < |xs| ==> xs[j] <= m
  {
    if |xs| == 1 then xs[0]
    else
      var m := MaxOf(xs[..|xs| - 1]);
      assert forall j :: 0 <= j < |xs| - 1 ==> xs[..|xs| - 1][j] == xs[j];
      Max(m, xs[|xs| - 1])
  }

  /** p5's `max` on an array: a loop seeded with `-Infinity` that moves to
      an element only when the element compares larger, so `NaN` elements
      are passed over. `None` is the `-Infinity` it returns when no element
      is a number. */
  function MaxScore(xs: seq<Score>): (m: Option<real>)
    ensures m.None? <==> forall i :: 0 <= i < |xs| ==> xs[i].NaN?
    ensures m.Some? ==> Num(m.value) in xs
    ensures m.Some? ==> forall i :: 0 <= i < |xs| && xs[i].Num? ==> xs[i].v <= m.value
  {
    if |xs| == 0 then None
    else
      var m := MaxScore(xs[..|xs| - 1]);
      var x := xs[|xs| - 1];
      assert forall j :: 0 <= j < |xs| - 1 ==> xs[..|xs| - 1][j] == xs[j];
      if x.Num? && (m.None? || x.v > m.value) then Some(x.v) else m
  }

  /** JavaScript `indexOf`: the first position holding `v`, or -1. Its
      strict equality never matches `NaN`, which `Score` reflects: `NaN`
      equals no `Num`. */
  function IndexOf<T(==)>(xs: seq<T>, v: T): (i: int)
    ensures -1 <= i < |xs|
    ensures i == -1 <==> v !in xs
    ensures 0 <= i ==> xs[i] == v && forall j :: 0 <= j < i ==> xs[j] != v
  {
    if |xs| == 0 then -1
    else if xs[0] == v then 0
    else
      var r := IndexOf(xs[1..], v);
      if r < 0 then -1 else r + 1
  }

  /** The source's `argMax` helper, a left fold over `xs[..k]` that moves
      to index `i` only when `xs[i]` is strictly larger than the best so
      far; on an empty array it returns its seed 0. */
  function ArgMaxUpTo(xs: seq<real>, k: nat): (m: nat)
    requires k <= |xs|
    ensures 0 < k ==> m < k
    ensures k == 0 ==> m == 0
  {
    if k == 0 then 0
    else
      var m := ArgMaxUpTo(xs, k - 1);
      if xs[k - 1] > xs[m] then k - 1 else m
  }

  function ArgMax(xs: seq<real>): nat
  {
    ArgMaxUpTo(xs, |xs|)
  }

  /** The fold keeps the first maximum of the prefix it has seen. */
  lemma {:induction false} ArgMaxUpToFirstMax(xs: seq<real>, k: nat)
    requires 0 < k <= |xs|
    ensures IsFirstMax(xs[..k], ArgMaxUpTo(xs, k))
  {
    var m := ArgMaxUpTo(xs, k);
    if k > 1 {
      ArgMaxUpToFirstMax(xs, k - 1);
      var m' := ArgMaxUpTo(xs, k - 1);
      assert forall j :: 0 <= j < k - 1 ==> xs[..k - 1][j] == xs[j];
      assert forall j :: 0 <= j < k ==> xs[..k][j] == xs[j];
      assert xs[m'] == xs[..k - 1][m'];
    }
  }

  /** The two ways of finding the winner in the source agree: `argMax`
      and `indexOf(max(scores))` both give the first maximal index. */
  lemma ArgMaxIsIndexOfMax(xs: seq<real>)
    requires |xs| > 0
    ensures IsFirstMax(xs, ArgMax(xs))
    ensures ArgMax(xs) == IndexOf(xs, MaxOf(xs))
  {
    ArgMaxUpToFirstMax(xs, |xs|);
    assert xs[..|xs|] == xs;
    IndexOfMax(xs);
    FirstMaxUnique(xs, IndexOf(xs, MaxOf(xs)), ArgMax(xs));
  }

  lemma IndexOfMax(xs: seq<real>)
    requires |xs| > 0
    ensures IsFirstMax(xs, IndexOf(xs, MaxOf(xs)))
  {
  }

  /** `w` is the first index holding the largest number of `xs`. */
  predicate IsFirstBest(xs: seq<Score>, w: nat)
  {
    && w < |xs| && xs[w].Num?
    && (forall j :: 0 <= j < |xs| && xs[j].Num? ==> xs[j].v <= xs[w].v)
    && (forall j :: 0 <= j < w && xs[j].Num? ==> xs[j].v < xs[w].v)
  }

  lemma FirstBestUnique(xs: seq<Score>, w: nat)
    requires IsFirstBest(xs, w)
    ensures forall v: nat :: IsFirstBest(xs, v) ==> v == w
  {
    forall v: nat | IsFirstBest(xs, v)
      ensures v == w
    {
      assert xs[v].v <= xs[w].v && xs[w].v <= xs[v].v;
    }
  }

  /** `indexOf(max(scores))` finds the first best score whenever one
      score is a number. */
  lemma IndexOfMaxScore(xs: seq<Score>)
    requires MaxScore(xs).Some?
    ensures IsFirstBest(xs, IndexOf(xs, Num(MaxScore(xs).value)))
  {
  }

  datatype Decision = Reject | Accept(winner: nat)

  /** The acceptance decision at the end of a voting pass. p5's `max`
      passes over the `NaN` scores of non-finite bins; when no score is a
      number (in particular for an empty accumulator) it returns
      `-Infinity`, which fails the score threshold. Otherwise the winner is
      the first bin with the largest score, accepted when that score
      exceeds `BinThresh` and its count exceeds `MinPointsThresh`. */
  function Decide(a: real, bins: seq<Bin>): (d: Decision)
    requires Scorable(a, bins)
    ensures d.Accept? ==>
      && IsFirstBest(Scores(a, bins), d.winner)
      && Scores(a, bins)[d.winner].v > BinThresh
      && bins[d.winner].count > MinPointsThresh
    ensures d.Reject? ==>
      forall w: nat :: IsFirstBest(Scores(a, bins), w) ==>
        Scores(a, bins)[w].v <= BinThresh || bins[w].count <= MinPointsThresh
  {
    var scores := Scores(a, bins);
    match MaxScore(scores)
    case None => Reject
    case Some(m) =>
      var w := IndexOf(scores, Num(m));
      IndexOfMaxScore(scores);
      FirstBestUnique(scores, w);
      if m > BinThresh && bins[w].count > MinPointsThresh then Accept(w) else Reject
  }

  /** A bin with a non-finite value does not stop a later bin from
      winning: with semimajor 0.5, a `NaN` bin followed by a bin of value 1
      with nine votes accepts the second bin. */
  lemma NaNScorePassedOver(members: seq<nat>)
    ensures Decide(0.5, [Bin(NonFinite, 1, [2]), Bin(Finite(1.0), 9, members)]) == Accept(1)
  {
    var bins := [Bin(NonFinite, 1, [2]), Bin(Finite(1.0), 9, members)];
    CircumferenceAtMost(0.5, 1.0);
    var s := ScoreOf(0.5, bins[1]);
    assert s * Circumference(0.5, 1.0) == 9.0;
    var scores := Scores(0.5, bins);
    assert scores == [NaN, Num(s)];
    assert scores[..1] == [NaN];
    assert MaxScore(scores) == Some(s);
  }
}
