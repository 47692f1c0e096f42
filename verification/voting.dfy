/** The semi-minor-axis voting pass run for one accepted axis hypothesis:
    every other interest point that faces the centre and lies within the
    semi-major distance contributes one semi-minor estimate, and the
    estimates are clustered into an accumulator of bins. */
module Voting {
  import opened Basics

  /** Two estimates closer than this many pixels share a bin (`sThresh`). */
  const SThresh: real := 7.0
  /** `cos(PI / 4)` as JavaScript evaluates it: the 45-degree facing test. */
  const Cos45: real := 0.7071067811865476

  /** What the host measures for one candidate third point against the
      current axis hypothesis (all of it needs `sqrt`, `normalize` or
      `dist`): `dotCenter`, the dot product of the unit vector towards the
      centre with the unit gradient; `d`, the distance to the centre; `f`,
      the distance to the nearer axis end. */
  datatype Measurement = Measurement(dotCenter: real, d: real, f: real)

  /** p5's `normalize` leaves the zero vector at zero, so a point sitting on
      the centre has a zero dot product and can never pass the facing test:
      a point that faces the centre is at a positive distance from it. */
  type Probe = m: Measurement | m.dotCenter >= Cos45 ==> m.d > 0.0
    witness Measurement(0.0, 0.0, 0.0)

  /** A semi-minor estimate. `NonFinite` stands for the `Infinity` or `NaN`
      that a zero denominator produces in JavaScript. */
  datatype Estimate = Finite(b: real) | NonFinite

  /** The facing and distance tests a candidate `p` must pass to vote;
      the axis ends themselves never vote. */
  predicate Votes(a: real, pr: Probe, p: nat, p1: nat, p2: nat)
  {
    p != p1 && p != p2 && pr.dotCenter >= Cos45 && pr.d <= a
  }

  /** `cos^2 tau` from semimajor `a`, distance `d` to the centre and
      distance `f` to the nearer axis end, clamped into `[0, 1]`. */
  function CosTauSq(a: real, d: real, f: real): (c: real)
    requires 0.0 < a && 0.0 < d
    ensures 0.0 <= c <= 1.0
  {
    Constrain(Sq((Sq(a) + Sq(d) - Sq(f)) / (2.0 * a * d)), 0.0, 1.0)
  }

  /** `a^2 - d^2 cos^2 tau`, the denominator of the estimate. */
  function Denominator(a: real, d: real, c: real): real
  {
    a * a - d * d * c
  }

  /** The semi-minor estimate `sqrt(|a^2 d^2 sin^2 tau / (a^2 - d^2 cos^2 tau)|)`
      of a voting point; `sqrt` is the host's square root. */
  function Semiminor(a: real, d: real, f: real, sqrt: real -> real): (e: Estimate)
    requires 0.0 < d <= a
    requires forall x :: 0.0 <= x ==> 0.0 <= sqrt(x)
    ensures e.Finite? ==> e.b >= 0.0
    ensures e.NonFinite? <==> d == a && CosTauSq(a, d, f) == 1.0
  {
    var c := CosTauSq(a, d, f);
    DenominatorVanishes(a, d, c);
    if Denominator(a, d, c) == 0.0 then NonFinite
    else Finite(sqrt(Abs(a * a * (d * d) * (1.0 - c) / Denominator(a, d, c))))
  }

  /** With `d <= a` and `c` clamped, the denominator is never negative, and
      it is zero only for a point at distance exactly `a` whose clamped
      `cos^2 tau` is 1. */
  lemma DenominatorVanishes(a: real, d: real, c: real)
    requires 0.0 < d <= a && 0.0 <= c <= 1.0
    ensures Denominator(a, d, c) >= 0.0
    ensures Denominator(a, d, c) == 0.0 <==> d == a && c == 1.0
  {
    DenominatorSign(a, d, c);
    if d == a {
      if c == 1.0 {
        RimVanishes(a, c);
      } else {
        RimFactor(a, c);
        MulNonZero(a, a);
        MulNonZero(Mul(a, a), 1.0 - c);
      }
    }
  }

  lemma DenominatorSign(a: real, d: real, c: real)
    requires 0.0 < d <= a && 0.0 <= c <= 1.0
    ensures Denominator(a, d, c) >= 0.0
    ensures Denominator(a, d, c) == 0.0 ==> d == a
  {
  }

  lemma RimVanishes(a: real, c: real)
    requires c == 1.0
    ensures Denominator(a, a, c) == 0.0
  {
  }

  /** On the rim the denominator factors as `a^2 (1 - cos^2 tau)`. */
  lemma RimFactor(a: real, c: real)
    ensures Denominator(a, a, c) == Mul(Mul(a, a), 1.0 - c)
  {
  }

  /** Over the reals the absolute value in the estimate changes nothing: the
      radicand is already non-negative. It guards only against rounding. */
  lemma RadicandNonNegative(a: real, d: real, f: real)
    requires 0.0 < d <= a
    requires Denominator(a, d, CosTauSq(a, d, f)) != 0.0
    ensures a * a * (d * d) * (1.0 - CosTauSq(a, d, f)) / Denominator(a, d, CosTauSq(a, d, f)) >= 0.0
  {
    var c := CosTauSq(a, d, f);
    DenominatorVanishes(a, d, c);
    NumeratorSign(a, d, c);
    QuotientSign(a * a * (d * d) * (1.0 - c), Denominator(a, d, c));
  }

  lemma NumeratorSign(a: real, d: real, c: real)
    requires 0.0 < d <= a && 0.0 <= c <= 1.0
    ensures a * a * (d * d) * (1.0 - c) >= 0.0
  {
  }

  lemma QuotientSign(n: real, m: real)
    requires n >= 0.0 && m > 0.0
    ensures n / m >= 0.0
  {
  }

  /** One accumulator bin `[value, count, indices]`. */
  datatype Bin = Bin(value: Estimate, count: nat, members: seq<nat>)

  /** A sample joins a bin whose value is within `SThresh`; comparisons with
      `NaN` or `Infinity` are false, so non-finite values never join. */
  predicate Near(v: Estimate, s: Estimate)
  {
    v.Finite? && s.Finite? && Abs(v.b - s.b) < SThresh
  }

  /** Folding sample `s` from point `p` into a bin: the value moves a quarter
      of the way towards `s`. */
  function Merge(bin: Bin, s: Estimate, p: nat): (r: Bin)
    requires Near(bin.value, s)
    ensures r.value.Finite?
    ensures Min(bin.value.b, s.b) <= r.value.b <= Max(bin.value.b, s.b)
    ensures Abs(r.value.b - bin.value.b) < SThresh / 4.0
    ensures r.count == bin.count + 1 && r.members == bin.members + [p]
  {
    Bin(Finite(0.75 * bin.value.b + 0.25 * s.b), bin.count + 1, bin.members + [p])
  }

  /** Index of the first bin near `s`, or `|bins|` when there is none. */
  function FirstNear(bins: seq<Bin>, s: Estimate): (k: nat)
    ensures k <= |bins|
    ensures k < |bins| ==> Near(bins[k].value, s)
    ensures forall j :: 0 <= j < k ==> !Near(bins[j].value, s)
  {
    if |bins| == 0 then 0
    else if Near(bins[0].value, s) then 0
    else 1 + FirstNear(bins[1..], s)
  }

  /** The accumulator update for one vote (the scan over the bins with its
      `break`, then the fallback push). */
  function Insert(bins: seq<Bin>, s: Estimate, p: nat): seq<Bin>
  {
    if |bins| == 0 then [Bin(s, 1, [p])]
    else if Near(bins[0].value, s) then [Merge(bins[0], s, p)] + bins[1..]
    else [bins[0]] + Insert(bins[1..], s, p)
  }

  /** Bin insertion: the first near bin absorbs the vote and every other
      bin is untouched; with no near bin, exactly one new bin `[s, 1, [p]]`
      is appended. */
  lemma {:induction false} InsertPlacement(bins: seq<Bin>, s: Estimate, p: nat)
    ensures FirstNear(bins, s) < |bins| ==>
      && |Insert(bins, s, p)| == |bins|
      && Insert(bins, s, p)[FirstNear(bins, s)] == Merge(bins[FirstNear(bins, s)], s, p)
      && forall j :: 0 <= j < |bins| && j != FirstNear(bins, s) ==> Insert(bins, s, p)[j] == bins[j]
    ensures FirstNear(bins, s) == |bins| ==> Insert(bins, s, p) == bins + [Bin(s, 1, [p])]
  {
    if |bins| > 0 && !Near(bins[0].value, s) {
      InsertPlacement(bins[1..], s, p);
      var r := Insert(bins, s, p);
      assert r == [bins[0]] + Insert(bins[1..], s, p);
      if FirstNear(bins, s) == |bins| {
        assert bins == [bins[0]] + bins[1..];
      }
    }
  }

  /** Every point index recorded in some bin. */
  function Members(bins: seq<Bin>): set<nat>
  {
    if |bins| == 0 then {} else (set m | m in bins[0].members) + Members(bins[1..])
  }

  /** A bin's index list is part of the accumulator's members. */
  lemma {:induction false} InMembers(bins: seq<Bin>, i: nat, m: nat)
    requires i < |bins| && m in bins[i].members
    ensures m in Members(bins)
    decreases i
  {
    if i > 0 {
      InMembers(bins[1..], i - 1, m);
    }
  }

  /** The sum of the bins' vote counts. */
  function Total(bins: seq<Bin>): nat
  {
    if |bins| == 0 then 0 else bins[0].count + Total(bins[1..])
  }

  predicate Increasing(xs: seq<nat>)
  {
    forall i, j :: 0 <= i < j < |xs| ==> xs[i] < xs[j]
  }

  /** Bookkeeping of an accumulator after the points below `k` have voted:
      each count is the length of its (non-empty, strictly increasing)
      index list, the lists are pairwise disjoint and hold indices below `k`,
      and every finite value is non-negative. */
  ghost predicate Accounted(bins: seq<Bin>, k: nat)
  {
    && (forall i :: 0 <= i < |bins| ==> bins[i].count == |bins[i].members| && bins[i].count > 0)
    && (forall i :: 0 <= i < |bins| ==> Increasing(bins[i].members))
    && (forall i, m :: 0 <= i < |bins| && m in bins[i].members ==> m < k)
    && (forall i, j, m :: 0 <= i < j < |bins| && m in bins[i].members ==> m !in bins[j].members)
    && (forall i :: 0 <= i < |bins| && bins[i].value.Finite? ==> bins[i].value.b >= 0.0)
  }

  /** The points below `k` that pass the voting tests, in loop order. */
  function Voters(a: real, probe: nat -> Probe, p1: nat, p2: nat, k: nat): seq<nat>
  {
    if k == 0 then []
    else Voters(a, probe, p1, p2, k - 1) + (if Votes(a, probe(k - 1), k - 1, p1, p2) then [k - 1] else [])
  }

  /** The voters below `k` are exactly the points below `k` that pass the
      facing and distance tests; in particular the axis ends and every point
      farther than `a` from the centre are absent. */
  lemma {:induction false} VotersExactly(a: real, probe: nat -> Probe, p1: nat, p2: nat, k: nat, p: nat)
    ensures p in Voters(a, probe, p1, p2, k) <==> p < k && Votes(a, probe(p), p, p1, p2)
    decreases k
  {
    if k > 0 {
      VotersExactly(a, probe, p1, p2, k - 1, p);
    }
  }

  /** One pass of the voting loop body for point `p`: a point that fails
      the facing or distance test leaves the accumulator as it is, a voting
      point inserts its estimate. */
  function Visit(bins: seq<Bin>, a: real, pr: Probe, p: nat, p1: nat, p2: nat, sqrt: real -> real): seq<Bin>
    requires forall x :: 0.0 <= x ==> 0.0 <= sqrt(x)
  {
    if Votes(a, pr, p, p1, p2) then Insert(bins, Semiminor(a, pr.d, pr.f, sqrt), p) else bins
  }

  /** The accumulator after points `0 .. k-1` have been considered, in index
      order, exactly as the voting loop visits them. */
  function Accumulate(a: real, probe: nat -> Probe, p1: nat, p2: nat, sqrt: real -> real, k: nat): seq<Bin>
    requires forall x :: 0.0 <= x ==> 0.0 <= sqrt(x)
  {
    if k == 0 then []
    else Visit(Accumulate(a, probe, p1, p2, sqrt, k - 1), a, probe(k - 1), k - 1, p1, p2, sqrt)
  }

  /** Vote accounting, bookkeeping half: after the pass over the points
      below `k` the bins are well kept. An accumulator with any bin implies a
      positive semimajor, since a voter lies at a positive distance at most
      `a` from the centre. */
  lemma {:induction false} AccumulateAccounted(a: real, probe: nat -> Probe, p1: nat, p2: nat, sqrt: real -> real, k: nat)
    requires forall x :: 0.0 <= x ==> 0.0 <= sqrt(x)
    ensures Accounted(Accumulate(a, probe, p1, p2, sqrt, k), k)
    ensures |Accumulate(a, probe, p1, p2, sqrt, k)| > 0 ==> a > 0.0
    decreases k
  {
    if k > 0 {
      AccumulateAccounted(a, probe, p1, p2, sqrt, k - 1);
      VisitAccounted(Accumulate(a, probe, p1, p2, sqrt, k - 1), a, probe(k - 1), k, p1, p2, sqrt);
    }
  }

  /** Vote accounting, membership: the indices recorded in the bins are
      exactly the voters. */
  lemma {:induction false} AccumulateMembers(a: real, probe: nat -> Probe, p1: nat, p2: nat, sqrt: real -> real, k: nat)
    requires forall x :: 0.0 <= x ==> 0.0 <= sqrt(x)
    ensures forall p :: p in Members(Accumulate(a, probe, p1, p2, sqrt, k)) <==> p in Voters(a, probe, p1, p2, k)
    decreases k
  {
    if k > 0 {
      AccumulateMembers(a, probe, p1, p2, sqrt, k - 1);
      VisitRecords(Accumulate(a, probe, p1, p2, sqrt, k - 1), a, probe(k - 1), k - 1, p1, p2, sqrt);
    }
  }

  /** Neither axis end, nor any point farther than `a` from the centre,
      is recorded in any bin. */
  lemma NonVotersAbsent(a: real, probe: nat -> Probe, p1: nat, p2: nat, sqrt: real -> real, k: nat, p: nat)
    requires forall x :: 0.0 <= x ==> 0.0 <= sqrt(x)
    requires p == p1 || p == p2 || probe(p).d > a
    ensures p !in Members(Accumulate(a, probe, p1, p2, sqrt, k))
  {
    AccumulateMembers(a, probe, p1, p2, sqrt, k);
    VotersExactly(a, probe, p1, p2, k, p);
  }

  /** Vote accounting, counting: the bins' counts add up to the number of
      voters. */
  lemma {:induction false} AccumulateTotal(a: real, probe: nat -> Probe, p1: nat, p2: nat, sqrt: real -> real, k: nat)
    requires forall x :: 0.0 <= x ==> 0.0 <= sqrt(x)
    ensures Total(Accumulate(a, probe, p1, p2, sqrt, k)) == |Voters(a, probe, p1, p2, k)|
    decreases k
  {
    if k > 0 {
      AccumulateTotal(a, probe, p1, p2, sqrt, k - 1);
      VisitRecords(Accumulate(a, probe, p1, p2, sqrt, k - 1), a, probe(k - 1), k - 1, p1, p2, sqrt);
    }
  }

  /** Votes that all give the same finite estimate `b` land in a single bin
      of value `b` that counts every voter and lists them in loop order. */
  lemma {:induction false} CommonEstimate(a: real, probe: nat -> Probe, p1: nat, p2: nat, sqrt: real -> real, k: nat, b: real)
    requires forall x :: 0.0 <= x ==> 0.0 <= sqrt(x)
    requires forall p :: 0 <= p < k && Votes(a, probe(p), p, p1, p2) ==> Semiminor(a, probe(p).d, probe(p).f, sqrt) == Finite(b)
    ensures var v := Voters(a, probe, p1, p2, k);
      Accumulate(a, probe, p1, p2, sqrt, k) == if |v| == 0 then [] else [Bin(Finite(b), |v|, v)]
    decreases k
  {
    if k > 0 {
      var q := k - 1;
      CommonEstimate(a, probe, p1, p2, sqrt, q, b);
      var v := Voters(a, probe, p1, p2, q);
      var bins := Accumulate(a, probe, p1, p2, sqrt, q);
      if Votes(a, probe(q), q, p1, p2) && |v| > 0 {
        assert Near(bins[0].value, Finite(b));
        assert 0.75 * b + 0.25 * b == b;
        assert Insert(bins, Finite(b), q) == [Merge(bins[0], Finite(b), q)] + bins[1..];
        assert Voters(a, probe, p1, p2, k) == v + [q];
      } else if Votes(a, probe(q), q, p1, p2) {
        assert Accumulate(a, probe, p1, p2, sqrt, k) == Insert([], Finite(b), q);
        assert Voters(a, probe, p1, p2, k) == [q];
      } else {
        assert Accumulate(a, probe, p1, p2, sqrt, k) == bins;
        assert Voters(a, probe, p1, p2, k) == v;
      }
    }
  }

  lemma VisitAccounted(bins: seq<Bin>, a: real, pr: Probe, k: nat, p1: nat, p2: nat, sqrt: real -> real)
    requires forall x :: 0.0 <= x ==> 0.0 <= sqrt(x)
    requires 0 < k && Accounted(bins, k - 1)
    requires |bins| > 0 ==> a > 0.0
    ensures Accounted(Visit(bins, a, pr, k - 1, p1, p2, sqrt), k)
    ensures |Visit(bins, a, pr, k - 1, p1, p2, sqrt)| > 0 ==> a > 0.0
  {
    var q := k - 1;
    if Votes(a, pr, q, p1, p2) {
      var s := Semiminor(a, pr.d, pr.f, sqrt);
      assert Visit(bins, a, pr, q, p1, p2, sqrt) == Insert(bins, s, q);
      InsertAccounts(bins, s, q);
    } else {
      assert Visit(bins, a, pr, q, p1, p2, sqrt) == bins;
      AccountedLater(bins, q);
    }
  }

  /** A visit records exactly the visited point when it votes. */
  lemma VisitRecords(bins: seq<Bin>, a: real, pr: Probe, q: nat, p1: nat, p2: nat, sqrt: real -> real)
    requires forall x :: 0.0 <= x ==> 0.0 <= sqrt(x)
    ensures Members(Visit(bins, a, pr, q, p1, p2, sqrt)) == Members(bins) + (if Votes(a, pr, q, p1, p2) then {q} else {})
    ensures Total(Visit(bins, a, pr, q, p1, p2, sqrt)) == Total(bins) + (if Votes(a, pr, q, p1, p2) then 1 else 0)
  {
    if Votes(a, pr, q, p1, p2) {
      var s := Semiminor(a, pr.d, pr.f, sqrt);
      InsertMembers(bins, s, q);
      InsertCounts(bins, s, q);
    }
  }

  lemma AccountedLater(bins: seq<Bin>, q: nat)
    requires Accounted(bins, q)
    ensures Accounted(bins, q + 1)
  {
  }

  /** One vote keeps the bookkeeping, one index further on. */
  lemma InsertAccounts(bins: seq<Bin>, s: Estimate, q: nat)
    requires Accounted(bins, q)
    requires s.Finite? ==> s.b >= 0.0
    ensures Accounted(Insert(bins, s, q), q + 1)
  {
    InsertPlacement(bins, s, q);
    if FirstNear(bins, s) < |bins| {
      MergeAccounted(bins, s, q);
    } else {
      AppendAccounted(bins, s, q);
    }
  }

  lemma AppendAccounted(bins: seq<Bin>, s: Estimate, q: nat)
    requires Accounted(bins, q)
    requires s.Finite? ==> s.b >= 0.0
    ensures Accounted(bins + [Bin(s, 1, [q])], q + 1)
  {
    var r := bins + [Bin(s, 1, [q])];
    forall i, j, m | 0 <= i < j < |r| && m in r[i].members
      ensures m !in r[j].members
    {
      assert m in bins[i].members;
      if j == |bins| {
        assert m < q;
      }
    }
  }

  lemma AppendIncreasing(xs: seq<nat>, q: nat)
    requires Increasing(xs)
    requires forall m :: m in xs ==> m < q
    ensures Increasing(xs + [q])
  {
    var ys := xs + [q];
    forall i, j | 0 <= i < j < |ys|
      ensures ys[i] < ys[j]
    {
      if j == |xs| {
        assert ys[i] == xs[i] && xs[i] in xs;
      }
    }
  }

  lemma MergeAccounted(bins: seq<Bin>, s: Estimate, q: nat)
    requires Accounted(bins, q)
    requires s.Finite? ==> s.b >= 0.0
    requires FirstNear(bins, s) < |bins|
    ensures Accounted(Insert(bins, s, q), q + 1)
  {
    InsertPlacement(bins, s, q);
    var r := Insert(bins, s, q);
    var k := FirstNear(bins, s);
    AppendIncreasing(bins[k].members, q);
    forall i, j, m | 0 <= i < j < |r| && m in r[i].members
      ensures m !in r[j].members
    {
      if i == k {
        if m == q {
          assert forall x :: x in bins[j].members ==> x < q;
        } else {
          assert m in bins[k].members;
        }
      } else if j == k {
        assert m in bins[i].members;
        assert m < q;
      } else {
        assert m in bins[i].members;
      }
    }
  }

  lemma {:induction false} InsertMembers(bins: seq<Bin>, s: Estimate, q: nat)
    ensures Members(Insert(bins, s, q)) == Members(bins) + {q}
  {
    var r := Insert(bins, s, q);
    if |bins| == 0 {
      assert r[1..] == [];
      assert (set m | m in r[0].members) == {q};
    } else if Near(bins[0].value, s) {
      assert r[1..] == bins[1..];
      assert (set m | m in r[0].members) == (set m | m in bins[0].members) + {q};
    } else {
      InsertMembers(bins[1..], s, q);
      assert r[0] == bins[0];
      assert r[1..] == Insert(bins[1..], s, q);
    }
  }

  lemma {:induction false} InsertCounts(bins: seq<Bin>, s: Estimate, q: nat)
    ensures Total(Insert(bins, s, q)) == Total(bins) + 1
  {
    if |bins| == 0 {
    } else if Near(bins[0].value, s) {
      assert ([Merge(bins[0], s, q)] + bins[1..])[1..] == bins[1..];
    } else {
      InsertCounts(bins[1..], s, q);
      assert ([bins[0]] + Insert(bins[1..], s, q))[1..] == Insert(bins[1..], s, q);
    }
  }
}
