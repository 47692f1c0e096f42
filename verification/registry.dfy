/** Found ellipses and the partition of the working list of interest points
    that an accepted ellipse performs. */
module Registry {
  import opened Geometry
  import opened Voting

  /** A found ellipse: centre, full major and minor axis lengths, the major
      axis direction, the two axis ends, and the interest points that were
      taken out of the working list for it. The display colour is left out. */
  datatype Ellipse = Ellipse(
    center: Vec, major: real, minor: real, angle: real,
    p1: Vec, p2: Vec, points: seq<Ray>)

  /** A point leaves the working list when it voted in the winning bin or
      is one of the two axis ends. */
  predicate Removed(members: seq<nat>, p1: nat, p2: nat, p: nat)
  {
    p in members || p == p1 || p == p2
  }

  /** The indices below `k` that leave, in ascending order. */
  function RemovedIndices(members: seq<nat>, p1: nat, p2: nat, k: nat): seq<nat>
  {
    if k == 0 then []
    else RemovedIndices(members, p1, p2, k - 1) + (if Removed(members, p1, p2, k - 1) then [k - 1] else [])
  }

  /** The indices below `k` that stay, in ascending order. */
  function KeptIndices(members: seq<nat>, p1: nat, p2: nat, k: nat): seq<nat>
  {
    if k == 0 then []
    else KeptIndices(members, p1, p2, k - 1) + (if Removed(members, p1, p2, k - 1) then [] else [k - 1])
  }

  datatype Split = Split(keep: seq<Ray>, taken: seq<Ray>)

  /** The loop that rebuilds the working list: points `0 .. k-1` in order,
      each pushed onto the new list or onto the ellipse's own list. */
  function Partition(poi: seq<Ray>, members: seq<nat>, p1: nat, p2: nat, k: nat): Split
    requires k <= |poi|
  {
    if k == 0 then Split([], [])
    else
      var s := Partition(poi, members, p1, p2, k - 1);
      if Removed(members, p1, p2, k - 1) then Split(s.keep, s.taken + [poi[k - 1]])
      else Split(s.keep + [poi[k - 1]], s.taken)
  }

  /** The picture of `poi` at the given indices. */
  predicate Picks(xs: seq<Ray>, poi: seq<Ray>, idx: seq<nat>)
  {
    && |xs| == |idx|
    && (forall j :: 0 <= j < |idx| ==> idx[j] < |poi| && xs[j] == poi[idx[j]])
  }

  /** The partition is exact and order-preserving: the kept list holds the
      points at the kept indices and the ellipse's list those at the removed
      indices, both in their original order. */
  lemma {:induction false} PartitionExact(poi: seq<Ray>, members: seq<nat>, p1: nat, p2: nat, k: nat)
    requires k <= |poi|
    ensures Picks(Partition(poi, members, p1, p2, k).keep, poi, KeptIndices(members, p1, p2, k))
    ensures Picks(Partition(poi, members, p1, p2, k).taken, poi, RemovedIndices(members, p1, p2, k))
    decreases k
  {
    if k > 0 {
      PartitionExact(poi, members, p1, p2, k - 1);
      var s := Partition(poi, members, p1, p2, k - 1);
      if Removed(members, p1, p2, k - 1) {
        assert RemovedIndices(members, p1, p2, k) == RemovedIndices(members, p1, p2, k - 1) + [k - 1];
        assert KeptIndices(members, p1, p2, k) == KeptIndices(members, p1, p2, k - 1);
        PicksSnoc(s.taken, poi, RemovedIndices(members, p1, p2, k - 1), k - 1);
      } else {
        assert KeptIndices(members, p1, p2, k) == KeptIndices(members, p1, p2, k - 1) + [k - 1];
        assert RemovedIndices(members, p1, p2, k) == RemovedIndices(members, p1, p2, k - 1);
        PicksSnoc(s.keep, poi, KeptIndices(members, p1, p2, k - 1), k - 1);
      }
    }
  }

  lemma PicksSnoc(xs: seq<Ray>, poi: seq<Ray>, idx: seq<nat>, i: nat)
    requires Picks(xs, poi, idx) && i < |poi|
    ensures Picks(xs + [poi[i]], poi, idx + [i])
  {
  }

  /** Nothing is lost or duplicated: the two lists together are the points
      considered, as a multiset. */
  lemma {:induction false} PartitionConserves(poi: seq<Ray>, members: seq<nat>, p1: nat, p2: nat, k: nat)
    requires k <= |poi|
    ensures multiset(Partition(poi, members, p1, p2, k).keep) + multiset(Partition(poi, members, p1, p2, k).taken)
      == multiset(poi[..k])
    decreases k
  {
    if k > 0 {
      PartitionConserves(poi, members, p1, p2, k - 1);
      var s := Partition(poi, members, p1, p2, k - 1);
      var t := Partition(poi, members, p1, p2, k);
      var x := poi[k - 1];
      PrefixSnoc(poi, k);
      if Removed(members, p1, p2, k - 1) {
        assert t == Split(s.keep, s.taken + [x]);
        Snoc(s.taken, x);
      } else {
        assert t == Split(s.keep + [x], s.taken);
        Snoc(s.keep, x);
      }
      assert multiset(t.keep) + multiset(t.taken) == multiset(s.keep) + multiset(s.taken) + multiset{x};
    }
  }

  lemma Snoc<T>(xs: seq<T>, x: T)
    ensures multiset(xs + [x]) == multiset(xs) + multiset{x}
  {
  }

  lemma PrefixSnoc<T>(xs: seq<T>, k: nat)
    requires 0 < k <= |xs|
    ensures multiset(xs[..k]) == multiset(xs[..k - 1]) + multiset{xs[k - 1]}
  {
    assert xs[..k] == xs[..k - 1] + [xs[k - 1]];
  }

  /** Each index below `k` is in exactly one of the two index lists,
      according to whether it leaves. */
  lemma {:induction false} IndicesExactly(members: seq<nat>, p1: nat, p2: nat, k: nat, p: nat)
    ensures p in RemovedIndices(members, p1, p2, k) <==> p < k && Removed(members, p1, p2, p)
    ensures p in KeptIndices(members, p1, p2, k) <==> p < k && !Removed(members, p1, p2, p)
    decreases k
  {
    if k > 0 {
      IndicesExactly(members, p1, p2, k - 1, p);
    }
  }

  /** A strictly increasing list holds each of its elements once. */
  lemma {:induction false} IncreasingOnce(xs: seq<nat>, x: nat)
    requires Increasing(xs)
    ensures multiset(xs)[x] == if x in xs then 1 else 0
    decreases |xs|
  {
    if |xs| > 0 {
      var init := xs[..|xs| - 1];
      assert xs == init + [xs[|xs| - 1]];
      assert Increasing(init);
      IncreasingOnce(init, x);
      assert xs[|xs| - 1] !in init;
    }
  }

  /** Each index below `k` that leaves is in the removed list once. */
  lemma {:induction false} RemovedOnce(members: seq<nat>, p1: nat, p2: nat, k: nat, x: nat)
    ensures multiset(RemovedIndices(members, p1, p2, k))[x] == if x < k && Removed(members, p1, p2, x) then 1 else 0
    decreases k
  {
    if k > 0 {
      RemovedOnce(members, p1, p2, k - 1, x);
      var r0 := RemovedIndices(members, p1, p2, k - 1);
      var before := multiset(r0)[x];
      var after := multiset(RemovedIndices(members, p1, p2, k))[x];
      if Removed(members, p1, p2, k - 1) {
        assert RemovedIndices(members, p1, p2, k) == r0 + [k - 1];
        Snoc(r0, k - 1);
        assert after == before + (if x == k - 1 then 1 else 0);
      } else {
        assert after == before;
      }
      assert after == if x < k && Removed(members, p1, p2, x) then 1 else 0;
    }
  }

  /** How many points an accepted ellipse takes: when the winning bin lists
      distinct indices of the working list, none of them an axis end, the
      ellipse takes exactly those points plus the two axis ends. */
  lemma RemovedCount(members: seq<nat>, p1: nat, p2: nat, n: nat)
    requires Increasing(members)
    requires forall m :: m in members ==> m < n && m != p1 && m != p2
    requires p1 < n && p2 < n && p1 != p2
    ensures |RemovedIndices(members, p1, p2, n)| == |members| + 2
  {
    var r := RemovedIndices(members, p1, p2, n);
    var taken: multiset<nat> := multiset(r);
    var ends: multiset<nat> := multiset{p1, p2};
    var expected := multiset(members) + ends;
    forall x: nat
      ensures taken[x] == expected[x]
    {
      RemovedOnce(members, p1, p2, n, x);
      IncreasingOnce(members, x);
    }
    assert taken == expected;
    assert |taken| == |r|;
    assert |multiset(members)| == |members|;
  }

  /** The partition performed on acceptance, over the whole working list:
      the two lists together are the old list as a multiset, the ellipse
      takes the winning bin's points and both axis ends, and the new list
      holds the rest. */
  lemma PartitionTakes(poi: seq<Ray>, members: seq<nat>, p1: nat, p2: nat)
    requires Increasing(members)
    requires forall m :: m in members ==> m < |poi| && m != p1 && m != p2
    requires p1 < |poi| && p2 < |poi| && p1 != p2
    ensures var s := Partition(poi, members, p1, p2, |poi|);
      && multiset(s.keep) + multiset(s.taken) == multiset(poi)
      && |s.taken| == |members| + 2
      && |s.keep| + |s.taken| == |poi|
      && poi[p1] in s.taken && poi[p2] in s.taken
  {
    var n := |poi|;
    var s := Partition(poi, members, p1, p2, n);
    RemovedCount(members, p1, p2, n);
    PartitionExact(poi, members, p1, p2, n);
    PartitionConserves(poi, members, p1, p2, n);
    assert poi[..n] == poi;
    assert |multiset(s.keep) + multiset(s.taken)| == |poi|;
    IndicesExactly(members, p1, p2, n, p1);
    IndicesExactly(members, p1, p2, n, p2);
    PicksAt(s.taken, poi, RemovedIndices(members, p1, p2, n), p1);
    PicksAt(s.taken, poi, RemovedIndices(members, p1, p2, n), p2);
  }

  lemma PicksAt(xs: seq<Ray>, poi: seq<Ray>, idx: seq<nat>, i: nat)
    requires Picks(xs, poi, idx) && i in idx
    ensures i < |poi| && poi[i] in xs
  {
    var j :| 0 <= j < |idx| && idx[j] == i;
    assert xs[j] == poi[i];
  }
}
