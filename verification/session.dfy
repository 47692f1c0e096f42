/** The per-frame state machine around the detector: the scene reset when
    the camera moves, the space key that starts a scan, the `+` key that
    switches views, and the calculating frame that examines one pair.

    Two calculating frames are given. `TickAsWritten` extracts interest
    points whenever the working list is empty; `Tick` extracts them once per
    view, recorded by the `scanned` flag, and is the one `Frame` uses. */
module Session {
  import opened Basics
  import opened Geometry
  import opened Extraction
  import opened Registry
  import opened Detection
  import opened Scan

  /** What the host supplies to a frame: the gradient image of the current
      view, the sample coordinates, the shuffle's random draws, the
      per-pair measurements, and the square root. */
  datatype Host = Host(
    gradient: Image, samples: seq<Vec>, pick: nat -> nat,
    geometry: (seq<Ray>, nat, nat) -> PairGeometry, sqrt: real -> real)

  ghost predicate HostOk(h: Host)
  {
    && (forall k: nat :: h.pick(k) <= k)
    && (forall x :: 0.0 <= x ==> 0.0 <= h.sqrt(x))
  }

  /** The detector's global variables: the working list `poi`, the found
      ellipses, `calculatingEllipses`, the pair cursor, `loadMars`, and
      whether the current view's interest points have been extracted. */
  datatype State = State(
    poi: seq<Ray>, ellipses: seq<Ellipse>, calculating: bool,
    cursor: Cursor, mars: bool, scanned: bool)

  const Initial: State := State([], [], false, Cursor(0, -1), true, false)

  /** A calculating state has a cursor that is ready for its working list,
      and a view not yet extracted has neither points nor ellipses. */
  predicate Valid(s: State)
  {
    && (s.calculating ==> Ready(s.cursor, |s.poi|))
    && (!s.scanned ==> s.poi == [] && s.ellipses == [])
  }

  /** The interest points of the current view. */
  function Extract(h: Host, mars: bool): seq<Ray>
    requires HostOk(h)
  {
    FindPoi(h.gradient, h.samples, mars, h.pick)
  }

  /** Every interest point held by the state: the working list and the
      points of every ellipse, as one multiset. */
  function Pool(s: State): multiset<Ray>
  {
    multiset(s.poi) + EllipsePoints(s.ellipses)
  }

  function EllipsePoints(es: seq<Ellipse>): multiset<Ray>
  {
    if |es| == 0 then multiset{} else EllipsePoints(es[..|es| - 1]) + multiset(es[|es| - 1].points)
  }

  lemma EllipsePointsAppend(es: seq<Ellipse>, e: Ellipse)
    ensures EllipsePoints(es + [e]) == EllipsePoints(es) + multiset(e.points)
  {
    assert (es + [e])[..|es|] == es;
  }

  /** A frame in which the camera moved: the working list and the ellipses
      are dropped and the scan stops; the cursor is left as it is. */
  function Moved(s: State): State
  {
    s.(poi := [], ellipses := [], calculating := false, scanned := false)
  }

  /** `keyPressed`: the space key (32) starts a scan from `(0, 0)` over the
      current working list, the `+`/`=` key (61) switches between the Mars
      view and the test view. */
  function KeyPressed(s: State, key: int): State
  {
    if key == 32 then s.(calculating := true, cursor := Cursor(0, 0))
    else if key == 61 then s.(mars := !s.mars)
    else s
  }

  /** The rest of a calculating frame once the working list `poi` is
      settled: advance the cursor, stop past the last pair, otherwise run
      the detector on the new pair; an accepted ellipse is recorded, the
      working list replaced, and the cursor set back to `(0, -1)`. */
  function Step(s: State, poi: seq<Ray>, h: Host): State
    requires HostOk(h) && s.calculating && Ready(s.cursor, |poi|)
  {
    AdvanceStep(s.cursor, |poi|);
    match Advance(s.cursor, |poi|)
    case Done => s.(poi := poi, calculating := false, cursor := Cursor(-1, -1))
    case Next(c) =>
      match PairStep(poi, c.p1, c.p2, h.geometry(poi, c.p1, c.p2), h.sqrt)
      case NoEllipse => s.(poi := poi, cursor := c)
      case Found(e, rest) => s.(poi := rest, ellipses := s.ellipses + [e], cursor := Cursor(0, -1))
  }

  /** A calculating frame as the detector is written: it extracts interest
      points whenever the working list is empty. */
  function TickAsWritten(s: State, h: Host): State
    requires HostOk(h) && s.calculating && Ready(s.cursor, |s.poi|)
  {
    if |s.poi| == 0 then
      ReadyOnEmpty(s.cursor, |Extract(h, s.mars)|);
      Step(s, Extract(h, s.mars), h)
    else Step(s, s.poi, h)
  }

  /** A calculating frame that extracts interest points once per view. */
  function Tick(s: State, h: Host): State
    requires HostOk(h) && s.calculating && Valid(s)
  {
    if s.scanned then Step(s, s.poi, h)
    else
      ReadyOnEmpty(s.cursor, |Extract(h, s.mars)|);
      Step(s.(scanned := true), Extract(h, s.mars), h)
  }

  /** One call of `draw`: a moved camera resets the scene, a calculating
      frame advances the scan, any other frame only draws. */
  function Frame(s: State, moved: bool, h: Host): State
    requires HostOk(h) && Valid(s)
  {
    if moved then Moved(s)
    else if s.calculating then Tick(s, h)
    else s
  }

  /** A frame step keeps the cursor ready for the working list, only ever
      appends ellipses, and never changes the view selection; a step that
      records an ellipse restarts the scan from `(0, -1)`. */
  lemma StepValid(s: State, poi: seq<Ray>, h: Host)
    requires HostOk(h) && s.calculating && Ready(s.cursor, |poi|)
    ensures var t := Step(s, poi, h);
      && (t.calculating ==> Ready(t.cursor, |t.poi|))
      && (t.ellipses == s.ellipses || (|t.ellipses| == |s.ellipses| + 1 && t.ellipses[..|s.ellipses|] == s.ellipses))
      && t.mars == s.mars && t.scanned == s.scanned
      && (!t.calculating ==> t.cursor == Cursor(-1, -1))
      && (|t.ellipses| == |s.ellipses| + 1 ==> t.cursor == Cursor(0, -1) && t.calculating)
  {
    AdvanceStep(s.cursor, |poi|);
    match Advance(s.cursor, |poi|)
    case Done =>
    case Next(c) =>
      match PairStep(poi, c.p1, c.p2, h.geometry(poi, c.p1, c.p2), h.sqrt)
      case NoEllipse =>
        assert Step(s, poi, h) == s.(poi := poi, cursor := c);
      case Found(e, rest) =>
        assert (s.ellipses + [e])[..|s.ellipses|] == s.ellipses;
  }

  /** A frame step moves points between the working list and a new ellipse
      but never creates or loses one. */
  lemma StepPool(s: State, poi: seq<Ray>, h: Host)
    requires HostOk(h) && s.calculating && Ready(s.cursor, |poi|)
    ensures Pool(Step(s, poi, h)) == multiset(poi) + EllipsePoints(s.ellipses)
  {
    AdvanceStep(s.cursor, |poi|);
    match Advance(s.cursor, |poi|)
    case Done =>
    case Next(c) =>
      var g := h.geometry(poi, c.p1, c.p2);
      match PairStep(poi, c.p1, c.p2, g, h.sqrt)
      case NoEllipse =>
      case Found(e, rest) =>
        FoundPartitions(poi, c.p1, c.p2, g, h.sqrt);
        EllipsePointsAppend(s.ellipses, e);
  }

  /** Every transition keeps a state valid. */
  lemma FrameValid(s: State, moved: bool, key: int, h: Host)
    requires HostOk(h) && Valid(s)
    ensures Valid(Frame(s, moved, h))
    ensures Valid(KeyPressed(s, key))
  {
    if !moved && s.calculating {
      TickValid(s, h);
    }
  }

  lemma TickValid(s: State, h: Host)
    requires HostOk(h) && Valid(s) && s.calculating
    ensures Valid(Tick(s, h))
  {
    if s.scanned {
      StepValid(s, s.poi, h);
    } else {
      ReadyOnEmpty(s.cursor, |Extract(h, s.mars)|);
      StepValid(s.(scanned := true), Extract(h, s.mars), h);
    }
  }

  /** Once a view has been extracted, its interest points are conserved:
      each is either still in the working list or in exactly one ellipse.
      The first calculating frame of a view makes the pool exactly the
      view's interest points. */
  lemma TickConserves(s: State, h: Host)
    requires HostOk(h) && s.calculating && Valid(s)
    ensures Tick(s, h).scanned
    ensures s.scanned ==> Pool(Tick(s, h)) == Pool(s)
    ensures !s.scanned ==> Pool(Tick(s, h)) == multiset(Extract(h, s.mars))
  {
    if s.scanned {
      StepPool(s, s.poi, h);
      StepValid(s, s.poi, h);
    } else {
      ReadyOnEmpty(s.cursor, |Extract(h, s.mars)|);
      StepPool(s.(scanned := true), Extract(h, s.mars), h);
      StepValid(s.(scanned := true), Extract(h, s.mars), h);
    }
  }

  /** The detector as written: a calculating frame that finds the working
      list empty adds the view's interest points to the pool again, on top
      of those already held by the ellipses. */
  lemma TickAsWrittenRefills(s: State, h: Host)
    requires HostOk(h) && s.calculating && Ready(s.cursor, |s.poi|)
    ensures |s.poi| == 0 ==> Pool(TickAsWritten(s, h)) == multiset(Extract(h, s.mars)) + EllipsePoints(s.ellipses)
    ensures |s.poi| > 0 ==> Pool(TickAsWritten(s, h)) == Pool(s)
  {
    if |s.poi| == 0 {
      ReadyOnEmpty(s.cursor, |Extract(h, s.mars)|);
      StepPool(s, Extract(h, s.mars), h);
    } else {
      StepPool(s, s.poi, h);
    }
  }

  /** Scan progress: lexicographically, first whether the view still has to
      be extracted, then the size of the working list, then the pairs left. */
  function Remaining(s: State): int
  {
    |s.poi| * |s.poi| - Position(s.cursor, |s.poi|)
  }

  /** Every calculating frame makes progress: it stops the scan, extracts
      the view, removes points from the working list, or moves to the next
      pair. */
  lemma TickProgress(s: State, h: Host)
    requires HostOk(h) && s.calculating && Valid(s)
    ensures var t := Tick(s, h);
      || !t.calculating
      || !s.scanned
      || |t.poi| < |s.poi|
      || (|t.poi| == |s.poi| && 0 <= Remaining(t) < Remaining(s))
  {
    var t := Tick(s, h);
    if s.scanned && t.calculating {
      var n := |s.poi|;
      AdvanceStep(s.cursor, n);
      match Advance(s.cursor, n)
      case Done =>
      case Next(c) =>
        var g := h.geometry(s.poi, c.p1, c.p2);
        match PairStep(s.poi, c.p1, c.p2, g, h.sqrt)
        case NoEllipse =>
          AdvanceStep(c, n);
        case Found(e, rest) =>
          FoundPartitions(s.poi, c.p1, c.p2, g, h.sqrt);
    }
  }

  /** Left alone, a scan ends: the final state of the frames that follow a
      valid calculating state, with the host unchanged, is no longer
      calculating, still valid, and holds the same ellipses plus the ones
      found on the way. */
  function Settle(s: State, h: Host): (t: State)
    requires HostOk(h) && Valid(s)
    ensures !t.calculating && Valid(t)
    ensures |s.ellipses| <= |t.ellipses| && t.ellipses[..|s.ellipses|] == s.ellipses
    ensures s.scanned ==> Pool(t) == Pool(s)
    decreases s.calculating, !s.scanned, |s.poi|, Remaining(s)
  {
    if !s.calculating then s
    else
      var t := Tick(s, h);
      FrameValid(s, false, 0, h);
      TickProgress(s, h);
      TickConserves(s, h);
      TickAppends(s, h);
      var r := Settle(t, h);
      assert r.ellipses[..|s.ellipses|] == r.ellipses[..|t.ellipses|][..|s.ellipses|];
      r
  }

  lemma TickAppends(s: State, h: Host)
    requires HostOk(h) && s.calculating && Valid(s)
    ensures |s.ellipses| <= |Tick(s, h).ellipses| && Tick(s, h).ellipses[..|s.ellipses|] == s.ellipses
  {
    if s.scanned {
      StepValid(s, s.poi, h);
    } else {
      ReadyOnEmpty(s.cursor, |Extract(h, s.mars)|);
      StepValid(s.(scanned := true), Extract(h, s.mars), h);
    }
  }

  /** `2 k` frames of the detector as written without camera movement,
      with the host unchanged. */
  function RunAsWritten(s: State, h: Host, k: nat): State
    requires HostOk(h)
  {
    if k == 0 then s else FrameAsWritten(FrameAsWritten(RunAsWritten(s, h, k - 1), h), h)
  }

  /** A frame of the detector as written without camera movement. */
  function FrameAsWritten(s: State, h: Host): State
    requires HostOk(h)
  {
    if s.calculating && Ready(s.cursor, |s.poi|) then TickAsWritten(s, h) else s
  }

  /** The view's interest points `x` hold an ellipse `e` on the pair
      `(0, 1)` that takes every one of them. */
  ghost predicate TakesAll(h: Host, mars: bool, e: Ellipse)
  {
    && HostOk(h)
    && var x := Extract(h, mars);
    && |x| >= 2
    && PairStep(x, 0, 1, h.geometry(x, 0, 1), h.sqrt) == Found(e, [])
  }

  /** The detector as written, right after the pair `(0, 1)` found an
      ellipse that took every point of the view: the next frame extracts the same points again and
      examines the self-pair `(0, 0)`, the one after finds the same ellipse
      again and empties the working list, and the scan is back where it
      was with one more copy of the ellipse. */
  lemma AsWrittenCycle(s: State, h: Host, e: Ellipse)
    requires s.calculating && s.poi == [] && s.cursor == Cursor(0, -1) && TakesAll(h, s.mars, e)
    ensures TickAsWritten(TickAsWritten(s, h), h) == s.(ellipses := s.ellipses + [e])
  {
    AsWrittenRefetch(s, h, e);
    AsWrittenRefind(s.(poi := Extract(h, s.mars), cursor := Cursor(0, 0)), h, e);
  }

  lemma AsWrittenRefetch(s: State, h: Host, e: Ellipse)
    requires s.calculating && s.poi == [] && s.cursor == Cursor(0, -1) && TakesAll(h, s.mars, e)
    ensures TickAsWritten(s, h) == s.(poi := Extract(h, s.mars), cursor := Cursor(0, 0))
  {
    ReadyOnEmpty(s.cursor, |Extract(h, s.mars)|);
    assert Advance(s.cursor, |Extract(h, s.mars)|) == Next(Cursor(0, 0));
  }

  lemma AsWrittenRefind(t: State, h: Host, e: Ellipse)
    requires t.calculating && t.cursor == Cursor(0, 0) && TakesAll(h, t.mars, e) && t.poi == Extract(h, t.mars)
    ensures TickAsWritten(t, h) == t.(poi := [], ellipses := t.ellipses + [e], cursor := Cursor(0, -1))
  {
    assert Advance(t.cursor, |t.poi|) == Next(Cursor(0, 1));
  }

  /** `k` copies of `e`. */
  function Copies(e: Ellipse, k: nat): (r: seq<Ellipse>)
    ensures |r| == k
  {
    if k == 0 then [] else Copies(e, k - 1) + [e]
  }

  /** So the scan as written never ends: after `2 k` further frames it is
      still calculating and holds `k` more copies of the same ellipse. */
  lemma {:induction false} AsWrittenLoops(s: State, h: Host, e: Ellipse, k: nat)
    requires s.calculating && s.poi == [] && s.cursor == Cursor(0, -1) && TakesAll(h, s.mars, e)
    ensures RunAsWritten(s, h, k) == s.(ellipses := s.ellipses + Copies(e, k))
    decreases k
  {
    if k == 0 {
      assert s.ellipses + Copies(e, 0) == s.ellipses;
    } else {
      AsWrittenLoops(s, h, e, k - 1);
      LoopOnce(s, h, e, k);
    }
  }

  /** One more pair of frames adds one more copy. */
  lemma LoopOnce(s: State, h: Host, e: Ellipse, k: nat)
    requires s.calculating && s.poi == [] && s.cursor == Cursor(0, -1) && TakesAll(h, s.mars, e)
    requires k > 0 && RunAsWritten(s, h, k - 1) == s.(ellipses := s.ellipses + Copies(e, k - 1))
    ensures RunAsWritten(s, h, k) == s.(ellipses := s.ellipses + Copies(e, k))
  {
    var r := s.(ellipses := s.ellipses + Copies(e, k - 1));
    assert RunAsWritten(s, h, k) == FrameAsWritten(FrameAsWritten(r, h), h);
    AsWrittenTwoFrames(r, h, e);
    AppendCopy(s.ellipses, e, k);
    assert r.(ellipses := r.ellipses + [e]) == s.(ellipses := s.ellipses + Copies(e, k));
  }

  /** The same two frames as `AsWrittenCycle`, as the frame loop runs them. */
  lemma AsWrittenTwoFrames(r: State, h: Host, e: Ellipse)
    requires r.calculating && r.poi == [] && r.cursor == Cursor(0, -1) && TakesAll(h, r.mars, e)
    ensures FrameAsWritten(FrameAsWritten(r, h), h) == r.(ellipses := r.ellipses + [e])
  {
    AsWrittenCycle(r, h, e);
    AsWrittenRefetch(r, h, e);
    var t := TickAsWritten(r, h);
    assert FrameAsWritten(r, h) == t;
    assert t.calculating && Ready(t.cursor, |t.poi|);
  }

  lemma AppendCopy(xs: seq<Ellipse>, e: Ellipse, k: nat)
    requires k > 0
    ensures xs + Copies(e, k - 1) + [e] == xs + Copies(e, k)
  {
  }

  /** The corrected frame in the same situation: with the view already
      extracted and the working list empty, the scan stops at once and
      every point stays where it is. */
  lemma CorrectedStops(s: State, h: Host)
    requires HostOk(h) && s.calculating && s.scanned && s.poi == [] && Valid(s)
    ensures !Tick(s, h).calculating
    ensures Tick(s, h).ellipses == s.ellipses
    ensures Pool(Tick(s, h)) == Pool(s)
  {
    AdvanceStep(s.cursor, 0);
  }
}
