/** The incremental pair scan: one `(p1, p2)` pair of the working list is
    examined per animation frame, in row-major order. */
module Scan {
  import opened Basics

  datatype Cursor = Cursor(p1: int, p2: int)

  datatype Advanced = Done | Next(at: Cursor)

  /** The cursor step made at the start of every calculating frame over a
      working list of `n` points: move `p2` on; past the end of a row wrap
      to the start of the next `p1`; past the last row the scan is over. */
  function Advance(c: Cursor, n: nat): Advanced
  {
    if c.p2 + 1 >= n then
      if c.p1 + 1 >= n then Done else Next(Cursor(c.p1 + 1, 0))
    else Next(Cursor(c.p1, c.p2 + 1))
  }

  /** The cursor states a scan can be in between frames: the start of a
      scan (`(0, 0)` after the key press, `(0, -1)` after an accepted
      ellipse) or the last pair examined. */
  predicate Ready(c: Cursor, n: nat)
  {
    && 0 <= c.p1 && -1 <= c.p2
    && (n > 0 ==> c.p1 < n && c.p2 < n)
    && (n == 0 ==> c.p1 == 0 && c.p2 <= 0)
  }

  /** Row-major number of the next pair the scan will examine. */
  function Position(c: Cursor, n: nat): int
  {
    c.p1 * n + c.p2 + 1
  }

  /** A start-of-scan cursor stays ready whatever list it is later run on. */
  lemma ReadyOnEmpty(c: Cursor, n: nat)
    requires Ready(c, 0)
    ensures Ready(c, n)
  {
  }

  /** One step of the scan moves to the next pair in row-major order, and
      stops exactly when every pair has been examined. */
  lemma AdvanceStep(c: Cursor, n: nat)
    requires Ready(c, n)
    ensures Position(c, n) >= 0
    ensures Advance(c, n).Done? <==> Position(c, n) >= n * n
    ensures Advance(c, n).Next? ==>
      && Ready(Advance(c, n).at, n)
      && 0 <= Advance(c, n).at.p1 < n && 0 <= Advance(c, n).at.p2 < n
      && Position(Advance(c, n).at, n) == Position(c, n) + 1
      && Advance(c, n).at == Cursor(Position(c, n) / n, Position(c, n) % n)
  {
    var pos := Position(c, n);
    if n > 0 {
      RowBound(c.p1, n);
      if c.p2 + 1 >= n {
        assert pos == c.p1 * n + n;
        if c.p1 + 1 < n {
          RowBound(c.p1 + 1, n);
          RowMajorDivMod(pos, n, 0, c.p1 + 1);
        }
      } else {
        RowMajorDivMod(pos, n, c.p2 + 1, c.p1);
      }
    }
  }

  /** Row `p1` of an `n` by `n` grid ends within the grid:
      `(p1 + 1) n <= n^2`. */
  lemma RowBound(p1: int, n: int)
    requires 0 <= p1 < n
    ensures 0 <= p1 * n && p1 * n + n <= n * n && (p1 + 1) * n == p1 * n + n
  {
    MulLe(0, p1, n);
    MulLe(p1 + 1, n, n);
  }

  lemma MulLe(a: int, b: int, n: int)
    requires a <= b && 0 <= n
    ensures a * n <= b * n
  {
    var d := b - a;
    assert d * n >= 0;
    assert b * n == a * n + d * n;
  }

  /** The pairs a scan from `c` goes on to examine when nothing interrupts
      it, in order. */
  function Schedule(c: Cursor, n: nat): seq<Cursor>
    requires Ready(c, n)
    decreases n * n - Position(c, n)
  {
    AdvanceStep(c, n);
    match Advance(c, n)
    case Done => []
    case Next(d) => [d] + Schedule(d, n)
  }

  /** An uninterrupted scan examines the pairs from the cursor's position
      to the end of the last row, each once, in row-major order. */
  lemma {:induction false} ScheduleRowMajor(c: Cursor, n: nat)
    requires Ready(c, n)
    ensures |Schedule(c, n)| == if Position(c, n) >= n * n then 0 else n * n - Position(c, n)
    ensures forall k :: 0 <= k < |Schedule(c, n)| ==>
      Schedule(c, n)[k] == Cursor((Position(c, n) + k) / n, (Position(c, n) + k) % n)
    decreases n * n - Position(c, n)
  {
    AdvanceStep(c, n);
    match Advance(c, n)
    case Done =>
    case Next(d) =>
      ScheduleRowMajor(d, n);
      var s := Schedule(c, n);
      assert s == [d] + Schedule(d, n);
      forall k | 0 <= k < |s|
        ensures s[k] == Cursor((Position(c, n) + k) / n, (Position(c, n) + k) % n)
      {
        if k > 0 {
          assert s[k] == Schedule(d, n)[k - 1];
        }
      }
  }

  /** Every pair `(i, j)` of a list of `n` points at row-major number at
      least `Position(c, n)` is among the pairs the scan examines. */
  lemma ScheduleCovers(c: Cursor, n: nat, i: nat, j: nat)
    requires Ready(c, n)
    requires i < n && j < n && Position(c, n) <= i * n + j
    ensures Cursor(i, j) in Schedule(c, n)
  {
    ScheduleRowMajor(c, n);
    RowBound(i, n);
    var k := i * n + j - Position(c, n);
    RowMajorDivMod(i * n + j, n, j, i);
    assert Schedule(c, n)[k] == Cursor(i, j);
  }

  /** The scan the space key starts, from `(0, 0)`, examines the `n^2 - 1`
      pairs other than `(0, 0)`; the one restarted after an accepted ellipse,
      from `(0, -1)`, examines all `n^2` pairs. */
  lemma ScanLengths(n: nat)
    requires n > 0
    ensures |Schedule(Cursor(0, 0), n)| == n * n - 1
    ensures Cursor(0, 0) !in Schedule(Cursor(0, 0), n)
    ensures |Schedule(Cursor(0, -1), n)| == n * n
    ensures forall i: nat, j: nat :: i < n && j < n ==> Cursor(i, j) in Schedule(Cursor(0, -1), n)
  {
    ScheduleRowMajor(Cursor(0, 0), n);
    ScheduleRowMajor(Cursor(0, -1), n);
    assert n * n >= 1;
    var s := Schedule(Cursor(0, 0), n);
    forall k | 0 <= k < |s|
      ensures s[k] != Cursor(0, 0)
    {
      assert s[k] == Cursor((1 + k) / n, (1 + k) % n);
      if (1 + k) / n == 0 {
        assert (1 + k) % n == 1 + k;
      }
    }
    forall i: nat, j: nat | i < n && j < n
      ensures Cursor(i, j) in Schedule(Cursor(0, -1), n)
    {
      ScheduleCovers(Cursor(0, -1), n, i, j);
    }
  }
}
