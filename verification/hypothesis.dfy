/** The pairwise major-axis test: two interest points may be the two ends
    of an ellipse's major axis when both gradients lie along the segment
    joining them. */
module Hypothesis {
  import opened Basics

  /** `PI / 6` as JavaScript evaluates it (30 degrees). */
  const AxisTolerance: real := 0.5235987755982988

  /** The gate on the four `angleBetween` results: segment p1->p2 and p2->p1
      against the gradient of p1 (`a211`, `a121`) and of p2 (`a212`,
      `a122`). Each point takes the better of its two orientations; the
      worse of the two points must be under the tolerance. */
  function AxisGate(a211: real, a121: real, a212: real, a122: real): (ok: bool)
    ensures ok <==>
      && (Abs(a211) < AxisTolerance || Abs(a121) < AxisTolerance)
      && (Abs(a212) < AxisTolerance || Abs(a122) < AxisTolerance)
  {
    Max(Min(Abs(a211), Abs(a121)), Min(Abs(a212), Abs(a122))) < AxisTolerance
  }
}
