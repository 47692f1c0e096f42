# Crater counter: ellipse voting, in Dafny

This project models the crater-finding core of `craterCounter2.js`, a p5.js
sketch. The sketch samples a gradient image for interest points. Each point
is a `Ray`: a position plus the local gradient. It then runs a Xie–Ji style
ellipse detector on those points, incrementally, one pair `(p1, p2)` per
animation frame. The model covers:

- **Extraction** (`extraction.dfy`): the RGBA byte layout behind
  `getColorAt`/`getGradientAt`, the squared-magnitude threshold of
  `findPOI`, and the Durstenfeld `shuffleArray`. `Math.random` is a `pick`
  oracle that returns `j <= i`.
- **The axis gate** (`hypothesis.dfy`): two points may be the ends of a
  major axis.
- **The semi-minor accumulator** (`voting.dfy`): every other facing point
  within the semimajor distance votes one estimate. The estimate joins the
  first bin within `sThresh = 7`, whose value moves a quarter of the way
  towards it; otherwise it opens a new bin.
- **Scoring and acceptance** (`scoring.dfy`): `ellipseCircumference`,
  `max`/`indexOf`/`argMax`, and the two thresholds.
- **The `Ellipse` record and the order-preserving partition of the working
  list on acceptance** (`registry.dfy`).
- **One call of `stepFindEllipses`** (`detection.dfy`).
- **The pair cursor** (`scan.dfy`).
- **The per-frame state machine of `draw`/`keyPressed`** (`session.dfy`).
- **The host's measurements** (`measure.dfy`): what it means for the
  host's angles, `normalize`, `dist` and square root to agree with the
  interest points they measure.
- **A concrete view on which the detector, as written, never stops**
  (`rescan.dfy`).
- **The optional `Ray.distanceTo`/`pointAt`** (`geometry.dfy`).

Arithmetic is over the reals. The host supplies everything that needs
trigonometry, normalisation or a square root, as inputs:

- the four `angleBetween` results and `atan2`, in `PairGeometry`;
- the per-point `dotcenter`, `d` and `f`, as a `Measurement`;
- the square root, as a function the model only requires to be non-negative
  on non-negative arguments.

`Measure.Measured` states when these inputs agree with the points. It
requires three things:

- the square root is the real one on squares;
- each point's `dotcenter`, `d` and `f` are computed from positions and
  gradients as craterCounter2.js:461-464 computes them;
- the gate angles and `atan2` take their exact values on parallel vectors
  and on the x axis.

JavaScript's `Infinity`/`NaN` from a zero denominator is the `NonFinite`
estimate. Such a bin never merges and scores `NaN`. p5's `max`
(craterCounter2.js:494) is a loop that passes over `NaN`, and `indexOf`
(line 501) never matches `NaN`. So a non-finite bin can neither win nor
block a later finite bin from winning. An accumulator with no finite bin
(in particular an empty one) makes `max` return `-Infinity`, and the
hypothesis is rejected.

Consequences of the code that are easy to miss:

- An accepted ellipse resets the cursor to `(0, -1)`
  (craterCounter2.js:522-523). The next frame therefore examines `(0, 0)`,
  a self-pair.
- A scan started by the space key from `(0, 0)` (craterCounter2.js:246-247)
  examines `n^2 - 1` pairs and skips `(0, 0)` (`Scan.ScanLengths`).
- A moved camera clears the working list, the ellipses and the calculating
  flag, but not the cursor.
- The code re-extracts interest points whenever the working list is empty
  (craterCounter2.js:188-193), not once per view. The comment there says it
  is meant for a scene with no edge information yet. It also fires after an
  ellipse took the last points. This is the finding below.

## Model

| member | source | states |
|---|---|---|
| `Geometry.Midpoint` | craterCounter2.js:447 | the centre of a pair is equidistant from both ends: `m - u == v - m` |
| `Geometry.PointAt` | craterCounter2.js:48-53 | the point at `t` lies on the ray's line, is `pos` at 0 and `pos + dir` at 1 |
| `Geometry.DistanceTo` | craterCounter2.js:21-46 | parallel rays give the sentinel -1; any other result is the one parameter within this ray's extent at which it meets the other ray's line |
| `Extraction.ColorAt` | craterCounter2.js:331-336 | a pixel's bytes are read at `(x + y w) 4`; the read is defined exactly when that offset and the blue byte lie inside the buffer |
| `Extraction.OffsetRoundTrip` | craterCounter2.js:334 | inside the image each pixel owns four aligned bytes and `(x, y)` is recovered from the offset |
| `Extraction.InsideIsDefined` | craterCounter2.js:331-336 | every pixel of a correctly sized buffer can be read |
| `Extraction.GradientAt` | craterCounter2.js:339-343 | the gradient decodes the red and blue channels as `channel / 128 - 1`, each in `[-1, 127/128]`, and the channel bytes are recovered from it |
| `Extraction.Select` | craterCounter2.js:397-405 | a single sample gives its point exactly when its squared gradient exceeds 0.04 (Mars) or 0.64 (test view); every kept point is a kept sample as a ray with its gradient as direction, and every kept sample appears |
| `Extraction.SelectAppend` | craterCounter2.js:397-405 | selecting over two runs of samples keeps each run's points in sampling order, one after the other, so the result is the order-preserving filter with one point per kept sample |
| `Extraction.Shuffle` | craterCounter2.js:346-354 | for every sequence of random draws `j <= i`, the shuffle is a permutation of its input |
| `Extraction.FindPoi` | craterCounter2.js:372-408 | the view's interest points are the kept samples, as a multiset, in shuffled order |
| `Hypothesis.AxisGate` | craterCounter2.js:439-444 | the gate passes iff each axis end has one of its two angles under `PI/6` |
| `Voting.CosTauSq` | craterCounter2.js:469-470 | `cos^2 tau` is clamped into `[0, 1]` |
| `Voting.Semiminor` | craterCounter2.js:469-472 | a finite estimate is non-negative; the estimate is non-finite exactly when the point is at distance `a` and the clamped `cos^2 tau` is 1 |
| `Voting.DenominatorVanishes` | craterCounter2.js:472 | for `0 < d <= a` the denominator `a^2 - d^2 cos^2 tau` is non-negative, and zero iff `d == a` and `cos^2 tau == 1` |
| `Voting.RadicandNonNegative` | craterCounter2.js:471-472 | the quotient under the square root is non-negative whenever its denominator is not zero |
| `Voting.Merge` | craterCounter2.js:478-481 | a merged bin's value stays between the old value and the sample and moves by less than `sThresh / 4`; the count grows by one and the index is appended |
| `Voting.FirstNear` | craterCounter2.js:477-478 | the bin chosen is the first whose value is within 7 of the sample, or none |
| `Voting.InsertPlacement` | craterCounter2.js:476-489 | a vote merges into the first near bin and leaves every other bin unchanged; with no near bin exactly one bin `[s, 1, [p]]` is appended |
| `Voting.VotersExactly` | craterCounter2.js:455-467 | a point votes iff it is neither axis end, faces the centre within 45 degrees and is at most `a` from the centre |
| `Voting.AccumulateAccounted` | craterCounter2.js:455-491 | after the pass every count equals the length of its index list, index lists are strictly increasing, below `n` and pairwise disjoint, and finite values are non-negative |
| `Voting.AccumulateMembers` | craterCounter2.js:455-491 | the indices recorded in the bins are exactly the voters |
| `Voting.NonVotersAbsent` | craterCounter2.js:457-467 | neither axis end, nor any point farther than the semimajor from the centre, is in any bin |
| `Voting.AccumulateTotal` | craterCounter2.js:476-489 | the counts add up to the number of voters |
| `Voting.CommonEstimate` | craterCounter2.js:476-489 | when every voter gives the same finite estimate `b`, the accumulator is empty or one bin of value `b` counting every voter, in visiting order |
| `Scoring.Circumference` | craterCounter2.js:363-369 | the approximation is at least `PI (a + b)`, so positive |
| `Scoring.ShapeBounds` | craterCounter2.js:367-368 | `h` lies in `[0, 1]`, and in `[0, 1)` for positive semi-axes, so the denominator `64 - 16h` is at least 48 |
| `Scoring.CircumferenceAtMost` | craterCounter2.js:363-369 | the approximation is at most `2 PI (a + b)` |
| `Scoring.CircumferenceSymmetric` | craterCounter2.js:363-369 | the approximation is symmetric in `a` and `b` |
| `Scoring.CircleCircumference` | craterCounter2.js:363-369 | for `a == b` it equals `2 PI a` |
| `Scoring.AccumulateScorable` | craterCounter2.js:493 | every accumulator the voting pass builds can be scored: a positive semimajor when a bin exists and non-negative finite values |
| `Scoring.ScoreOf` | craterCounter2.js:493 | a bin's score is non-negative and times the circumference gives its count |
| `Scoring.MaxOf` | craterCounter2.js:494 | on all-number scores, the maximum is one of them and bounds them all |
| `Scoring.MaxScore` | craterCounter2.js:494 | p5's `max` finds no number exactly when every score is `NaN`; otherwise it returns a score that is a number and bounds every other number, passing over `NaN` |
| `Scoring.IndexOf` | craterCounter2.js:501 | `indexOf` returns the first position holding the value, or -1 exactly when it is absent |
| `Scoring.ArgMaxUpToFirstMax` | craterCounter2.js:357-360 | the `argMax` fold keeps the first maximal index of the prefix it has seen |
| `Scoring.ArgMaxIsIndexOfMax` | craterCounter2.js:357-360 | `argMax` and `indexOf(max(...))` both give the first maximal index |
| `Scoring.Decide` | craterCounter2.js:493-504 | accepting means the first bin with the largest numeric score scores above 0.2 with more than 8 votes; rejecting means no bin has a numeric score or that first best bin misses one threshold |
| `Scoring.NaNScorePassedOver` | craterCounter2.js:493-504 | a non-finite bin in front of a finite bin of value 1 with nine votes does not stop that bin from being accepted at semimajor 0.5 |
| `Registry.PartitionExact` | craterCounter2.js:513-520 | the new list holds exactly the points at the kept indices and the ellipse's list those at the removed indices, both in original order |
| `Registry.IndicesExactly` | craterCounter2.js:515 | an index is removed iff it is in the winning bin or an axis end, and kept otherwise |
| `Registry.PartitionConserves` | craterCounter2.js:513-520 | the two lists together are the points considered, as a multiset |
| `Registry.RemovedCount` | craterCounter2.js:513-520 | the ellipse takes `count + 2` points when the bin lists distinct voters other than the axis ends |
| `Registry.PartitionTakes` | craterCounter2.js:513-521 | on the whole list: nothing lost or duplicated, the ellipse takes `count + 2` points, the two lengths add up to the old length, and both axis ends are taken |
| `Detection.Semimajor` | craterCounter2.js:448 | the semimajor is half the host's distance between the axis ends, non-negative |
| `Detection.PairStep` | craterCounter2.js:434-444 | a self-pair and a pair failing the gate find nothing |
| `Detection.FoundExactly` | craterCounter2.js:444-506 | an ellipse is found iff the pair is proper, passes the gate and the decision accepts; it then has the midpoint as centre, the distance as major axis, twice the winning value as minor axis and the pair's direction as angle |
| `Detection.WinnerMembers` | craterCounter2.js:476-489 | the winning bin lists distinct voters below `n`, one per vote, neither of them an axis end |
| `Detection.FoundPartitions` | craterCounter2.js:502-523 | on acceptance the new list and the ellipse's points together are the old list; the ellipse holds both axis ends and `count + 2` points, which is more than `minPointsThresh + 2` |
| `Scan.AdvanceStep` | craterCounter2.js:195-207 | one cursor step moves to the next pair in row-major order within `[0, n)`, and stops exactly when every pair has been examined |
| `Scan.ScheduleRowMajor` | craterCounter2.js:195-207 | left alone, a scan examines the pairs from the cursor to the end, each once, in row-major order |
| `Scan.ScheduleCovers` | craterCounter2.js:195-207 | every pair at or after the cursor is examined |
| `Scan.ScanLengths` | craterCounter2.js:246-247 | from `(0, 0)` the scan examines the `n^2 - 1` pairs other than `(0, 0)`; from `(0, -1)` it examines all `n^2` |
| `Session.StepValid` | craterCounter2.js:195-209 | a frame step keeps the cursor ready, only appends ellipses, stops with cursor `(-1, -1)`, and after an accepted ellipse restarts from `(0, -1)` |
| `Session.StepPool` | craterCounter2.js:513-523 | a frame step moves points between the working list and a new ellipse, never creating or losing one |
| `Session.FrameValid` | craterCounter2.js:176-252 | camera moves, key presses and calculating frames keep the state valid |
| `Session.TickConserves` | craterCounter2.js:186-209 | with extraction once per view, the view's interest points are each held exactly once, in the working list or in one ellipse |
| `Session.TickAsWrittenRefills` | craterCounter2.js:188-193 | as written, a frame with an empty working list adds the view's points to the pool again, on top of the ellipses' points |
| `Session.TickProgress` | craterCounter2.js:186-209 | every corrected calculating frame stops the scan, extracts the view, shrinks the working list or moves to a later pair |
| `Session.TickAppends` | craterCounter2.js:506 | a calculating frame keeps the found ellipses as a prefix |
| `Session.Settle` | craterCounter2.js:186-209 | left alone, a corrected scan ends, valid, with the earlier ellipses as a prefix and the pool unchanged |
| `Session.AsWrittenCycle` | craterCounter2.js:188-209 | as written, after the pair `(0, 1)` found an ellipse that took every point, two frames re-extract the view, examine `(0, 0)` and then `(0, 1)`, and find the same ellipse again |
| `Session.AsWrittenLoops` | craterCounter2.js:188-193 | as written, that scan never ends: `2k` frames later it is still calculating with `k` more copies of the ellipse |
| `Session.CorrectedStops` | craterCounter2.js:188-207 | corrected, an extracted view with an empty working list stops the scan at once, keeping every point where it is |
| `Measure.MeasuredProbe` | craterCounter2.js:461-463 | with a square root that agrees with the real one, a point that passes the 45-degree test lies away from the centre, because `normalize` leaves the zero vector zero |
| `Measure.GeometryOfMeasures` | craterCounter2.js:439-449 | faithful measurement can always be met: one host trigonometry measures every view faithfully |
| `Measure.GeometryAgrees` | craterCounter2.js:439-464 | with any square root that agrees with the real one, angles exact on parallel vectors, `atan2` exact on the x axis and per-point measurements computed as at lines 461-464 agree with every pair |
| `Rescan.RowKept` | craterCounter2.js:397-405 | every pixel of the 12 x 1 witness image passes the Mars threshold, so the twelve samples give the row's twelve points in order |
| `Rescan.FoundRow` | craterCounter2.js:346-408 | the witness draws bring the row ends, pixels 0 and 11, to the front of the working list |
| `Rescan.InsideMeasure` | craterCounter2.js:461-464 | a row point between the ends whose gradient faces the centre measures `dotcenter` 1, `d` its distance to the centre below 5.5, and `f = 5.5 - d` |
| `Rescan.CollinearEstimate` | craterCounter2.js:469-472 | a point on the major axis with `f = a - d` gives the semi-minor estimate 0 |
| `Rescan.PairTakesAll` | craterCounter2.js:434-523 | on any host that measures the row faithfully, the pair `(0, 1)` finds the degenerate ellipse with centre `(5.5, 0)`, axes 11 and 0, angle 0, holding every point and leaving nothing behind |
| `Rescan.ViewTakesAll` | craterCounter2.js:434-523 | the same on the witness view as extracted, and that ellipse takes all of the view's interest points |
| `Rescan.FirstFrame` | craterCounter2.js:186-209 | from cursor `(0, 0)` with an empty list, the first frame extracts the view, examines `(0, 1)`, records the ellipse and restarts from `(0, -1)`; only the corrected frame marks the view extracted |
| `Rescan.WitnessLoops` | craterCounter2.js:188-193 | as written, on any faithful host, the space key on the witness view starts a scan that after `1 + 2k` frames is still calculating and holds the same ellipse `k + 1` times |
| `Rescan.WitnessStops` | craterCounter2.js:188-193 | corrected, on any faithful host, the same scan ends on its second frame with the ellipse once and each interest point of the view held once |
| `Rescan.WitnessMeasurable` | craterCounter2.js:461-464 | the witness view has a faithful host, so the two lemmas above are not vacuous |

## Left out

- **Rendering is not modelled.** This covers `drawEllipses`, `drawPOI`,
  `drawText`, `drawMars`, the HSB debug line (craterCounter2.js:495-499) and
  the random display colour (craterCounter2.js:66, 505). They have no effect
  on detection.
- **The GPU gradient pass and image loading are not modelled:**
  - the shader/framebuffer pass (craterCounter2.js:376-394);
  - `preload`, `setup` and `updateImages`.

  The gradient image is an input: an RGBA byte buffer.
- **Camera movement is not modelled.** This is the `deltaTime` arithmetic
  at craterCounter2.js:155-171 and `keyReleased`, which only prints. A frame
  receives a `moved` flag instead.
- **Transcendental functions are inputs.** These are `angleBetween`,
  `normalize`, `dist`, `atan2` and `sqrt`:
  - `PairGeometry` carries the gate angles and the axis direction;
  - a `Measurement` carries each point's `dotcenter`, `d` and `f`;
  - `sqrt` is an oracle.

  `cos(PI/4)` and `PI/6` are the double values JavaScript computes.
- **The sampling grid and its fractional stride are not modelled**
  (craterCounter2.js:397-398). The samples are a given sequence of
  coordinates, floored with `.Floor` when the gradient is read.
- **IEEE doubles become reals.** `sq(0.2)` and `sq(0.8)` are taken as exactly
  0.04 and 0.64. Rounding, the reason for the clamp at craterCounter2.js:470,
  is not modelled. The clamp itself is.
- **`Math.random`** is the `pick` oracle, which returns an index no larger
  than the position being shuffled.
- Session.Settle: the host stays fixed across frames. This matches a view
  that does not change while the scan runs.
- Session.AsWrittenLoops: the host stays fixed across frames. This matches a
  view that does not change while the scan runs.
- Scoring.Circumference: monotonicity in `a` and `b` is not stated. No
  caller in the sketch relies on it.
- Rescan.WitnessLoops: the host stays fixed across frames, and that
  includes the shuffle's draws. Each re-extraction therefore puts the row
  ends back at indices 0 and 1. With fresh `Math.random` draws the ends land
  elsewhere, and the loop is not proved for that case.
- Rescan.WitnessStops: the host stays fixed across frames, as above.
- Detection.PairStep: the host decides whether a third point is on the
  ellipse, not the model. `Measure.Measured` states when its measurements
  agree with the points. Only the witness lemmas assume it.
- **`angleBetween` and `atan2` are constrained only where they are exact.**
  `Measure.Measured` fixes them on parallel vectors (0 or `PI`) and on the
  x axis (0 or `PI`). Elsewhere it only bounds their range. The witness
  needs no more.
- **`Measure.RootOf` is a square root built for the existence lemma.** On
  arguments with no real root it returns 1 for positive ones and 0
  otherwise. The sketch never takes such a root: `dist` squares and line
  472 takes `abs` first.

## Findings

| source | as written | input that shows it | evidently intended | confidence | as-written member | corrected member |
|---|---|---|---|---|---|---|
| craterCounter2.js:188-193 | a calculating frame re-extracts the view's interest points whenever the working list is empty, including right after an accepted ellipse took the last of them; the points re-enter the working list, the same ellipse is found again, and the scan never ends | the space key on a 12 x 1 Mars view: red byte 255 on pixels 0-5 and 0 on pixels 6-11, blue byte 128, one sample per pixel, and shuffle draws that bring pixels 0 and 11 to the front. This holds for every host whose square root and measurements agree with the points, and such a host exists (`Rescan.WitnessMeasurable`) | interest points are extracted once per view; when an ellipse empties the working list the scan finishes | not executed; proved on the model | `Rescan.WitnessLoops` | `Rescan.WitnessStops` |

The general form of the finding is in `session.dfy`:

- `Session.TickAsWritten` is the frame as written.
- `Session.AsWrittenLoops` shows that the frame as written loops on any view
  where the pair `(0, 1)` finds an ellipse that takes every point.
- `Session.Tick` is the corrected frame. It records extraction in the
  state's `scanned` flag, and a moved camera clears that flag.
- `Session.TickConserves`, `Session.Settle` and `Session.CorrectedStops` show
  that the corrected frame conserves the view's points and always finishes.
