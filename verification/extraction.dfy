/** Interest-point extraction: decoding the gradient image, the magnitude
    threshold, and the Durstenfeld shuffle of the kept points. The gradient
    image itself (a shader pass) is an input; only its RGBA byte layout is
    modelled. */
module Extraction {
  import opened Basics
  import opened Geometry

  type Byte = b: int | 0 <= b < 256

  /** An RGBA pixel buffer as p5 exposes it: four bytes per pixel, rows of
      `width` pixels one after the other. */
  datatype Image = Image(width: int, height: int, pixels: seq<Byte>)

  datatype Color = Color(r: Byte, g: Byte, b: Byte)

  /** Squared magnitude above which a point is kept on Mars tiles, `sq(0.2)`. */
  const MarsThreshold: real := 0.04
  /** Squared magnitude above which a point is kept on the test image, `sq(0.8)`. */
  const TestThreshold: real := 0.64

  /** Index of the red byte of pixel `(x, y)`. */
  function Offset(width: int, x: int, y: int): int
  {
    (x + y * width) * 4
  }

  /** Red, green and blue bytes of pixel `(x, y)`; `None` where JavaScript
      would read `undefined` past either end of the buffer. */
  function ColorAt(img: Image, x: int, y: int): (c: Option<Color>)
    ensures c.Some? <==> 0 <= Offset(img.width, x, y) && Offset(img.width, x, y) + 2 < |img.pixels|
  {
    var idx := Offset(img.width, x, y);
    if 0 <= idx && idx + 2 < |img.pixels| then
      Some(Color(img.pixels[idx], img.pixels[idx + 1], img.pixels[idx + 2]))
    else
      None
  }

  /** Row-major layout: every pixel of a `width` x `height` image owns its
      own four bytes, and the pixel is recovered from the offset. */
  lemma OffsetRoundTrip(width: int, height: int, x: int, y: int)
    requires 0 <= x < width && 0 <= y < height
    ensures 0 <= Offset(width, x, y) && Offset(width, x, y) + 3 < 4 * width * height
    ensures Offset(width, x, y) % 4 == 0
    ensures (Offset(width, x, y) / 4) % width == x
    ensures (Offset(width, x, y) / 4) / width == y
  {
    var p := x + y * width;
    assert Offset(width, x, y) == 4 * p;
    assert p <= (width - 1) + (height - 1) * width by {
      assert y * width <= (height - 1) * width;
    }
    assert (height - 1) * width + width == width * height;
    RowMajorDivMod(p, width, x, y);
  }

  /** Pixels of an image whose buffer holds exactly its `4 * width * height`
      bytes can always be read inside the image. */
  lemma InsideIsDefined(img: Image, x: int, y: int)
    requires |img.pixels| == 4 * img.width * img.height
    requires 0 <= x < img.width && 0 <= y < img.height
    ensures ColorAt(img, x, y).Some?
  {
    OffsetRoundTrip(img.width, img.height, x, y);
  }

  /** Gradient stored by the gradient image: red channel horizontal, blue
      channel vertical, each `channel / 128 - 1`. */
  function GradientAt(img: Image, x: int, y: int): (g: Option<Vec>)
    ensures g.Some? <==> ColorAt(img, x, y).Some?
    ensures g.Some? ==> -1.0 <= g.value.x <= 127.0 / 128.0 && -1.0 <= g.value.y <= 127.0 / 128.0
    ensures g.Some? ==>
      && (g.value.x + 1.0) * 128.0 == ColorAt(img, x, y).value.r as real
      && (g.value.y + 1.0) * 128.0 == ColorAt(img, x, y).value.b as real
  {
    match ColorAt(img, x, y)
    case None => None
    case Some(c) => Some(Vec(c.r as real / 128.0 - 1.0, c.b as real / 128.0 - 1.0))
  }

  /** The keep rule on a decoded gradient. An undecodable gradient is `NaN`
      in JavaScript and fails both comparisons. */
  predicate Strong(g: Option<Vec>, mars: bool)
  {
    g.Some? && g.value.x * g.value.x + g.value.y * g.value.y > (if mars then MarsThreshold else TestThreshold)
  }

  /** The interest point a sample would give: its own (unfloored)
      position with the gradient read at the floored pixel, as a finite,
      one-directional ray. */
  function PointFrom(img: Image, s: Vec): Ray
    requires GradientAt(img, s.x.Floor, s.y.Floor).Some?
  {
    Ray(s, GradientAt(img, s.x.Floor, s.y.Floor).value, false, false)
  }

  predicate Kept(img: Image, s: Vec, mars: bool)
  {
    Strong(GradientAt(img, s.x.Floor, s.y.Floor), mars)
  }

  /** The samples whose gradient passes the threshold, in sampling order.
      A single sample gives its point exactly when it is kept; with
      `SelectAppend` this pins the result down as the order-preserving
      filter, each kept sample giving one point. */
  function Select(img: Image, samples: seq<Vec>, mars: bool): (pts: seq<Ray>)
    ensures |samples| == 1 && Kept(img, samples[0], mars) ==> pts == [PointFrom(img, samples[0])]
    ensures |samples| == 1 && !Kept(img, samples[0], mars) ==> pts == []
    ensures |pts| <= |samples|
    ensures forall i :: 0 <= i < |pts| ==>
      pts[i].pos in samples && Kept(img, pts[i].pos, mars) && pts[i] == PointFrom(img, pts[i].pos)
    ensures forall i :: 0 <= i < |samples| && Kept(img, samples[i], mars) ==> PointFrom(img, samples[i]) in pts
    ensures (forall i :: 0 <= i < |samples| ==> Kept(img, samples[i], mars)) ==> |pts| == |samples|
  {
    if |samples| == 0 then []
    else
      var rest := Select(img, samples[..|samples| - 1], mars);
      var s := samples[|samples| - 1];
      assert forall i :: 0 <= i < |samples| - 1 ==> samples[..|samples| - 1][i] == samples[i];
      if Kept(img, s, mars) then rest + [PointFrom(img, s)] else rest
  }

  /** Selecting from two runs of samples one after the other selects from
      each run and keeps the two results in order. */
  lemma {:induction false} SelectAppend(img: Image, xs: seq<Vec>, ys: seq<Vec>, mars: bool)
    ensures Select(img, xs + ys, mars) == Select(img, xs, mars) + Select(img, ys, mars)
    decreases |ys|
  {
    if |ys| > 0 {
      var ys' := ys[..|ys| - 1];
      SelectAppend(img, xs, ys', mars);
      assert (xs + ys)[..|xs + ys| - 1] == xs + ys';
      assert (xs + ys)[|xs + ys| - 1] == ys[|ys| - 1];
    } else {
      assert xs + ys == xs;
    }
  }

  function Swap<T>(a: seq<T>, i: nat, j: nat): (r: seq<T>)
    requires i < |a| && j < |a|
    ensures |r| == |a| && multiset(r) == multiset(a)
    ensures r[i] == a[j] && r[j] == a[i]
    ensures forall k :: 0 <= k < |a| && k != i && k != j ==> r[k] == a[k]
  {
    a[i := a[j]][j := a[i]]
  }

  /** Durstenfeld shuffle, from index `i` down to 1; `pick(i)` is the
      random draw `floor(random() * (i + 1))` made at index `i`. */
  function ShuffleDown<T>(a: seq<T>, i: int, pick: nat -> nat): (r: seq<T>)
    requires -1 <= i < |a|
    requires forall k: nat :: pick(k) <= k
    ensures |r| == |a|
    ensures multiset(r) == multiset(a)
    decreases i
  {
    if i <= 0 then a
    else ShuffleDown(Swap(a, i, pick(i)), i - 1, pick)
  }

  function Shuffle<T>(a: seq<T>, pick: nat -> nat): (r: seq<T>)
    requires forall k: nat :: pick(k) <= k
    ensures |r| == |a|
    ensures multiset(r) == multiset(a)
  {
    ShuffleDown(a, |a| - 1, pick)
  }

  /** The interest points of a view: the kept samples in shuffled order. */
  function FindPoi(img: Image, samples: seq<Vec>, mars: bool, pick: nat -> nat): (pts: seq<Ray>)
    requires forall k: nat :: pick(k) <= k
    ensures multiset(pts) == multiset(Select(img, samples, mars))
    ensures forall p :: p in pts <==> p in Select(img, samples, mars)
  {
    var kept := Select(img, samples, mars);
    var r := Shuffle(kept, pick);
    assert forall p :: p in r <==> p in multiset(r);
    r
  }
}
