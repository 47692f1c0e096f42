/** Small numeric helpers of the p5.js library that the detector relies on
    (`sq`, `abs`, `min`, `max`, `constrain`), over mathematical reals,
    and the usual optional-value wrapper. */
module Basics {

  datatype Option<+T> = None | Some(value: T)

  /** p5 `sq`: the square of a number. */
  function Sq(x: real): (r: real)
    ensures r >= 0.0
  {
    x * x
  }

  /** p5 `abs`. */
  function Abs(x: real): (r: real)
    ensures r >= 0.0
    ensures r == x || r == -x
  {
    if x < 0.0 then -x else x
  }

  function Min(x: real, y: real): (r: real)
    ensures r <= x && r <= y
    ensures r == x || r == y
  {
    if x <= y then x else y
  }

  function Max(x: real, y: real): (r: real)
    ensures r >= x && r >= y
    ensures r == x || r == y
  {
    if x >= y then x else y
  }

  /** p5 `constrain(n, low, high)`, i.e. `max(min(n, high), low)`. */
  function Constrain(n: real, low: real, high: real): (r: real)
    requires low <= high
    ensures low <= r <= high
    ensures low <= n <= high ==> r == n
  {
    Max(Min(n, high), low)
  }

  /** A named product. Facts stated about `Mul` terms carry over from one
      lemma to the next by congruence, which the solver does not do
      reliably for bare non-linear products. */
  function Mul(x: real, y: real): real
  {
    x * y
  }

  lemma MulNonZero(x: real, y: real)
    requires x != 0.0 && y != 0.0
    ensures Mul(x, y) != 0.0
  {
  }

  lemma MulMonotone(x: real, y: real, z: real)
    requires 0.0 <= x && y <= z
    ensures Mul(x, y) <= Mul(x, z)
  {
  }

  lemma MulOne(x: real)
    ensures Mul(x, 1.0) == x
  {
  }

  lemma SqIsMul(x: real)
    ensures Sq(x) == Mul(x, x) && Sq(-x) == Sq(x)
  {
  }

  /** A number in `[-1, 1]` has its square in `[0, 1]`, and in `[0, 1)`
      when it is strictly inside. */
  lemma SqAtMostOne(r: real)
    requires -1.0 <= r <= 1.0
    ensures Sq(r) <= 1.0
    ensures -1.0 < r < 1.0 ==> Sq(r) < 1.0
  {
    var s := Abs(r);
    SqIsMul(r);
    SqIsMul(s);
    MulMonotone(s, s, 1.0);
    MulOne(s);
  }

  /** Quotient and remainder of a row-major index `x + y * width`. */
  lemma RowMajorDivMod(p: int, width: int, x: int, y: int)
    requires 0 <= x < width && 0 <= y && p == x + y * width
    ensures p % width == x && p / width == y
  {
    var q, r := p / width, p % width;
    assert p == q * width + r && 0 <= r < width;
    assert (q - y) * width == x - r by {
      assert (q - y) * width == q * width - y * width;
    }
    if q != y {
      ShiftAtLeastWidth(q - y, width);
    }
  }

  lemma {:induction false} ShiftAtLeastWidth(k: int, width: int)
    requires k != 0 && width > 0
    ensures k * width >= width || k * width <= -width
    decreases if k < 0 then -k else k
  {
    if k > 1 {
      ShiftAtLeastWidth(k - 1, width);
      assert k * width == (k - 1) * width + width;
    } else if k < -1 {
      ShiftAtLeastWidth(k + 1, width);
      assert k * width == (k + 1) * width - width;
    }
  }
}
