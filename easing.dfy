/** The cubic ease-in-out curve of `MouseSpotlight.easeInOutBezierCurve`. */
module Easing {

  /** `x` to the power `n`, the source's `**` operator on a whole exponent. */
  function Pow(x: real, n: nat): (p: real)
    ensures 0.0 <= x ==> 0.0 <= p
    ensures 0 < n && x == 0.0 ==> p == 0.0
    decreases n
  {
    if n == 0 then 1.0 else x * Pow(x, n - 1)
  }

  function Cube(x: real): (c: real) {
    Pow(x, 3)
  }

  lemma CubeIsProduct(x: real)
    ensures Cube(x) == x * x * x
  {
    assert Pow(x, 1) == x;
    assert Pow(x, 2) == x * x;
  }

  /** Doubling the base multiplies the cube by eight. */
  lemma CubeOfDouble(y: real)
    ensures Cube(2.0 * y) == 8.0 * Cube(y)
  {
    CubeIsProduct(y);
    CubeIsProduct(2.0 * y);
  }

  /** Cubic ease-in-out: 4t^3 below one half, 1 - (2 - 2t)^3 / 2 from one half
      on. The second piece is the first one mirrored: 1 - 4(1 - t)^3. */
  function Ease(t: real): (e: real)
    ensures t < 0.5 ==> e == 4.0 * Cube(t)
    ensures 0.5 <= t ==> e == 1.0 - 4.0 * Cube(1.0 - t)
  {
    if t < 0.5 then 4.0 * Cube(t)
    else
      CubeOfDouble(1.0 - t);
      assert -2.0 * t + 2.0 == 2.0 * (1.0 - t);
      1.0 - Cube(-2.0 * t + 2.0) / 2.0
  }

  lemma MulMonotone(x: real, y: real, c: real)
    requires x <= y && 0.0 <= c
    ensures x * c <= y * c && c * x <= c * y
  {
  }

  lemma SquareMonotone(a: real, b: real)
    requires 0.0 <= a <= b
    ensures 0.0 <= a * a <= b * b
  {
    MulMonotone(0.0, a, a);
    MulMonotone(a, b, a);
    MulMonotone(a, b, b);
    assert 0.0 * a == 0.0;
    assert a * b == b * a;
  }

  lemma ProductCubeMonotone(a: real, b: real)
    requires 0.0 <= a <= b
    ensures 0.0 <= a * a * a <= b * b * b
  {
    SquareMonotone(a, b);
    MulMonotone(0.0, a * a, a);
    MulMonotone(a * a, b * b, a);
    MulMonotone(a, b, b * b);
    assert 0.0 * a == 0.0;
  }

  lemma CubeMonotone(a: real, b: real)
    requires 0.0 <= a <= b
    ensures 0.0 <= Cube(a) <= Cube(b)
  {
    ProductCubeMonotone(a, b);
    CubeIsProduct(a);
    CubeIsProduct(b);
  }

  /** The curve starts at 0. */
  lemma EaseAtStart()
    ensures Ease(0.0) == 0.0
  {
  }

  /** The curve passes one half at one half, where its two pieces meet. */
  lemma EaseAtMiddle()
    ensures Ease(0.5) == 0.5
    ensures 4.0 * Cube(0.5) == 0.5
  {
  }

  /** The curve ends at 1. */
  lemma EaseAtEnd()
    ensures Ease(1.0) == 1.0
  {
  }

  /** On [0, 1] the curve stays in [0, 1], below one half on the first half
      and from one half on the second. */
  lemma EaseRange(t: real)
    requires 0.0 <= t <= 1.0
    ensures 0.0 <= Ease(t) <= 1.0
    ensures t < 0.5 ==> Ease(t) < 0.5
    ensures t >= 0.5 ==> Ease(t) >= 0.5
  {
    if t < 0.5 {
      CubeMonotone(t, 0.5);
      assert Cube(t) < 0.125 by {
        CubeIsProduct(t);
        assert t * t < 0.25 by { assert t * t <= t * 0.5 < 0.25; }
        assert t * t * t <= 0.25 * t < 0.125;
      }
    } else {
      CubeMonotone(-2.0 * t + 2.0, 1.0);
    }
  }

  /** On [0, 1] the curve never decreases. */
  lemma EaseMonotone(t1: real, t2: real)
    requires 0.0 <= t1 <= t2 <= 1.0
    ensures Ease(t1) <= Ease(t2)
  {
    if t2 < 0.5 {
      CubeMonotone(t1, t2);
    } else if t1 >= 0.5 {
      CubeMonotone(-2.0 * t2 + 2.0, -2.0 * t1 + 2.0);
    } else {
      EaseRange(t1);
      EaseRange(t2);
    }
  }

  /** The curve is symmetric about (1/2, 1/2): easing out mirrors easing in. */
  lemma EaseSymmetric(t: real)
    ensures Ease(1.0 - t) == 1.0 - Ease(t)
  {
  }
}
