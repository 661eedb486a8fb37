/**
 * Numeric vocabulary shared by the Zernike model: an optional value, an
 * IEEE double that may be NaN, the four library functions the engine calls
 * (square root, cosine, sine and two-argument arc tangent) and Java's integer
 * conversions. Doubles are modelled by exact reals.
 */
module Numerics {

  datatype Option<T> = None | Some(value: T)

  /** A double as the engine sees it: a number, or NaN where IEEE arithmetic gives one. */
  datatype Double = Num(value: real) | NaN

  /**
   * The library functions used by the engine, taken as parameters because
   * their implementation is not part of the model.
   */
  datatype Libm = Libm(sqrt: real -> real, cos: real -> real, sin: real -> real, atan2: (real, real) -> real)

  // The library functions as the engine calls them.

  function Sqrt(lm: Libm, x: real): real
  {
    lm.sqrt(x)
  }

  function Cos(lm: Libm, t: real): real
  {
    lm.cos(t)
  }

  function Sin(lm: Libm, t: real): real
  {
    lm.sin(t)
  }

  function Atan2(lm: Libm, y: real, x: real): real
  {
    lm.atan2(y, x)
  }

  /**
   * The facts about the library functions the proofs rely on: the square root
   * of a non-negative number is its non-negative root, cos and sin lie on the
   * unit circle, sin 0 = 0, and atan2 recovers the direction of a non-zero
   * vector, so that the vector is its length times (cos, sin) of that angle.
   */
  ghost predicate Sound(lm: Libm)
  {
    && (forall x :: 0.0 <= x ==> SqrtSound(lm, x))
    && (forall t :: TrigSound(lm, t))
    && Sin(lm, 0.0) == 0.0
    && (forall y, x :: x * x + y * y > 0.0 ==> Atan2Sound(lm, y, x))
  }

  /** The square root of x is non-negative and squares to x. */
  ghost predicate SqrtSound(lm: Libm, x: real)
  {
    0.0 <= Sqrt(lm, x) && Sqrt(lm, x) * Sqrt(lm, x) == x
  }

  /** cos t and sin t lie on the unit circle. */
  ghost predicate TrigSound(lm: Libm, t: real)
  {
    Cos(lm, t) * Cos(lm, t) + Sin(lm, t) * Sin(lm, t) == 1.0
  }

  /** The vector (x, y) is its length times (cos, sin) of atan2(y, x). */
  ghost predicate Atan2Sound(lm: Libm, y: real, x: real)
  {
    && Sqrt(lm, x * x + y * y) * Cos(lm, Atan2(lm, y, x)) == x
    && Sqrt(lm, x * x + y * y) * Sin(lm, Atan2(lm, y, x)) == y
  }

  function Sq(x: real): real
  {
    x * x
  }

  /** Java's Math.max on doubles: NaN if either argument is NaN. */
  function Max(a: real, b: Double): (r: Double)
    ensures r.NaN? <==> b.NaN?
    ensures r.Num? ==> r.value >= a && r.value >= b.value && (r.value == a || r.value == b.value)
  {
    match b
    case NaN => NaN
    case Num(v) => if a >= v then Num(a) else Num(v)
  }

  function Abs(x: int): nat
  {
    if x < 0 then -x else x
  }

  /**
   * Java's int division by 2, which truncates toward zero: the remainder
   * a - 2q takes the sign of a and is at most 1 in size.
   */
  function TruncHalf(a: int): (q: int)
    ensures a >= 0 ==> 0 <= a - 2 * q <= 1
    ensures a < 0 ==> -1 <= a - 2 * q <= 0
  {
    if a >= 0 then a / 2 else -((-a) / 2)
  }

  /** Java's (int) cast of a double, which truncates toward zero (saturation at the int range is not modelled). */
  function Truncate(x: real): (n: int)
    ensures 0.0 <= x ==> n as real <= x < n as real + 1.0
    ensures x < 0.0 ==> n as real - 1.0 < x <= n as real
  {
    if x >= 0.0 then x.Floor else -((-x).Floor)
  }

  function Pow(x: real, e: nat): real
  {
    if e == 0 then 1.0 else x * Pow(x, e - 1)
  }

  /** Odd powers flip sign with their argument, even powers do not. */
  lemma {:induction false} PowOfNegation(x: real, e: nat)
    ensures Pow(-x, e) == if e % 2 == 0 then Pow(x, e) else -Pow(x, e)
  {
    if e > 0 {
      PowOfNegation(x, e - 1);
    }
  }

  lemma {:induction false} PowOfZero(e: nat)
    requires e > 0
    ensures Pow(0.0, e) == 0.0
  {
  }

  // Small facts of real arithmetic, stated separately so that each proof
  // that needs one sees only a few non-linear terms.

  lemma MulPositive(x: real, y: real)
    requires 0.0 < x && 0.0 < y
    ensures 0.0 < x * y
  {
  }

  lemma MulNonNegative(x: real, y: real)
    requires 0.0 <= x && 0.0 <= y
    ensures 0.0 <= x * y
  {
  }

  lemma MulLeft(a: real, x: real, y: real)
    requires 0.0 <= a && x <= y
    ensures a * x <= a * y
  {
    MulNonNegative(a, y - x);
    assert a * y - a * x == a * (y - x);
  }

  lemma MulLeftStrict(a: real, x: real, y: real)
    requires 0.0 < a && x < y
    ensures a * x < a * y
  {
    MulPositive(a, y - x);
    assert a * y - a * x == a * (y - x);
  }

  lemma DivRight(x: real, y: real, d: real)
    requires 0.0 < d && x <= y
    ensures x / d <= y / d
  {
    MulLeft(1.0 / d, x, y);
    assert x / d == (1.0 / d) * x && y / d == (1.0 / d) * y;
  }

  lemma DivRightStrict(x: real, y: real, d: real)
    requires 0.0 < d && x < y
    ensures x / d < y / d
  {
    MulLeftStrict(1.0 / d, x, y);
    assert x / d == (1.0 / d) * x && y / d == (1.0 / d) * y;
  }

  lemma SquareLess(a: real, b: real)
    requires 0.0 <= a <= b
    ensures a * a <= b * b
    ensures a < b ==> a * a < b * b
  {
    assert b * b - a * a == (b - a) * (b + a);
    if a < b {
      MulPositive(b - a, b + a);
    } else {
      assert a == b;
    }
  }

  /** Non-negative numbers with equal squares are equal. */
  lemma SquareRootUnique(s: real, t: real)
    requires 0.0 <= s && 0.0 <= t && s * s == t * t
    ensures s == t
  {
    if s < t {
      SquareLess(s, t);
    } else if t < s {
      SquareLess(t, s);
    }
  }

  lemma DivCancel(a: real, b: real, c: real)
    requires a != 0.0 && b != 0.0
    ensures (a / b) * (c / a) == c / b
  {
  }

  lemma DivSelf(a: real)
    requires a != 0.0
    ensures a / a == 1.0
  {
  }

  lemma DivAdd(x: real, y: real, d: real)
    requires d != 0.0
    ensures x / d + y / d == (x + y) / d
  {
  }

  lemma MulDiv(e: real, d: real)
    requires d != 0.0
    ensures (e * d) / d == e
  {
  }

  lemma ZeroProduct(x: real, y: real)
    requires x * y == 0.0
    ensures x == 0.0 || y == 0.0
  {
  }

  lemma SquarePositive(x: real)
    requires x != 0.0
    ensures x * x > 0.0
  {
    if x < 0.0 {
      MulPositive(-x, -x);
    } else {
      MulPositive(x, x);
    }
  }

  lemma SquareNonNegative(x: real)
    ensures x * x >= 0.0
  {
  }

  lemma SqrtOf(lm: Libm, x: real)
    requires Sound(lm) && 0.0 <= x
    ensures 0.0 <= Sqrt(lm, x) && Sqrt(lm, x) * Sqrt(lm, x) == x
  {
    assert SqrtSound(lm, x);
  }

  lemma UnitCircle(lm: Libm, t: real)
    requires Sound(lm)
    ensures Cos(lm, t) * Cos(lm, t) + Sin(lm, t) * Sin(lm, t) == 1.0
  {
    assert TrigSound(lm, t);
  }

  /** A non-zero vector is its length times (cos, sin) of its angle. */
  lemma Polar(lm: Libm, dx: real, dy: real)
    requires Sound(lm) && (dx != 0.0 || dy != 0.0)
    ensures var r, t := Sqrt(lm, dx * dx + dy * dy), Atan2(lm, dy, dx);
      r * Cos(lm, t) == dx && r * Sin(lm, t) == dy
  {
    SquareNonNegative(dx);
    SquareNonNegative(dy);
    if dx != 0.0 {
      SquarePositive(dx);
    } else {
      SquarePositive(dy);
    }
    assert dx * dx + dy * dy > 0.0;
    assert Atan2Sound(lm, dy, dx);
  }
}
