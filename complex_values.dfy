/**
 * The complex accumulator of one moment: the term a pixel contributes, the
 * running sum, the final scaling by (n + 1) / count, and the magnitude and
 * phase read off the result.
 */
module ComplexValues {
  import opened Numerics

  datatype Complex = Complex(re: real, im: real)

  /** A BigComplex as the moment holds it: a value, or Undefined once it has been scaled by (n + 1) / 0. */
  datatype ComplexValue = Defined(value: Complex) | Undefined

  const Zero := Complex(0.0, 0.0)

  function Add(a: Complex, b: Complex): (r: Complex)
  {
    Complex(a.re + b.re, a.im + b.im)
  }

  /**
   * pixel * rad * e^(-i m theta), written out with Euler's formula. Its modulus
   * is |pixel * rad|, and it is real when m = 0.
   */
  function MultiplyExp(lm: Libm, pixel: real, rad: real, theta: real, m: int): (z: Complex)
    requires Sound(lm)
    ensures z.re * z.re + z.im * z.im == (pixel * rad) * (pixel * rad)
    ensures m == 0 ==> z.im == 0.0
  {
    var a := pixel * rad;
    var t := m as real * theta;
    var z := Complex(a * Cos(lm, t), -(a * Sin(lm, t)));
    UnitCircle(lm, t);
    assert z.re * z.re + z.im * z.im == a * a * (Cos(lm, t) * Cos(lm, t) + Sin(lm, t) * Sin(lm, t));
    z
  }

  /**
   * Scales both parts by (n + 1) / count. With no accepted pixel the
   * quotient is undefined (0 / 0 in the source's doubles).
   */
  function Normalize(z: Complex, n: int, count: nat): (r: ComplexValue)
    ensures r.Undefined? <==> count == 0
    ensures r.Defined? ==> r.value.re * count as real == z.re * (n + 1) as real
    ensures r.Defined? ==> r.value.im * count as real == z.im * (n + 1) as real
  {
    if count == 0 then Undefined
    else Defined(Complex(z.re * (n + 1) as real / count as real, z.im * (n + 1) as real / count as real))
  }

  /** ZernikeMoment.getMagnitude: the modulus sqrt(re^2 + im^2). */
  function Magnitude(lm: Libm, v: ComplexValue): (r: Double)
    requires Sound(lm)
    ensures r.NaN? <==> v.Undefined?
    ensures r.Num? ==> r.value >= 0.0 && r.value * r.value == v.value.re * v.value.re + v.value.im * v.value.im
  {
    match v
    case Undefined => NaN
    case Defined(z) =>
      SquareNonNegative(z.re);
      SquareNonNegative(z.im);
      SqrtOf(lm, Sq(z.re) + Sq(z.im));
      Num(Sqrt(lm, Sq(z.re) + Sq(z.im)))
  }

  /** ZernikeMoment.getPhase: atan2(im, re). */
  function Phase(lm: Libm, v: ComplexValue): (r: Double)
    ensures r.NaN? <==> v.Undefined?
  {
    match v
    case Undefined => NaN
    case Defined(z) => Num(Atan2(lm, z.im, z.re))
  }

  /**
   * Magnitude and phase are the polar form of a defined, non-zero moment:
   * magnitude times (cos, sin) of the phase gives back its two parts.
   */
  lemma PolarForm(lm: Libm, v: ComplexValue)
    requires Sound(lm) && v.Defined? && v.value != Zero
    ensures Magnitude(lm, v).value * Cos(lm, Phase(lm, v).value) == v.value.re
    ensures Magnitude(lm, v).value * Sin(lm, Phase(lm, v).value) == v.value.im
  {
    var re, im := v.value.re, v.value.im;
    var r, theta := Magnitude(lm, v).value, Phase(lm, v).value;
    assert r == Sqrt(lm, re * re + im * im) by {
      assert Sq(re) + Sq(im) == re * re + im * im;
    }
    assert theta == Atan2(lm, im, re);
    Polar(lm, re, im);
  }
}
