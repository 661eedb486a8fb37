/**
 * The dual-circle normalised Zernike moment computer: what one moment of
 * order n and repetition m is over a sequence of samples, and the computer
 * object whose calculate loop accumulates it.
 */
module ZernikeEngine {
  import opened Numerics
  import opened BinomialTable
  import opened Radial
  import opened ComplexValues
  import opened DualCircle

  /** The normalised radius the inner perimeter maps to unless a caller sets another. */
  const DefaultRatio: real := 1.0 / 3.0

  /** One position the cursor visits: its coordinates and its pixel value. */
  datatype Sample = Sample(x: real, y: real, value: real)

  /** A moment: order n, repetition m, radial polynomial p and the moment value zm. */
  datatype ZernikeMoment = ZernikeMoment(n: int, m: int, p: seq<int>, zm: ComplexValue)

  /** The normalised radius of a sample, or None when it lies beyond R and is skipped. */
  function SampleRadius(lm: Libm, s: Setup, smp: Sample): Option<real>
    requires Sound(lm) && s.inner.radius > 0.0
  {
    NormalizedRadius(s.ratio, s.inner.radius, GetRadii(lm, s, smp.x, smp.y))
  }

  /**
   * What one sample adds to the moment: None when it is skipped or its pixel is
   * negative, otherwise pixel * R(n, m)(normalised radius) * e^(-i m theta).
   */
  function Contribution(lm: Libm, s: Setup, n: nat, m: int, smp: Sample): (t: Option<Complex>)
    requires Sound(lm) && s.inner.radius > 0.0
    ensures t.Some? <==> Accepted(lm, s, smp)
    ensures m == 0 && t.Some? ==> t.value.im == 0.0
  {
    var rd := GetRadii(lm, s, smp.x, smp.y);
    var normRad := NormalizedRadius(s.ratio, s.inner.radius, rd);
    if normRad.Some? && smp.value >= 0.0 then
      Some(MultiplyExp(lm, smp.value, Evaluate(RadialPolynomial(n, m), normRad.value), rd.theta, m))
    else
      None
  }

  /** A sample enters the moment when it is not skipped and its pixel value is non-negative. */
  predicate Accepted(lm: Libm, s: Setup, smp: Sample)
    requires Sound(lm) && s.inner.radius > 0.0
  {
    SampleRadius(lm, s, smp).Some? && smp.value >= 0.0
  }

  /** The contributions of a sequence of samples, in cursor order. */
  function Contributions(lm: Libm, s: Setup, n: nat, m: int, samples: seq<Sample>): (ts: seq<Option<Complex>>)
    requires Sound(lm) && s.inner.radius > 0.0
    ensures |ts| == |samples|
    ensures m == 0 ==> AllReal(ts)
  {
    seq(|samples|, i requires 0 <= i < |samples| => Contribution(lm, s, n, m, samples[i]))
  }

  /** Every present contribution is real. */
  predicate AllReal(ts: seq<Option<Complex>>)
  {
    forall i :: 0 <= i < |ts| && ts[i].Some? ==> ts[i].value.im == 0.0
  }

  /** The number of present contributions: the count of accepted samples. */
  function Count(ts: seq<Option<Complex>>): (k: nat)
    ensures k <= |ts|
  {
    if |ts| == 0 then 0
    else Count(ts[..|ts| - 1]) + (if ts[|ts| - 1].Some? then 1 else 0)
  }

  /** The sum of the present contributions, added in order. */
  function Sum(ts: seq<Option<Complex>>): (z: Complex)
    ensures AllReal(ts) ==> z.im == 0.0
  {
    if |ts| == 0 then Zero
    else
      var rest := Sum(ts[..|ts| - 1]);
      if ts[|ts| - 1].Some? then Add(rest, ts[|ts| - 1].value) else rest
  }

  /**
   * The moment of order n and repetition m made of the given contributions: their
   * sum scaled by (n + 1) / count, undefined exactly when none is present, and
   * real when every contribution is.
   */
  function MomentFrom(n: nat, m: int, ts: seq<Option<Complex>>): (z: ZernikeMoment)
    ensures z.n == n && z.m == m && z.p == RadialPolynomial(n, m)
    ensures z.zm.Undefined? <==> Count(ts) == 0
    ensures AllReal(ts) && z.zm.Defined? ==> z.zm.value.im == 0.0
  {
    ZernikeMoment(n, m, RadialPolynomial(n, m), Normalize(Sum(ts), n, Count(ts)))
  }

  /** The moment calculate returns for a sequence of samples; real for m = 0. */
  function MomentOf(lm: Libm, s: Setup, n: nat, m: int, samples: seq<Sample>): (z: ZernikeMoment)
    requires Sound(lm) && s.inner.radius > 0.0
    ensures m == 0 && z.zm.Defined? ==> z.zm.value.im == 0.0
  {
    MomentFrom(n, m, Contributions(lm, s, n, m, samples))
  }

  /** Count is the number of present contributions. */
  lemma {:induction false} CountPresent(ts: seq<Option<Complex>>)
    ensures Count(ts) == |set i | 0 <= i < |ts| && ts[i].Some?|
  {
    if |ts| > 0 {
      var last := |ts| - 1;
      var init := ts[..last];
      CountPresent(init);
      var before := set i | 0 <= i < last && init[i].Some?;
      var all := set i | 0 <= i < |ts| && ts[i].Some?;
      if ts[last].Some? {
        assert all == before + {last};
      } else {
        assert all == before;
      }
    }
  }

  /** The count of calculate is the number of accepted samples. */
  lemma CountIsAccepted(lm: Libm, s: Setup, n: nat, m: int, samples: seq<Sample>)
    requires Sound(lm) && s.inner.radius > 0.0
    ensures Count(Contributions(lm, s, n, m, samples)) == |set i | 0 <= i < |samples| && Accepted(lm, s, samples[i])|
  {
    var ts := Contributions(lm, s, n, m, samples);
    CountPresent(ts);
    assert (set i | 0 <= i < |ts| && ts[i].Some?) == (set i | 0 <= i < |samples| && Accepted(lm, s, samples[i]));
  }

  /** Counting and summing split over a concatenation. */
  lemma {:induction false} SumsOfConcatenation(a: seq<Option<Complex>>, b: seq<Option<Complex>>)
    ensures Count(a + b) == Count(a) + Count(b)
    ensures Sum(a + b) == Add(Sum(a), Sum(b))
  {
    if |b| == 0 {
      assert a + b == a;
    } else {
      var last := |b| - 1;
      assert (a + b)[..|a + b| - 1] == a + b[..last];
      assert (a + b)[|a + b| - 1] == b[last];
      SumsOfConcatenation(a, b[..last]);
    }
  }

  /** Exchanging the two halves of the contributions leaves the moment unchanged. */
  lemma MomentFromSwap(n: nat, m: int, a: seq<Option<Complex>>, b: seq<Option<Complex>>)
    ensures MomentFrom(n, m, a + b) == MomentFrom(n, m, b + a)
  {
    SumsOfConcatenation(a, b);
    SumsOfConcatenation(b, a);
  }

  /** An absent contribution anywhere leaves the moment unchanged. */
  lemma MomentFromSkipsAbsent(n: nat, m: int, a: seq<Option<Complex>>, b: seq<Option<Complex>>)
    ensures MomentFrom(n, m, a + [None] + b) == MomentFrom(n, m, a + b)
  {
    SumsOfConcatenation(a + [None], b);
    SumsOfConcatenation(a, [None]);
    SumsOfConcatenation(a, b);
    var none: seq<Option<Complex>> := [None];
    assert none[..0] == [];
  }

  lemma ContributionsOfConcatenation(lm: Libm, s: Setup, n: nat, m: int, a: seq<Sample>, b: seq<Sample>)
    requires Sound(lm) && s.inner.radius > 0.0
    ensures Contributions(lm, s, n, m, a + b) == Contributions(lm, s, n, m, a) + Contributions(lm, s, n, m, b)
  {
  }

  /** The moment does not depend on the order the cursor visits the two halves in. */
  lemma MomentOfSwap(lm: Libm, s: Setup, n: nat, m: int, a: seq<Sample>, b: seq<Sample>)
    requires Sound(lm) && s.inner.radius > 0.0
    ensures MomentOf(lm, s, n, m, a + b) == MomentOf(lm, s, n, m, b + a)
  {
    ContributionsOfConcatenation(lm, s, n, m, a, b);
    ContributionsOfConcatenation(lm, s, n, m, b, a);
    MomentFromSwap(n, m, Contributions(lm, s, n, m, a), Contributions(lm, s, n, m, b));
  }

  /** A sample that is not accepted (skipped, or with a negative pixel) changes nothing. */
  lemma RejectedSampleIgnored(lm: Libm, s: Setup, n: nat, m: int, a: seq<Sample>, x: Sample, b: seq<Sample>)
    requires Sound(lm) && s.inner.radius > 0.0 && !Accepted(lm, s, x)
    ensures MomentOf(lm, s, n, m, a + [x] + b) == MomentOf(lm, s, n, m, a + b)
  {
    ContributionsOfConcatenation(lm, s, n, m, a + [x], b);
    ContributionsOfConcatenation(lm, s, n, m, a, [x]);
    ContributionsOfConcatenation(lm, s, n, m, a, b);
    assert Contributions(lm, s, n, m, [x]) == [None];
    MomentFromSkipsAbsent(n, m, Contributions(lm, s, n, m, a), Contributions(lm, s, n, m, b));
  }

  /** Every accepted sample is evaluated inside the unit disk, at most 1 from the centre. */
  lemma AcceptedRadiusInUnitDisk(lm: Libm, s: Setup, smp: Sample)
    requires Sound(lm) && s.inner.radius > 0.0 && 0.0 <= s.ratio <= 1.0
    requires Accepted(lm, s, smp)
    ensures 0.0 <= SampleRadius(lm, s, smp).value <= 1.0
  {
    NormalizedRadiusBounds(s.ratio, s.inner.radius, GetRadii(lm, s, smp.x, smp.y));
  }

  /**
   * Which samples count, in plain geometry: when the inner centre lies inside the
   * outer circle, a sample is accepted exactly when its pixel is non-negative and
   * it lies in the inner circle or in the outer circle.
   */
  lemma AcceptedWithinCircles(lm: Libm, inner: Circle, outer: Circle, ratio: real, smp: Sample)
    requires Sound(lm) && inner.radius > 0.0
    requires Sq(inner.cx - outer.cx) + Sq(inner.cy - outer.cy) < Sq(outer.radius)
    ensures Accepted(lm, SetupFor(inner, outer, ratio), smp) <==>
      smp.value >= 0.0 &&
      (Sq(smp.x - inner.cx) + Sq(smp.y - inner.cy) <= Sq(inner.radius) ||
       Sq(smp.x - outer.cx) + Sq(smp.y - outer.cy) <= Sq(outer.radius))
  {
    var s := SetupFor(inner, outer, ratio);
    InnerCircleTest(lm, s, smp.x, smp.y);
    OuterCircleTest(lm, inner, outer, ratio, smp.x, smp.y);
  }

  /**
   * The circles of the example below: an inner circle of radius 1 at the
   * origin, an outer circle of radius 2 at (10, 0), whose centre offset is
   * (10, 0) and whose c is 10^2 - 2^2 = 96 > 0, i.e. the inner centre lies
   * outside the outer circle. The pixel (5, 0) lies outside both circles.
   */
  lemma ExampleSetup()
    ensures Sq(5.0 - 0.0) + Sq(0.0 - 0.0) > Sq(1.0)
    ensures Sq(5.0 - 10.0) + Sq(0.0 - 0.0) > Sq(2.0)
    ensures SetupFor(Circle(0.0, 0.0, 1.0), Circle(10.0, 0.0, 2.0), DefaultRatio) ==
      Setup(Circle(0.0, 0.0, 1.0), DefaultRatio, 10.0, 0.0, 96.0)
  {
  }

  /**
   * Along the ray from the origin through (5, 0) the outer circle is met at
   * R = 12 (the larger root of R^2 - 20 R + 96), and r = 5 <= R.
   */
  lemma AcceptedOnExampleSetup(lm: Libm)
    requires Sound(lm)
    ensures Accepted(lm, Setup(Circle(0.0, 0.0, 1.0), DefaultRatio, 10.0, 0.0, 96.0), Sample(5.0, 0.0, 1.0))
  {
    var s := Setup(Circle(0.0, 0.0, 1.0), DefaultRatio, 10.0, 0.0, 96.0);
    var r, theta := Distance(lm, s, 5.0, 0.0), Angle(lm, s, 5.0, 0.0);
    RayFacts(lm, s, 5.0, 0.0);
    assert r * r == 25.0;
    SquareRootUnique(r, 5.0);
    assert r == 5.0;
    assert Cos(lm, theta) == 1.0 && Sin(lm, theta) == 0.0;
    var b := Slope(lm, s, theta);
    assert b == -20.0;
    SqrtOf(lm, 16.0);
    SquareRootUnique(Sqrt(lm, 16.0), 4.0);
    assert OuterRoot(lm, b, s.c) == Num(12.0);
    RadiiShape(lm, s, 5.0, 0.0);
    assert GetRadii(lm, s, 5.0, 0.0).outer == Num(12.0);
  }

  /**
   * Without the inner centre inside the outer circle the test of
   * AcceptedWithinCircles no longer holds: the pixel (5, 0), outside both
   * circles of ExampleSetup, is accepted.
   */
  lemma AcceptedOutsideBothCircles(lm: Libm)
    requires Sound(lm)
    ensures Sq(5.0 - 0.0) + Sq(0.0 - 0.0) > Sq(1.0)
    ensures Sq(5.0 - 10.0) + Sq(0.0 - 0.0) > Sq(2.0)
    ensures Accepted(lm, SetupFor(Circle(0.0, 0.0, 1.0), Circle(10.0, 0.0, 2.0), DefaultRatio), Sample(5.0, 0.0, 1.0))
  {
    ExampleSetup();
    AcceptedOnExampleSetup(lm);
  }

  /**
   * DoubleNormalizedZernikeComputer: the order, repetition and circles of the
   * next moment, the wanted normalised radius of the inner perimeter, and the
   * outer-circle coefficients derived from the circles.
   */
  class Computer {
    var order: int
    var repetition: int
    var innerCircle: Option<Circle>
    var outerCircle: Option<Circle>
    var innerRadiusToOuterRadiusRatio: real
    var x1: real
    var y1: real
    var c: real

    /** A new computer: no circles yet, and the inner perimeter maps to 1/3. */
    constructor ()
      ensures order == 0 && repetition == 0
      ensures innerCircle == None && outerCircle == None
      ensures innerRadiusToOuterRadiusRatio == DefaultRatio
      ensures x1 == 0.0 && y1 == 0.0 && c == 0.0
    {
      order := 0;
      repetition := 0;
      innerCircle := None;
      outerCircle := None;
      innerRadiusToOuterRadiusRatio := DefaultRatio;
      x1 := 0.0;
      y1 := 0.0;
      c := 0.0;
    }

    /** The circles and coefficients as the moment computation reads them. */
    function CurrentSetup(): Setup
      reads this
      requires innerCircle.Some?
    {
      Setup(innerCircle.value, innerRadiusToOuterRadiusRatio, x1, y1, c)
    }

    method SetOrder(order: int)
      modifies this`order
      ensures this.order == order
    {
      this.order := order;
    }

    method SetRepetition(repetition: int)
      modifies this`repetition
      ensures this.repetition == repetition
    {
      this.repetition := repetition;
    }

    /** Stores both circles and the coefficients of the outer one relative to the inner centre. */
    method SetEnclosingCircles(inner: Circle, outer: Circle)
      modifies this`innerCircle, this`outerCircle, this`x1, this`y1, this`c
      ensures innerCircle == Some(inner) && outerCircle == Some(outer)
      ensures CurrentSetup() == SetupFor(inner, outer, innerRadiusToOuterRadiusRatio)
    {
      innerCircle := Some(inner);
      outerCircle := Some(outer);
      x1 := outer.cx - inner.cx;
      y1 := outer.cy - inner.cy;
      c := x1 * x1 + y1 * y1 - outer.radius * outer.radius;
    }

    /** An empty moment of order n and repetition m, with its radial polynomial read off the table. */
    static method CreateZernikeMoment(d: array2<real>, n: int, m: int) returns (moment: ZernikeMoment)
      requires 0 <= n && IsPascalTable(d) && n < d.Length0
      ensures moment == ZernikeMoment(n, m, RadialPolynomial(n, m), Defined(Zero))
    {
      var p := CreateRadialPolynom(n, m, d);
      moment := ZernikeMoment(n, m, p, Defined(Zero));
    }

    /**
     * The moment calculate starts from. Every pair is accepted: the validity
     * test on n and m has no effect.
     */
    static method InitZernikeMoment(order: int, repetition: int, d: array2<real>) returns (moment: ZernikeMoment)
      requires 0 <= order && IsPascalTable(d) && order < d.Length0
      ensures moment == ZernikeMoment(order, repetition, RadialPolynomial(order, repetition), Defined(Zero))
    {
      moment := CreateZernikeMoment(d, order, repetition);
    }

    /**
     * Visits the samples in order; a sample beyond R is skipped, one with a
     * negative pixel is passed over, and every other one is counted and adds
     * its term. The sum is then scaled by (n + 1) / count.
     */
    method Calculate(lm: Libm, samples: seq<Sample>) returns (moment: ZernikeMoment)
      requires Sound(lm) && 0 <= order
      requires innerCircle.Some? && innerCircle.value.radius > 0.0
      ensures moment == MomentOf(lm, CurrentSetup(), order, repetition, samples)
    {
      var d := PascalsTriangle(order);
      moment := InitZernikeMoment(order, repetition, d);
      var count := 0;
      ghost var s := CurrentSetup();
      var i := 0;
      while i < |samples|
        invariant 0 <= i <= |samples|
        invariant count == Count(Contributions(lm, s, order, repetition, samples[..i]))
        invariant moment == ZernikeMoment(order, repetition, RadialPolynomial(order, repetition),
                                          Defined(Sum(Contributions(lm, s, order, repetition, samples[..i]))))
      {
        ghost var before := Contributions(lm, s, order, repetition, samples[..i]);
        moment, count := AccumulateSample(lm, samples[i], moment, count);
        assert Contributions(lm, s, order, repetition, samples[..i + 1]) ==
          before + [Contribution(lm, s, order, repetition, samples[i])];
        i := i + 1;
      }
      assert samples[..i] == samples;
      moment := moment.(zm := Normalize(moment.zm.value, moment.n, count));
    }

    /**
     * The body of calculate's loop for one sample: a sample beyond R is skipped,
     * one with a negative pixel is passed over, and any other is counted and
     * adds its term pixel * R(n, m)(normalised radius) * e^(-i m theta).
     */
    method AccumulateSample(lm: Libm, smp: Sample, moment: ZernikeMoment, count: nat)
      returns (moment': ZernikeMoment, count': nat)
      requires Sound(lm) && 0 <= order
      requires innerCircle.Some? && innerCircle.value.radius > 0.0
      requires moment.zm.Defined? && moment.m == repetition && moment.p == RadialPolynomial(order, repetition)
      ensures var t := Contribution(lm, CurrentSetup(), order, repetition, smp);
        && count' == count + (if t.Some? then 1 else 0)
        && moment' == moment.(zm := Defined(if t.Some? then Add(moment.zm.value, t.value) else moment.zm.value))
    {
      moment', count' := moment, count;
      var outer := 1.0;
      var inner := outer * innerRadiusToOuterRadiusRatio;
      ghost var s := CurrentSetup();
      ghost var t := Contribution(lm, s, order, repetition, smp);
      var radii := GetRadii(lm, CurrentSetup(), smp.x, smp.y);
      var r1 := innerCircle.value.radius;
      var normRad := -1.0;
      NormalizedRadiusPieces(s.ratio, r1, radii, outer, inner);
      if radii.r <= r1 {
        normRad := inner * (radii.r / r1);
      } else if radii.outer.Num? && radii.r <= radii.outer.value {
        normRad := (outer - inner) * ((radii.r - r1) / (radii.outer.value - r1)) + inner;
      } else {
        return;
      }
      assert NormalizedRadius(s.ratio, r1, radii).value == normRad;
      var pixel := smp.value;
      if pixel >= 0.0 {
        count' := count + 1;
        var rad := Evaluate(moment.p, normRad);
        var product := MultiplyExp(lm, pixel, rad, radii.theta, moment.m);
        assert t.Some? && t.value == product;
        moment' := moment.(zm := Defined(Add(moment.zm.value, product)));
      }
    }
  }
}
