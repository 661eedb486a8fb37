/**
 * The dual-circle normalisation: a sample's distance r from the inner
 * centre, its angle theta, the distance R from the inner centre to the
 * (possibly off-centre) outer circle along the same ray, and the piecewise
 * linear map of r into [0, 1].
 */
module DualCircle {
  import opened Numerics

  datatype Circle = Circle(cx: real, cy: real, radius: real)

  /**
   * What the computer holds about the circles: the inner circle, the
   * normalised radius at its perimeter, and the coefficients x1, y1, c of
   * the outer circle relative to the inner centre.
   */
  datatype Setup = Setup(inner: Circle, ratio: real, x1: real, y1: real, c: real)

  /** The three values the computer returns per sample: r, R and theta. */
  datatype Radii = Radii(r: real, outer: Double, theta: real)

  /**
   * The coefficients stored by setEnclosingCircles: (x1, y1) is the offset of
   * the outer centre from the inner one and c = x1^2 + y1^2 - r_outer^2, so c < 0
   * exactly when the inner centre lies strictly inside the outer circle.
   */
  function SetupFor(inner: Circle, outer: Circle, ratio: real): (s: Setup)
    ensures s.inner == inner && s.ratio == ratio
    ensures s.c < 0.0 <==> Sq(inner.cx - outer.cx) + Sq(inner.cy - outer.cy) < Sq(outer.radius)
  {
    var x1 := outer.cx - inner.cx;
    var y1 := outer.cy - inner.cy;
    Setup(inner, ratio, x1, y1, x1 * x1 + y1 * y1 - outer.radius * outer.radius)
  }

  /** The linear coefficient b of R^2 + b R + c = 0 along the ray at angle theta. */
  function Slope(lm: Libm, s: Setup, theta: real): real
  {
    -2.0 * Cos(lm, theta) * s.x1 - 2.0 * Sin(lm, theta) * s.y1
  }

  /**
   * The quadratic formula as the source applies it: the "+" root when the
   * discriminant is positive, the "-" root otherwise, and NaN (the square root
   * of a negative number) when the ray misses the outer circle. Whenever a
   * root exists the result is the larger root; it is positive when c < 0.
   */
  function OuterRoot(lm: Libm, b: real, c: real): (root: Double)
    requires Sound(lm)
    ensures root.NaN? <==> b * b - 4.0 * c < 0.0
  {
    var disc := b * b - 4.0 * c;
    if b * b > 4.0 * c then
      Num((-1.0 * b + Sqrt(lm, disc)) / 2.0)
    else if disc < 0.0 then
      NaN
    else
      Num((-1.0 * b - Sqrt(lm, disc)) / 2.0)
  }

  /**
   * Whenever a root exists the source's choice is a root, the larger one
   * (2 root + b >= 0); it exists exactly when the discriminant is
   * non-negative, and it is positive when c < 0.
   */
  lemma OuterRootFacts(lm: Libm, b: real, c: real)
    requires Sound(lm)
    ensures var root := OuterRoot(lm, b, c);
      && (root.Num? <==> b * b - 4.0 * c >= 0.0)
      && (root.Num? ==> root.value * root.value + b * root.value + c == 0.0 && 2.0 * root.value + b >= 0.0)
      && (c < 0.0 ==> root.Num? && root.value > 0.0)
  {
    var disc := b * b - 4.0 * c;
    if b * b > 4.0 * c {
      SqrtOf(lm, disc);
      PlusRoot(b, c, Sqrt(lm, disc));
    } else if disc >= 0.0 {
      var sq := Sqrt(lm, disc);
      SqrtOf(lm, disc);
      SquareRootUnique(sq, 0.0);
      SquareNonNegative(b);
    } else {
      SquareNonNegative(b);
    }
  }

  /** (-b + sqrt(b^2 - 4c)) / 2 solves t^2 + b t + c = 0, and is positive when c < 0. */
  lemma PlusRoot(b: real, c: real, sq: real)
    requires 0.0 <= sq && sq * sq == b * b - 4.0 * c
    ensures var t := (-1.0 * b + sq) / 2.0; t * t + b * t + c == 0.0 && 2.0 * t + b >= 0.0
    ensures c < 0.0 ==> (-1.0 * b + sq) / 2.0 > 0.0
  {
    var t := (-1.0 * b + sq) / 2.0;
    assert t * t + b * t + c == (sq * sq - b * b + 4.0 * c) / 4.0;
    if c < 0.0 && sq <= b {
      SquareLess(sq, b);
    }
  }

  /** Every root of t^2 + b t + c lies at or below the root the source picks. */
  lemma OuterRootIsLargest(lm: Libm, b: real, c: real, t: real)
    requires Sound(lm)
    requires t * t + b * t + c == 0.0
    ensures OuterRoot(lm, b, c).Num? && t <= OuterRoot(lm, b, c).value
  {
    assert b * b - 4.0 * c == (2.0 * t + b) * (2.0 * t + b);
    SquareNonNegative(2.0 * t + b);
    OuterRootFacts(lm, b, c);
    var root := OuterRoot(lm, b, c).value;
    assert (t - root) * (t + root + b) == (t * t + b * t + c) - (root * root + b * root + c);
    ZeroProduct(t - root, t + root + b);
  }

  /** The angle of the sample around the inner centre. */
  function Angle(lm: Libm, s: Setup, px: real, py: real): real
  {
    Atan2(lm, py - s.inner.cy, px - s.inner.cx)
  }

  /**
   * The distance r of the sample from the inner centre. The sample sits at
   * r (cos theta, sin theta) from that centre, theta being its angle.
   */
  function Distance(lm: Libm, s: Setup, px: real, py: real): (r: real)
    requires Sound(lm)
    ensures r >= 0.0
  {
    PolarLength(lm, px - s.inner.cx, py - s.inner.cy);
    Sqrt(lm, Sq(px - s.inner.cx) + Sq(py - s.inner.cy))
  }

  /** The length of (dx, dy) squares to dx^2 + dy^2, and a non-zero length gives back the vector. */
  lemma PolarLength(lm: Libm, dx: real, dy: real)
    requires Sound(lm)
    ensures Sqrt(lm, Sq(dx) + Sq(dy)) >= 0.0
    ensures Sqrt(lm, Sq(dx) + Sq(dy)) * Sqrt(lm, Sq(dx) + Sq(dy)) == Sq(dx) + Sq(dy)
    ensures Sqrt(lm, Sq(dx) + Sq(dy)) > 0.0 ==>
      OnRay(dx, dy, Sqrt(lm, Sq(dx) + Sq(dy)), Cos(lm, Atan2(lm, dy, dx)), Sin(lm, Atan2(lm, dy, dx)))
  {
    assert Sq(dx) + Sq(dy) == dx * dx + dy * dy;
    var r := Sqrt(lm, dx * dx + dy * dy);
    SquareNonNegative(dx);
    SquareNonNegative(dy);
    SqrtOf(lm, dx * dx + dy * dy);
    if r > 0.0 {
      NonZeroVector(r, dx, dy);
      Polar(lm, dx, dy);
    }
  }


  /**
   * R for a sample outside the inner circle: max(r_inner, root) for the root
   * of R^2 + b R + c = 0 taken along theta, NaN when that has no real root.
   */
  function OuterDistance(lm: Libm, s: Setup, theta: real): (big: Double)
    requires Sound(lm)
    ensures big.NaN? <==> Sq(Slope(lm, s, theta)) - 4.0 * s.c < 0.0
    ensures big.Num? ==>
      var b := Slope(lm, s, theta);
      big.value >= s.inner.radius &&
      (big.value > s.inner.radius ==> big.value * big.value + b * big.value + s.c == 0.0 && 2.0 * big.value + b >= 0.0)
  {
    OuterRootFacts(lm, Slope(lm, s, theta), s.c);
    Max(s.inner.radius, OuterRoot(lm, Slope(lm, s, theta), s.c))
  }

  lemma NonZeroVector(r: real, dx: real, dy: real)
    requires r > 0.0 && r * r == Sq(dx) + Sq(dy)
    ensures dx != 0.0 || dy != 0.0
  {
    if dx == 0.0 && dy == 0.0 {
      assert Sq(dx) + Sq(dy) == 0.0;
      ZeroProduct(r, r);
    }
  }

  /**
   * getRadii: r is the distance from the inner centre, theta the angle of the
   * sample around it, and R is only computed outside the inner circle (0 inside).
   */
  function GetRadii(lm: Libm, s: Setup, px: real, py: real): (rd: Radii)
    requires Sound(lm)
    ensures rd.r == Distance(lm, s, px, py) && rd.theta == Angle(lm, s, px, py)
    ensures rd.r <= s.inner.radius ==> rd.outer == Num(0.0)
    ensures rd.r > s.inner.radius ==> rd.outer == OuterDistance(lm, s, rd.theta)
  {
    var r := Distance(lm, s, px, py);
    var theta := Angle(lm, s, px, py);
    var big := if r > s.inner.radius then OuterDistance(lm, s, theta) else Num(0.0);
    Radii(r, big, theta)
  }

  /**
   * The normalised radius of a sample, or None when it is skipped. Inside the
   * inner circle r maps linearly onto [0, ratio]; between the circles it maps
   * linearly onto [ratio, 1]; beyond R (or where R is NaN) the sample is skipped.
   */
  function NormalizedRadius(ratio: real, r1: real, rd: Radii): (res: Option<real>)
    requires r1 > 0.0
    ensures rd.r <= r1 ==> res.Some?
    ensures rd.r > r1 ==> (res.Some? <==> rd.outer.Num? && rd.r <= rd.outer.value)
  {
    var outer := 1.0;
    var inner := outer * ratio;
    if rd.r <= r1 then
      Some(inner * (rd.r / r1))
    else if rd.outer.Num? && rd.r <= rd.outer.value then
      Some((outer - inner) * ((rd.r - r1) / (rd.outer.value - r1)) + inner)
    else
      None
  }

  /** The two linear pieces, for the perimeter values outer = 1 and inner = outer * ratio. */
  lemma NormalizedRadiusPieces(ratio: real, r1: real, rd: Radii, outer: real, inner: real)
    requires r1 > 0.0 && outer == 1.0 && inner == outer * ratio
    ensures rd.r <= r1 ==> NormalizedRadius(ratio, r1, rd).value == inner * (rd.r / r1)
    ensures rd.r > r1 && rd.outer.Num? && rd.r <= rd.outer.value ==>
      NormalizedRadius(ratio, r1, rd).value == (outer - inner) * ((rd.r - r1) / (rd.outer.value - r1)) + inner
  {
  }

  /**
   * For 0 <= ratio <= 1: a sample inside the inner circle maps into [0, ratio],
   * an accepted sample between the circles into [ratio, 1] (above ratio unless
   * ratio = 1), so every accepted sample lands in the unit disk.
   */
  lemma NormalizedRadiusBounds(ratio: real, r1: real, rd: Radii)
    requires 0.0 <= ratio <= 1.0 && r1 > 0.0 && rd.r >= 0.0
    ensures var res := NormalizedRadius(ratio, r1, rd);
      && (rd.r <= r1 ==> 0.0 <= res.value <= ratio)
      && (rd.r > r1 && res.Some? ==> ratio <= res.value <= 1.0 && (ratio < 1.0 ==> ratio < res.value))
      && (res.Some? ==> 0.0 <= res.value <= 1.0)
  {
    if rd.r <= r1 {
      ScaledFraction(ratio, rd.r, r1);
    } else if rd.outer.Num? && rd.r <= rd.outer.value {
      ScaledFraction(1.0 - ratio, rd.r - r1, rd.outer.value - r1);
    }
  }

  /** For 0 <= x <= d: a * (x / d) lies in [0, a], and is positive when a and x are. */
  lemma ScaledFraction(a: real, x: real, d: real)
    requires 0.0 <= a && 0.0 <= x <= d && 0.0 < d
    ensures 0.0 <= a * (x / d) <= a
    ensures 0.0 < a && 0.0 < x ==> 0.0 < a * (x / d)
  {
    var q := x / d;
    DivRight(0.0, x, d);
    DivRight(x, d, d);
    DivSelf(d);
    MulLeft(a, 0.0, q);
    MulLeft(a, q, 1.0);
    if 0.0 < a && 0.0 < x {
      DivRightStrict(0.0, x, d);
      MulPositive(a, q);
    }
  }

  /** The two linear pieces meet at the inner perimeter, start at 0 and reach 1 at R. */
  lemma NormalizedRadiusEndpoints(ratio: real, r1: real, big: Double, theta: real)
    requires r1 > 0.0
    ensures NormalizedRadius(ratio, r1, Radii(0.0, big, theta)) == Some(0.0)
    ensures NormalizedRadius(ratio, r1, Radii(r1, big, theta)) == Some(ratio)
    ensures big.Num? && big.value > r1 ==> NormalizedRadius(ratio, r1, Radii(big.value, big, theta)) == Some(1.0)
  {
    DivSelf(r1);
    if big.Num? && big.value > r1 {
      DivSelf(big.value - r1);
    }
  }

  /**
   * Continuity at the inner perimeter: within eps * min(r1, R - r1) of r1, on
   * either side, the normalised radius is within eps of ratio.
   */
  lemma ContinuousAtInnerCircle(ratio: real, r1: real, big: real, theta: real, eps: real, r: real)
    requires 0.0 <= ratio <= 1.0 && 0.0 < r1 < big && eps > 0.0 && 0.0 <= r
    requires r1 - eps * r1 < r < r1 + eps * (big - r1) && r <= big
    ensures NormalizedRadius(ratio, r1, Radii(r, Num(big), theta)).Some?
    ensures var v := NormalizedRadius(ratio, r1, Radii(r, Num(big), theta)).value;
      ratio - eps < v < ratio + eps
  {
    var rd := Radii(r, Num(big), theta);
    NormalizedRadiusBounds(ratio, r1, rd);
    if r <= r1 {
      var q, q' := r / r1, (r1 - r) / r1;
      assert q + q' == 1.0 by {
        DivAdd(r, r1 - r, r1);
        DivSelf(r1);
      }
      assert ratio * q + ratio * q' == ratio * (q + q');
      SmallFraction(ratio, r1 - r, r1, eps);
    } else {
      SmallFraction(1.0 - ratio, r - r1, big - r1, eps);
    }
  }

  /** For 0 <= a <= 1 and 0 <= x < eps * d: a * (x / d) < eps. */
  lemma SmallFraction(a: real, x: real, d: real, eps: real)
    requires 0.0 <= a <= 1.0 && 0.0 < d && 0.0 <= x < eps * d
    ensures a * (x / d) < eps
  {
    var q := x / d;
    DivRight(0.0, x, d);
    DivRightStrict(x, eps * d, d);
    MulDiv(eps, d);
    MulLeft(q, a, 1.0);
  }

  /** Along one ray (same R), a farther accepted sample never gets a smaller normalised radius. */
  lemma NormalizedRadiusMonotone(ratio: real, r1: real, big: Double, theta: real, r: real, r': real)
    requires 0.0 <= ratio <= 1.0 && r1 > 0.0 && 0.0 <= r <= r'
    requires NormalizedRadius(ratio, r1, Radii(r', big, theta)).Some?
    ensures NormalizedRadius(ratio, r1, Radii(r, big, theta)).Some?
    ensures NormalizedRadius(ratio, r1, Radii(r, big, theta)).value <=
            NormalizedRadius(ratio, r1, Radii(r', big, theta)).value
  {
    if r' <= r1 {
      MonotoneInside(ratio, r1, big, theta, r, r');
    } else if r <= r1 {
      MonotoneAcross(ratio, r1, big, theta, r, r');
    } else {
      MonotoneBetween(ratio, r1, big, theta, r, r');
    }
  }

  /** NormalizedRadiusMonotone for two samples inside the inner circle. */
  lemma MonotoneInside(ratio: real, r1: real, big: Double, theta: real, r: real, r': real)
    requires 0.0 <= ratio && r1 > 0.0 && r <= r' <= r1
    ensures NormalizedRadius(ratio, r1, Radii(r, big, theta)).value <=
            NormalizedRadius(ratio, r1, Radii(r', big, theta)).value
  {
    calc {
      NormalizedRadius(ratio, r1, Radii(r, big, theta)).value;
      == { NormalizedRadiusPieces(ratio, r1, Radii(r, big, theta), 1.0, ratio); }
      ratio * (r / r1);
      <= { ScaledMonotone(ratio, r, r', r1); }
      ratio * (r' / r1);
      == { NormalizedRadiusPieces(ratio, r1, Radii(r', big, theta), 1.0, ratio); }
      NormalizedRadius(ratio, r1, Radii(r', big, theta)).value;
    }
  }

  /** NormalizedRadiusMonotone for one sample inside the inner circle and one accepted beyond it. */
  lemma MonotoneAcross(ratio: real, r1: real, big: Double, theta: real, r: real, r': real)
    requires 0.0 <= ratio <= 1.0 && r1 > 0.0 && 0.0 <= r <= r1 < r'
    requires NormalizedRadius(ratio, r1, Radii(r', big, theta)).Some?
    ensures NormalizedRadius(ratio, r1, Radii(r, big, theta)).value <=
            NormalizedRadius(ratio, r1, Radii(r', big, theta)).value
  {
    calc {
      NormalizedRadius(ratio, r1, Radii(r, big, theta)).value;
      == { NormalizedRadiusPieces(ratio, r1, Radii(r, big, theta), 1.0, ratio); }
      ratio * (r / r1);
      <= { ScaledFraction(ratio, r, r1); }
      ratio;
      <= { ScaledFraction(1.0 - ratio, r' - r1, big.value - r1); }
      (1.0 - ratio) * ((r' - r1) / (big.value - r1)) + ratio;
      == { NormalizedRadiusPieces(ratio, r1, Radii(r', big, theta), 1.0, ratio); }
      NormalizedRadius(ratio, r1, Radii(r', big, theta)).value;
    }
  }

  /** NormalizedRadiusMonotone for two accepted samples between the circles. */
  lemma MonotoneBetween(ratio: real, r1: real, big: Double, theta: real, r: real, r': real)
    requires ratio <= 1.0 && r1 > 0.0 && r1 < r <= r'
    requires NormalizedRadius(ratio, r1, Radii(r', big, theta)).Some?
    ensures NormalizedRadius(ratio, r1, Radii(r, big, theta)).Some?
    ensures NormalizedRadius(ratio, r1, Radii(r, big, theta)).value <=
            NormalizedRadius(ratio, r1, Radii(r', big, theta)).value
  {
    calc {
      NormalizedRadius(ratio, r1, Radii(r, big, theta)).value;
      == { NormalizedRadiusPieces(ratio, r1, Radii(r, big, theta), 1.0, ratio); }
      (1.0 - ratio) * ((r - r1) / (big.value - r1)) + ratio;
      <= { ScaledMonotone(1.0 - ratio, r - r1, r' - r1, big.value - r1); }
      (1.0 - ratio) * ((r' - r1) / (big.value - r1)) + ratio;
      == { NormalizedRadiusPieces(ratio, r1, Radii(r', big, theta), 1.0, ratio); }
      NormalizedRadius(ratio, r1, Radii(r', big, theta)).value;
    }
  }

  /** For a >= 0 and d > 0, x |-> a * (x / d) is monotone. */
  lemma ScaledMonotone(a: real, x: real, y: real, d: real)
    requires 0.0 <= a && x <= y && 0.0 < d
    ensures a * (x / d) <= a * (y / d)
  {
    DivRight(x, y, d);
    MulLeft(a, x / d, y / d);
  }

  /** A sample is within the inner circle (r <= r_inner) exactly when its squared distance is at most r_inner^2. */
  lemma InnerCircleTest(lm: Libm, s: Setup, px: real, py: real)
    requires Sound(lm) && s.inner.radius >= 0.0
    ensures GetRadii(lm, s, px, py).r <= s.inner.radius <==>
      Sq(px - s.inner.cx) + Sq(py - s.inner.cy) <= Sq(s.inner.radius)
  {
    var rd := GetRadii(lm, s, px, py);
    RayFacts(lm, s, px, py);
    RootCompare(rd.r, s.inner.radius, Sq(px - s.inner.cx) + Sq(py - s.inner.cy));
  }

  /** For non-negative r and r1: r <= r1 exactly when r^2 <= r1^2. */
  lemma RootCompare(r: real, r1: real, q: real)
    requires 0.0 <= r && 0.0 <= r1 && r * r == q
    ensures r <= r1 <==> q <= Sq(r1)
  {
    if r <= r1 {
      SquareLess(r, r1);
    } else {
      SquareLess(r1, r);
    }
  }

  /**
   * Exclusion correctness: when the inner centre lies strictly inside the
   * outer circle (c < 0), a sample outside the inner circle gets a defined R,
   * and r <= R holds exactly when the sample lies inside or on the outer circle.
   */
  lemma OuterCircleTest(lm: Libm, inner: Circle, outer: Circle, ratio: real, px: real, py: real)
    requires Sound(lm) && inner.radius >= 0.0
    requires SetupFor(inner, outer, ratio).c < 0.0
    ensures var rd := GetRadii(lm, SetupFor(inner, outer, ratio), px, py);
      rd.r > inner.radius ==>
        rd.outer.Num? &&
        (rd.r <= rd.outer.value <==> Sq(px - outer.cx) + Sq(py - outer.cy) <= Sq(outer.radius))
  {
    var s := SetupFor(inner, outer, ratio);
    OuterCircleCore(lm, s, px, py);
    assert px - s.inner.cx - s.x1 == px - outer.cx && py - s.inner.cy - s.y1 == py - outer.cy;
    assert Sq(s.x1) + Sq(s.y1) - s.c == Sq(outer.radius);
  }

  /** OuterCircleTest for any coefficients x1, y1, c with c < 0. */
  lemma OuterCircleCore(lm: Libm, s: Setup, px: real, py: real)
    requires Sound(lm) && s.inner.radius >= 0.0 && s.c < 0.0
    ensures var rd := GetRadii(lm, s, px, py);
      rd.r > s.inner.radius ==>
        rd.outer.Num? &&
        (rd.r <= rd.outer.value <==>
          Sq(px - s.inner.cx - s.x1) + Sq(py - s.inner.cy - s.y1) <= Sq(s.x1) + Sq(s.y1) - s.c)
  {
    RadiiShape(lm, s, px, py);
    OuterRadiusSide(lm, s, px, py);
  }

  /** OuterCircleCore stated over the distance, the angle and the quadratic's root. */
  lemma OuterRadiusSide(lm: Libm, s: Setup, px: real, py: real)
    requires Sound(lm) && s.inner.radius >= 0.0 && s.c < 0.0
    ensures var r, theta := Distance(lm, s, px, py), Angle(lm, s, px, py);
      var big := Max(s.inner.radius, OuterRoot(lm, Slope(lm, s, theta), s.c));
      r > s.inner.radius ==>
        big.Num? &&
        (r <= big.value <==>
          Sq(px - s.inner.cx - s.x1) + Sq(py - s.inner.cy - s.y1) <= Sq(s.x1) + Sq(s.y1) - s.c)
  {
    var r, theta := Distance(lm, s, px, py), Angle(lm, s, px, py);
    if r > s.inner.radius {
      var b := Slope(lm, s, theta);
      var root := OuterRoot(lm, b, s.c);
      PositiveRoot(lm, b, s.c);
      RayFacts(lm, s, px, py);
      OuterCircleAlgebra(px - s.inner.cx, py - s.inner.cy, s.x1, s.y1, s.c,
        Cos(lm, theta), Sin(lm, theta), r, b, root.value, s.inner.radius);
    }
  }

  /** getRadii's three results in terms of the distance, the angle and the quadratic's root. */
  lemma RadiiShape(lm: Libm, s: Setup, px: real, py: real)
    requires Sound(lm)
    ensures var rd, r, theta := GetRadii(lm, s, px, py), Distance(lm, s, px, py), Angle(lm, s, px, py);
      && rd.r == r && rd.theta == theta
      && (r > s.inner.radius ==> rd.outer == Max(s.inner.radius, OuterRoot(lm, Slope(lm, s, theta), s.c)))
  {
  }

  /**
   * The distance r squares to the squared distance from the inner centre, and
   * a sample away from that centre sits at r (cos theta, sin theta) from it.
   */
  lemma RayFacts(lm: Libm, s: Setup, px: real, py: real)
    requires Sound(lm)
    ensures Distance(lm, s, px, py) * Distance(lm, s, px, py) == Sq(px - s.inner.cx) + Sq(py - s.inner.cy)
    ensures Distance(lm, s, px, py) > 0.0 ==>
      OnRay(px - s.inner.cx, py - s.inner.cy, Distance(lm, s, px, py),
            Cos(lm, Angle(lm, s, px, py)), Sin(lm, Angle(lm, s, px, py)))
  {
    PolarLength(lm, px - s.inner.cx, py - s.inner.cy);
  }

  /** (dx, dy) is r (cs, sn), at distance r from the origin. */
  predicate OnRay(dx: real, dy: real, r: real, cs: real, sn: real)
  {
    r * cs == dx && r * sn == dy && r * r == Sq(dx) + Sq(dy)
  }

  /** root is a positive root of t^2 + b t + c, for c < 0. */
  predicate PositiveRootOf(root: real, b: real, c: real)
  {
    c < 0.0 && 0.0 < root && root * root + b * root + c == 0.0
  }

  /** With c < 0 the source's root is the positive root of t^2 + b t + c. */
  lemma PositiveRoot(lm: Libm, b: real, c: real)
    requires Sound(lm) && c < 0.0
    ensures OuterRoot(lm, b, c).Num? && PositiveRootOf(OuterRoot(lm, b, c).value, b, c)
  {
    OuterRootFacts(lm, b, c);
  }

  /** The real-number core of OuterCircleCore, free of the library functions. */
  lemma OuterCircleAlgebra(dx: real, dy: real, x1: real, y1: real, c: real,
                           cs: real, sn: real, r: real, b: real, root: real, r1: real)
    requires OnRay(dx, dy, r, cs, sn) && 0.0 <= r1 < r
    requires b == -2.0 * cs * x1 - 2.0 * sn * y1
    requires PositiveRootOf(root, b, c)
    ensures Max(r1, Num(root)).Num?
    ensures r <= Max(r1, Num(root)).value <==> Sq(dx - x1) + Sq(dy - y1) <= Sq(x1) + Sq(y1) - c
  {
    var gap := r * r + b * r + c;
    GapIdentity(dx, dy, x1, y1, c, cs, sn, r, b);
    QuadraticSide(r, b, c, root);
    assert r <= Max(r1, Num(root)).value <==> gap <= 0.0;
  }

  /**
   * For the point r (cs, sn) and a circle centred at (x1, y1) with
   * c = x1^2 + y1^2 - radius^2, the squared distance to the centre minus
   * radius^2 is r^2 + b r + c, with b = -2 cs x1 - 2 sn y1 as along the ray.
   */
  lemma GapIdentity(dx: real, dy: real, x1: real, y1: real, c: real, cs: real, sn: real, r: real, b: real)
    requires r * cs == dx && r * sn == dy && r * r == Sq(dx) + Sq(dy)
    requires b == -2.0 * cs * x1 - 2.0 * sn * y1
    ensures Sq(dx - x1) + Sq(dy - y1) - (Sq(x1) + Sq(y1) - c) == r * r + b * r + c
  {
    assert dx * x1 + dy * y1 == r * (cs * x1 + sn * y1);
  }

  /**
   * When c < 0 the quadratic t^2 + b t + c has one positive root; a positive r
   * makes it non-positive exactly when r is at most that root.
   */
  lemma QuadraticSide(r: real, b: real, c: real, root: real)
    requires c < 0.0 && 0.0 < root && root * root + b * root + c == 0.0 && 0.0 < r
    ensures r * r + b * r + c <= 0.0 <==> r <= root
  {
    var other := -b - root;
    assert root * other == c;
    assert other < 0.0 by {
      if other >= 0.0 {
        MulNonNegative(root, other);
      }
    }
    assert r * r + b * r + c == (r - root) * (r - other);
    if r <= root {
      MulLeft(r - other, r - root, 0.0);
      assert (r - other) * (r - root) == (r - root) * (r - other);
    } else {
      MulPositive(r - root, r - other);
    }
  }

  /**
   * Concentric circles with ratio = r_inner / r_outer reduce to the classical
   * single-circle normalisation r / r_outer, with everything beyond r_outer skipped.
   */
  lemma ConcentricIsClassical(lm: Libm, inner: Circle, outer: Circle, px: real, py: real)
    requires Sound(lm)
    requires inner.cx == outer.cx && inner.cy == outer.cy && 0.0 < inner.radius < outer.radius
    ensures var s := SetupFor(inner, outer, inner.radius / outer.radius);
      var rd := GetRadii(lm, s, px, py);
      var res := NormalizedRadius(s.ratio, inner.radius, rd);
      (res.Some? <==> rd.r <= outer.radius) && (res.Some? ==> res.value == rd.r / outer.radius)
  {
    var s := SetupFor(inner, outer, inner.radius / outer.radius);
    assert s.x1 == 0.0 && s.y1 == 0.0 && s.c == -(outer.radius * outer.radius);
    ConcentricCore(lm, s, outer.radius, px, py);
  }

  /** ConcentricIsClassical for the coefficients of two concentric circles. */
  lemma ConcentricCore(lm: Libm, s: Setup, r2: real, px: real, py: real)
    requires Sound(lm)
    requires s.x1 == 0.0 && s.y1 == 0.0 && s.c == -(r2 * r2)
    requires 0.0 < s.inner.radius < r2 && s.ratio == s.inner.radius / r2
    ensures var rd := GetRadii(lm, s, px, py);
      var res := NormalizedRadius(s.ratio, s.inner.radius, rd);
      (res.Some? <==> rd.r <= r2) && (res.Some? ==> res.value == rd.r / r2)
  {
    var r1 := s.inner.radius;
    var rd := GetRadii(lm, s, px, py);
    var r := rd.r;
    if r > r1 {
      ConcentricOuter(lm, s, r2, rd.theta);
      if r <= r2 {
        OuterPieceClassical(r1, r2, r);
      }
    } else {
      InnerPieceClassical(r1, r2, r);
    }
  }

  /** Inside the inner circle, ratio r / r1 with ratio = r1 / r2 is r / r2. */
  lemma InnerPieceClassical(r1: real, r2: real, r: real)
    requires 0.0 < r1 < r2
    ensures (1.0 * (r1 / r2)) * (r / r1) == r / r2
  {
    DivCancel(r1, r2, r);
  }

  /** For concentric circles R is the outer radius along every ray. */
  lemma ConcentricOuter(lm: Libm, s: Setup, r2: real, theta: real)
    requires Sound(lm)
    requires s.x1 == 0.0 && s.y1 == 0.0 && s.c == -(r2 * r2) && 0.0 < s.inner.radius < r2
    ensures OuterDistance(lm, s, theta) == Num(r2)
  {
    var b := Slope(lm, s, theta);
    assert b == 0.0;
    var disc := b * b - 4.0 * s.c;
    assert disc == (2.0 * r2) * (2.0 * r2);
    SqrtOf(lm, disc);
    SquareRootUnique(Sqrt(lm, disc), 2.0 * r2);
  }

  /** Between concentric circles, ratio + (1 - ratio) (r - r1) / (r2 - r1) with ratio = r1 / r2 is r / r2. */
  lemma OuterPieceClassical(r1: real, r2: real, r: real)
    requires 0.0 < r1 < r2
    ensures (1.0 - 1.0 * (r1 / r2)) * ((r - r1) / (r2 - r1)) + 1.0 * (r1 / r2) == r / r2
  {
    DivAdd(r2 - r1, r1, r2);
    DivSelf(r2);
    DivCancel(r2 - r1, r2, r - r1);
    DivAdd(r - r1, r1, r2);
  }
}
