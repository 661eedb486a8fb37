# Double normalised Zernike features

A Dafny model of the Zernike feature computation in ImageJ-ResearchPlugins.
It covers two classes:

- `DoubleNormalizedZernikeComputer`, which computes one Zernike moment of
  order n and repetition m over the pixels of a region;
- `DoubleNormalizedZernikeFeatureSet`, which runs that computer for every
  legal (order, repetition) pair between a minimum and a maximum order and
  reports the magnitude and phase of each moment under a feature name.

The computer normalises the radius with two circles that need not be
concentric. Take the distance r of a pixel from the inner centre and the
distance R from that centre to the outer perimeter in the same direction.
Then:

- a pixel inside the inner circle gets `ratio * r / r1`;
- a pixel between the two perimeters gets `(1 - ratio) * (r - r1) / (R - r1) + ratio`;
- a pixel beyond R is skipped.

Here r1 is the inner radius and the ratio defaults to 1/3. R comes from the
quadratic `R^2 + bR + c = 0`, whose coefficients `x1`, `y1` and `c` are derived
from the circles. Each accepted pixel (one with a non-negative value) adds
`pixel * R(n, m)(radius) * e^(-i m theta)`. The sum is scaled by
`(n + 1) / count`.

Modules:

| module | contents |
|---|---|
| `Numerics` | Exact reals stand for doubles. `Double` is a number or NaN. `Libm` holds the four library functions (sqrt, cos, sin, atan2), passed in as a parameter; `Sound` states the facts the proofs use about them. Also Java's truncating conversions. |
| `BinomialTable` | The Pascal triangle computed in a 2-D array, proved to hold the binomial coefficients. |
| `Radial` | The radial polynomial R(n, m): its coefficients, the loop that stores them, its terms, its symmetries. |
| `ComplexValues` | The per-pixel term, the scaling by (n + 1) / count, and the magnitude and phase. |
| `DualCircle` | `getRadii` and the normalised radius. Proves that, when the inner centre lies strictly inside the outer circle, the skip test is exactly "inside the inner or the outer circle", and that concentric circles give the classical r / r2. |
| `ZernikeEngine` | The moment as a function of the samples, and the `Computer` class whose `Calculate` loop is proved to compute it. |
| `Decimal`, `FeatureNames` | The feature names, `DNZernikeMag_Order_<n>_Rep_<m>` and `DNZernikePhase_Order_<n>_Rep_<m>`. Proved distinct, and covering exactly the legal pairs. |
| `ZernikeFeatureSet` | The map from feature names to values, and the `FeatureSet` class whose `Calculate` builds it. |

## Model

Paths are relative to the repository root.

| member | source | states |
|---|---|---|
| Numerics.Max | src/main/java/function/ops/zernike/DoubleNormalizedZernikeComputer.java:368 | Math.max(r1, R): the result is NaN exactly when R is. Otherwise it is at least both arguments and equal to one of them. |
| Numerics.TruncHalf | src/main/java/function/ops/zernike/DoubleNormalizedZernikeComputer.java:298 | Java's `/ 2` on int truncates toward zero: the remainder a - 2q has the sign of a and is at most 1 in size. |
| Numerics.Truncate | src/main/java/function/ops/zernike/DoubleNormalizedZernikeComputer.java:297-299 | The `(int)` cast of a double truncates toward zero, for both signs. |
| Numerics.PowOfNegation | src/main/java/function/ops/zernike/DoubleNormalizedZernikeComputer.java:299 | (-x)^e is x^e for even e and -x^e for odd e. |
| BinomialTable.PascalsTriangle | src/main/java/function/ops/zernike/DoubleNormalizedZernikeComputer.java:270-282 | computePascalsTriangle returns a fresh (max+1)x(max+1) table. Every entry d[n][k] is the binomial coefficient C(n, k), and 0 above the diagonal. |
| BinomialTable.FillRow | src/main/java/function/ops/zernike/DoubleNormalizedZernikeComputer.java:273-279 | The inner loop fills row n with C(n, k), using the edge value 1 and d[n][k] = n/(n-k) * d[n-1][k]. No other row changes. |
| BinomialTable.RowRecurrence | src/main/java/function/ops/zernike/DoubleNormalizedZernikeComputer.java:278 | The multiplicative recurrence the loop uses is exact: C(n, k) = n/(n-k) * C(n-1, k), also as an integer identity. |
| BinomialTable.BinomialEdges | src/main/java/function/ops/zernike/DoubleNormalizedZernikeComputer.java:274-276 | C(n, 0) = C(n, n) = 1, the entries the loop sets directly. |
| BinomialTable.BinomialAboveDiagonal | src/main/java/function/ops/zernike/DoubleNormalizedZernikeComputer.java:271-273 | C(n, k) = 0 for k > n, matching the zero-initialised entries the loop never writes. |
| BinomialTable.BinomialPositive | src/main/java/function/ops/zernike/DoubleNormalizedZernikeComputer.java:270-282 | Every entry on or below the diagonal is at least 1. |
| BinomialTable.BinomialSymmetry | src/main/java/function/ops/zernike/DoubleNormalizedZernikeComputer.java:270-282 | The table is symmetric: C(n, k) = C(n, n-k). |
| BinomialTable.Absorption | src/main/java/function/ops/zernike/DoubleNormalizedZernikeComputer.java:270-282 | k C(n, k) = n C(n-1, k-1), the identity behind the recurrence. |
| BinomialTable.BinomialFactorials | src/main/java/function/ops/zernike/DoubleNormalizedZernikeComputer.java:270-282 | Step of Radial.RadialAtOne: C(n, k) k! (n-k)! = n!, the closed form of the table's entries. |
| BinomialTable.FactorialPositive | src/main/java/function/ops/zernike/DoubleNormalizedZernikeComputer.java:270-282 | Step of BinomialTable.TrinomialRevision: every factorial is at least 1, so it can be cancelled. |
| BinomialTable.TrinomialRevision | src/main/java/function/ops/zernike/DoubleNormalizedZernikeComputer.java:296-302 | Step of Radial.RadialAtOne: C(a, b) C(b, c) = C(a, c) C(a-c, b-c), which turns the product in computeBinomialFactorial into C(n-s, k) C(k, s). |
| Radial.BinomialFactorial | src/main/java/function/ops/zernike/DoubleNormalizedZernikeComputer.java:296-302 | On a Pascal table, (int)(-1)^k * (int)d[n-k][k] * (int)d[n-2k][(n-m)/2-k] is the Zernike coefficient (-1)^k C(n-k, k) C(n-2k, (n-m)/2-k). |
| Radial.Coefficient | src/main/java/function/ops/zernike/DoubleNormalizedZernikeComputer.java:296-302 | Definition of the coefficient of r^(n-2s): (-1)^s C(n-s, s) C(n-2s, (n-m)/2-s). Its equality with computeBinomialFactorial is stated by Radial.BinomialFactorial, its non-zeroness by Radial.CoefficientNonZero. |
| Radial.PowOfMinusOne | src/main/java/function/ops/zernike/DoubleNormalizedZernikeComputer.java:299 | Math.pow(-1, k) is +1 for even k and -1 for odd k. |
| Radial.RadialPolynomial | src/main/java/function/ops/zernike/DoubleNormalizedZernikeComputer.java:334 | The polynomial of order n has n + 1 coefficients. |
| Radial.CreateRadialPolynom | src/main/java/function/ops/zernike/DoubleNormalizedZernikeComputer.java:333-340 | The loop over s = 0 .. (n - abs(m))/2 stores at exponent n-2s the coefficient from computeBinomialFactorial. The result is exactly R(n, m). |
| Radial.RadialExponents | src/main/java/function/ops/zernike/DoubleNormalizedZernikeComputer.java:335-337 | For abs(m) <= n, a coefficient is non-zero exactly at the exponents n-2s the loop writes. Each such exponent has n's parity and is at least abs(m). |
| Radial.CoefficientNonZero | src/main/java/function/ops/zernike/DoubleNormalizedZernikeComputer.java:337 | Every coefficient the loop writes is non-zero when abs(m) <= n. |
| Radial.RadialTermCount | src/main/java/function/ops/zernike/DoubleNormalizedZernikeComputer.java:335 | R(n, m) has exactly (n - abs(m))/2 + 1 non-zero terms. |
| Radial.RadialEvenInRepetition | src/main/java/function/ops/zernike/DoubleNormalizedZernikeComputer.java:333-340 | When n-abs(m) is even, R(n, m) = R(n, -m), although the second binomial index uses the signed m. |
| Radial.CoefficientEvenInRepetition | src/main/java/function/ops/zernike/DoubleNormalizedZernikeComputer.java:298 | Under the same condition, each coefficient is the same for m and -m. |
| Radial.RadialBeyondOrder | src/main/java/function/ops/zernike/DoubleNormalizedZernikeComputer.java:335-337 | For abs(m) > n, the polynomial is zero, except when abs(m) = n+1: Java's truncating (n - abs(m))/2 = 0 makes the loop write one coefficient, 1 at exponent n. |
| Radial.EvaluateOfNegation | src/main/java/function/ops/zernike/DoubleNormalizedZernikeComputer.java:163 | A polynomial whose terms all have one parity is even or odd under x -> -x. |
| Radial.EvaluateAtZero | src/main/java/function/ops/zernike/DoubleNormalizedZernikeComputer.java:163 | A polynomial evaluated at 0 is its constant coefficient. |
| Radial.RadialSymmetryAndCentre | src/main/java/function/ops/zernike/DoubleNormalizedZernikeComputer.java:163 | R(n, m)(-x) = (-1)^n R(n, m)(x), and R(n, m)(0) = 0 for m != 0. |
| Radial.Evaluate | src/main/java/function/ops/zernike/DoubleNormalizedZernikeComputer.java:163 | Definition of Polynom.evaluate as the sum of coefficient times x^exponent. Its parity, value at 0 and value at 1 are stated by Radial.EvaluateOfNegation, Radial.EvaluateAtZero and Radial.EvaluateAtOne. |
| Radial.RadialAtOne | src/main/java/function/ops/zernike/DoubleNormalizedZernikeComputer.java:333-340 | R(n, m)(1) = 1 for every abs(m) <= n with n - abs(m) even: the polynomial the loop builds has the Zernike normalisation at the unit circle. |
| Radial.EvaluateAtOne | src/main/java/function/ops/zernike/DoubleNormalizedZernikeComputer.java:163 | Step of Radial.RadialAtOne: a polynomial's value at 1 is the sum of its coefficients. |
| Radial.PartialRadial | src/main/java/function/ops/zernike/DoubleNormalizedZernikeComputer.java:334-338 | Step of Radial.RadialAtOne: the coefficients stored after t rounds of the loop; always n + 1 of them. |
| Radial.PartialRadialTotal | src/main/java/function/ops/zernike/DoubleNormalizedZernikeComputer.java:335-338 | Step of Radial.RadialAtOne: each round of the loop adds one term to the sum of the coefficients. |
| Radial.TermSumIsDifference | src/main/java/function/ops/zernike/DoubleNormalizedZernikeComputer.java:296-302 | Step of Radial.RadialAtOne: for m >= 0 the terms of R(n, m) are those of the k-th backward difference of C(., k) at n, with k = (n - m)/2. |
| Radial.AlternatingSumStep | src/main/java/function/ops/zernike/DoubleNormalizedZernikeComputer.java:296-302 | Step of Radial.AlternatingDifference: Pascal's rule splits the (j+1)-th difference into two j-th ones. |
| Radial.AlternatingDifference | src/main/java/function/ops/zernike/DoubleNormalizedZernikeComputer.java:296-302 | Step of Radial.RadialAtOne: the j-th backward difference of C(., k) at N is C(N - j, k - j), so the k-th is 1. |
| ComplexValues.MultiplyExp | src/main/java/function/ops/zernike/DoubleNormalizedZernikeComputer.java:195-200 | The term pixel*rad*(cos m theta - i sin m theta) has modulus abs(pixel*rad), and is real when m = 0. |
| ComplexValues.Normalize | src/main/java/function/ops/zernike/DoubleNormalizedZernikeComputer.java:213-216 | With a count, each part times count equals the old part times (n + 1). With count 0 the source's double division 0 * (n + 1) / 0 gives NaN, and the value is undefined. This assumes that `BigComplex.setReal` and `setImag` store that NaN and that `getRealDouble` returns it; BigComplex is not part of this model. |
| ComplexValues.Magnitude | src/main/java/function/ops/featuresets/DoubleNormalizedZernikeFeatureSet.java:115 | getMagnitude is NaN exactly for an undefined moment (count 0, under the same assumption about `BigComplex.setReal(NaN)` as Normalize). Otherwise it is the non-negative number whose square is re² + im². |
| ComplexValues.Phase | src/main/java/function/ops/featuresets/DoubleNormalizedZernikeFeatureSet.java:117 | getPhase is NaN exactly for an undefined moment. |
| ComplexValues.PolarForm | src/main/java/function/ops/featuresets/DoubleNormalizedZernikeFeatureSet.java:114-117 | For a non-zero moment, magnitude * (cos, sin)(phase) gives back its real and imaginary parts. The two stored features determine the moment. |
| DualCircle.SetupFor | src/main/java/function/ops/zernike/DoubleNormalizedZernikeComputer.java:312-319 | Stores the inner circle and ratio. c < 0 exactly when the inner centre lies strictly inside the outer circle. |
| DualCircle.OuterRootFacts | src/main/java/function/ops/zernike/DoubleNormalizedZernikeComputer.java:352-361 | R is a number exactly when b² - 4c >= 0. It is then a root of R² + bR + c with 2R + b >= 0, the larger root. It is positive when c < 0. |
| DualCircle.PlusRoot | src/main/java/function/ops/zernike/DoubleNormalizedZernikeComputer.java:356 | (-b + sqrt(b² - 4c)) / 2 is the larger root, and positive when c < 0. |
| DualCircle.OuterRootIsLargest | src/main/java/function/ops/zernike/DoubleNormalizedZernikeComputer.java:354-361 | Every real root of R² + bR + c is at most the root getRadii picks. |
| DualCircle.Distance | src/main/java/function/ops/zernike/DoubleNormalizedZernikeComputer.java:344-346 | r is non-negative. |
| DualCircle.Angle | src/main/java/function/ops/zernike/DoubleNormalizedZernikeComputer.java:347 | Definition of theta = atan2(dy, dx) around the inner centre. What it means is stated by DualCircle.PolarLength and DualCircle.RayFacts. |
| DualCircle.PolarLength | src/main/java/function/ops/zernike/DoubleNormalizedZernikeComputer.java:346-347 | sqrt(dx² + dy²) squares to dx² + dy². When it is positive, r * (cos, sin)(atan2(dy, dx)) = (dx, dy). |
| DualCircle.RayFacts | src/main/java/function/ops/zernike/DoubleNormalizedZernikeComputer.java:344-347 | r is the Euclidean distance from the inner centre. The point lies at r along direction theta. |
| DualCircle.Slope | src/main/java/function/ops/zernike/DoubleNormalizedZernikeComputer.java:352 | Definition of b = -2 cos(theta) x1 - 2 sin(theta) y1. DualCircle.GapIdentity states that r² + br + c is the outer-circle inequality at the point. |
| DualCircle.OuterRoot | src/main/java/function/ops/zernike/DoubleNormalizedZernikeComputer.java:354-361 | The quadratic formula as written: NaN exactly when b² - 4c < 0. That the result is the larger root is stated by DualCircle.OuterRootFacts. |
| DualCircle.OuterDistance | src/main/java/function/ops/zernike/DoubleNormalizedZernikeComputer.java:352-368 | R is NaN exactly when the discriminant is negative. Otherwise R >= r1, and when R > r1 it is the larger root of the quadratic. |
| DualCircle.GetRadii | src/main/java/function/ops/zernike/DoubleNormalizedZernikeComputer.java:342-379 | Returns (r, R, theta). R is 0 when r <= r1. Otherwise it is max(r1, the larger root of the quadratic along theta), and NaN when the discriminant is negative. It is the distance to the outer perimeter only when the inner centre lies inside the outer circle (DualCircle.OuterCircleTest). |
| DualCircle.NormalizedRadius | src/main/java/function/ops/zernike/DoubleNormalizedZernikeComputer.java:136-152 | Inside the inner circle a radius is always produced. Beyond it, one is produced exactly when R is a number and r <= R; otherwise the pixel is skipped. |
| DualCircle.NormalizedRadiusPieces | src/main/java/function/ops/zernike/DoubleNormalizedZernikeComputer.java:124-145 | Step of DualCircle.NormalizedRadius: the two branch formulas, with outer = 1 and inner = outer * ratio, are the values produced. |
| DualCircle.NormalizedRadiusBounds | src/main/java/function/ops/zernike/DoubleNormalizedZernikeComputer.java:136-152 | The inner piece lies in [0, ratio] and the outer piece in [ratio, 1] (strictly above ratio when ratio < 1). Every produced radius is in the unit disk. |
| DualCircle.NormalizedRadiusEndpoints | src/main/java/function/ops/zernike/DoubleNormalizedZernikeComputer.java:136-146 | The centre maps to 0, the inner perimeter to ratio, and the outer perimeter to 1. |
| DualCircle.ContinuousAtInnerCircle | src/main/java/function/ops/zernike/DoubleNormalizedZernikeComputer.java:137-145 | The two pieces meet at the inner perimeter: a radius within eps of r1 (relative to each piece's width) maps within eps of ratio. |
| DualCircle.NormalizedRadiusMonotone | src/main/java/function/ops/zernike/DoubleNormalizedZernikeComputer.java:136-152 | Along one direction the normalised radius never decreases with r. A point closer in than one that is kept is also kept. |
| DualCircle.MonotoneInside | src/main/java/function/ops/zernike/DoubleNormalizedZernikeComputer.java:137-141 | Monotone within the inner piece. |
| DualCircle.MonotoneAcross | src/main/java/function/ops/zernike/DoubleNormalizedZernikeComputer.java:137-146 | Monotone across the inner perimeter. |
| DualCircle.MonotoneBetween | src/main/java/function/ops/zernike/DoubleNormalizedZernikeComputer.java:142-146 | Monotone within the outer piece, which keeps every point closer than a kept one. |
| DualCircle.InnerCircleTest | src/main/java/function/ops/zernike/DoubleNormalizedZernikeComputer.java:137 | The test r <= r1 holds exactly when the pixel lies in the closed inner circle. |
| DualCircle.RootCompare | src/main/java/function/ops/zernike/DoubleNormalizedZernikeComputer.java:137 | Comparing a distance to a radius is comparing their squares. |
| DualCircle.OuterCircleTest | src/main/java/function/ops/zernike/DoubleNormalizedZernikeComputer.java:142-152 | When the inner centre is inside the outer circle, take a pixel outside the inner circle. R is then a number, and the pixel is kept (r <= R) exactly when it lies in the closed outer circle. |
| DualCircle.OuterCircleCore | src/main/java/function/ops/zernike/DoubleNormalizedZernikeComputer.java:349-368 | The same in terms of x1, y1 and c relative to the inner centre. |
| DualCircle.RadiiShape | src/main/java/function/ops/zernike/DoubleNormalizedZernikeComputer.java:342-379 | Step of DualCircle.OuterCircleCore: getRadii's three results, written out in terms of distance, angle and the quadratic root. |
| DualCircle.OuterRadiusSide | src/main/java/function/ops/zernike/DoubleNormalizedZernikeComputer.java:352-368 | r <= max(r1, root) exactly when (dx - x1)² + (dy - y1)² <= x1² + y1² - c. |
| DualCircle.PositiveRoot | src/main/java/function/ops/zernike/DoubleNormalizedZernikeComputer.java:354-356 | When c < 0 the chosen root is a positive root. |
| DualCircle.OuterCircleAlgebra | src/main/java/function/ops/zernike/DoubleNormalizedZernikeComputer.java:352-368 | For a point at r > r1 along (cos, sin), r <= max(r1, root) exactly when the point is inside the outer circle. |
| DualCircle.GapIdentity | src/main/java/function/ops/zernike/DoubleNormalizedZernikeComputer.java:352 | Step of DualCircle.OuterCircleAlgebra: with b = -2 cos x1 - 2 sin y1, the outer-circle inequality at the point equals r² + br + c. |
| DualCircle.QuadraticSide | src/main/java/function/ops/zernike/DoubleNormalizedZernikeComputer.java:354-361 | With c < 0, a positive r has r² + br + c <= 0 exactly when r is at most the positive root. |
| DualCircle.ConcentricIsClassical | src/main/java/function/ops/zernike/DoubleNormalizedZernikeComputer.java:124-152 | For concentric circles with ratio r1/r2, a pixel is kept exactly when r <= r2, and its radius is the classical r/r2. |
| DualCircle.ConcentricCore | src/main/java/function/ops/zernike/DoubleNormalizedZernikeComputer.java:136-152 | The same with x1 = y1 = 0 and c = -r2². |
| DualCircle.ConcentricOuter | src/main/java/function/ops/zernike/DoubleNormalizedZernikeComputer.java:352-368 | For concentric circles, R = r2 in every direction. |
| DualCircle.InnerPieceClassical | src/main/java/function/ops/zernike/DoubleNormalizedZernikeComputer.java:140 | With ratio r1/r2, the inner piece is r/r2. |
| DualCircle.OuterPieceClassical | src/main/java/function/ops/zernike/DoubleNormalizedZernikeComputer.java:145 | With ratio r1/r2 and R = r2, the outer piece is r/r2. |
| ZernikeEngine.Contribution | src/main/java/function/ops/zernike/DoubleNormalizedZernikeComputer.java:132-170 | A sample contributes a term exactly when it is accepted (not skipped, non-negative pixel). The term is real for m = 0. |
| ZernikeEngine.Accepted | src/main/java/function/ops/zernike/DoubleNormalizedZernikeComputer.java:136-157 | Definition: not skipped and pixel >= 0. Its geometric meaning is stated by ZernikeEngine.AcceptedWithinCircles and ZernikeEngine.AcceptedOutsideBothCircles. |
| ZernikeEngine.Contributions | src/main/java/function/ops/zernike/DoubleNormalizedZernikeComputer.java:129-172 | One contribution per sample; all real for m = 0. |
| ZernikeEngine.Count | src/main/java/function/ops/zernike/DoubleNormalizedZernikeComputer.java:159 | The count never exceeds the number of samples. |
| ZernikeEngine.Sum | src/main/java/function/ops/zernike/DoubleNormalizedZernikeComputer.java:169 | A sum of real terms is real. |
| ZernikeEngine.MomentFrom | src/main/java/function/ops/zernike/DoubleNormalizedZernikeComputer.java:175-177 | The moment carries n, m and R(n, m). Its value is undefined exactly when no sample was counted, and is real when all terms are. |
| ZernikeEngine.MomentOf | src/main/java/function/ops/zernike/DoubleNormalizedZernikeComputer.java:102-178 | The moment of repetition 0 is real. |
| ZernikeEngine.CountPresent | src/main/java/function/ops/zernike/DoubleNormalizedZernikeComputer.java:159 | count is the number of positions holding a term. |
| ZernikeEngine.CountIsAccepted | src/main/java/function/ops/zernike/DoubleNormalizedZernikeComputer.java:129-172 | count is the number of accepted samples. |
| ZernikeEngine.SumsOfConcatenation | src/main/java/function/ops/zernike/DoubleNormalizedZernikeComputer.java:129-172 | Count and sum over two runs of samples add up. |
| ZernikeEngine.MomentFromSwap | src/main/java/function/ops/zernike/DoubleNormalizedZernikeComputer.java:129-177 | The moment does not depend on the order of two runs of contributions. |
| ZernikeEngine.MomentFromSkipsAbsent | src/main/java/function/ops/zernike/DoubleNormalizedZernikeComputer.java:147-152 | A position without a term changes nothing. |
| ZernikeEngine.ContributionsOfConcatenation | src/main/java/function/ops/zernike/DoubleNormalizedZernikeComputer.java:129-172 | Each sample's contribution depends only on that sample. |
| ZernikeEngine.MomentOfSwap | src/main/java/function/ops/zernike/DoubleNormalizedZernikeComputer.java:129-177 | The moment does not depend on the cursor's visiting order (two runs swapped). |
| ZernikeEngine.RejectedSampleIgnored | src/main/java/function/ops/zernike/DoubleNormalizedZernikeComputer.java:147-157 | Adding a rejected sample anywhere leaves the moment unchanged. |
| ZernikeEngine.AcceptedRadiusInUnitDisk | src/main/java/function/ops/zernike/DoubleNormalizedZernikeComputer.java:136-152 | Every accepted sample's normalised radius is in [0, 1], the domain of the Zernike polynomials. |
| ZernikeEngine.AcceptedWithinCircles | src/main/java/function/ops/zernike/DoubleNormalizedZernikeComputer.java:136-157 | When the inner centre is inside the outer circle, a sample is accepted exactly when its pixel is non-negative and it lies in the inner or the outer circle. |
| ZernikeEngine.AcceptedOutsideBothCircles | src/main/java/function/ops/zernike/DoubleNormalizedZernikeComputer.java:136-157 | Without the inner centre inside the outer circle, the test is no longer the circles: with inner radius 1 at (0, 0) and outer radius 2 at (10, 0), the pixel (5, 0) lies outside both and is accepted (R = 12 along its ray). |
| ZernikeEngine.ExampleSetup | src/main/java/function/ops/zernike/DoubleNormalizedZernikeComputer.java:312-319 | Step of ZernikeEngine.AcceptedOutsideBothCircles: the setup of those circles has x1 = 10, y1 = 0 and c = 96, and (5, 0) lies outside both circles. |
| ZernikeEngine.AcceptedOnExampleSetup | src/main/java/function/ops/zernike/DoubleNormalizedZernikeComputer.java:342-368 | Step of ZernikeEngine.AcceptedOutsideBothCircles: along the ray through (5, 0), R = 12 and r = 5 <= R. |
| ZernikeEngine.Computer.constructor | src/main/java/function/ops/zernike/DoubleNormalizedZernikeComputer.java:57-72 | A new computer has no circles, order and repetition 0, x1 = y1 = c = 0, and ratio 1/3. |
| ZernikeEngine.Computer.SetOrder | src/main/java/function/ops/zernike/DoubleNormalizedZernikeComputer.java:304-306 | Sets the order and nothing else. |
| ZernikeEngine.Computer.SetRepetition | src/main/java/function/ops/zernike/DoubleNormalizedZernikeComputer.java:308-310 | Sets the repetition and nothing else. |
| ZernikeEngine.Computer.SetEnclosingCircles | src/main/java/function/ops/zernike/DoubleNormalizedZernikeComputer.java:312-319 | Stores both circles and x1, y1, c. The resulting setup is the one whose c < 0 exactly when the inner centre is inside the outer circle. |
| ZernikeEngine.Computer.CreateZernikeMoment | src/main/java/function/ops/zernike/DoubleNormalizedZernikeComputer.java:253-261 | An empty moment of order n and repetition m with polynomial R(n, m) and value 0. |
| ZernikeEngine.Computer.InitZernikeMoment | src/main/java/function/ops/zernike/DoubleNormalizedZernikeComputer.java:230-238 | The same moment for every pair: the validity test has no effect. |
| ZernikeEngine.Computer.Calculate | src/main/java/function/ops/zernike/DoubleNormalizedZernikeComputer.java:102-178 | The loop over the samples, then the normalisation, returns exactly MomentOf for the current order, repetition and circles. |
| ZernikeEngine.Computer.AccumulateSample | src/main/java/function/ops/zernike/DoubleNormalizedZernikeComputer.java:130-170 | One loop iteration: count and sum grow by the sample's contribution, and not at all when it is skipped or rejected. |
| Decimal.NatToString | src/main/java/function/ops/featuresets/DoubleNormalizedZernikeFeatureSet.java:92-93 | The decimal rendering of an int in a name is non-empty, all digits, with no leading zero. |
| Decimal.ParseOfNatToString | src/main/java/function/ops/featuresets/DoubleNormalizedZernikeFeatureSet.java:92-93 | Reading the digits back gives the number. |
| Decimal.NatToStringInjective | src/main/java/function/ops/featuresets/DoubleNormalizedZernikeFeatureSet.java:92-93 | Different numbers render differently. |
| FeatureNames.LegalPairsNonEmpty | src/main/java/function/ops/featuresets/DoubleNormalizedZernikeFeatureSet.java:89-91 | The loops produce some pair exactly when orderMin <= orderMax and orderMax >= 0. |
| FeatureNames.RowPairs | src/main/java/function/ops/featuresets/DoubleNormalizedZernikeFeatureSet.java:90-91 | Definition of the pairs one order's inner loop keeps. Its contents, order and size are stated by FeatureNames.RowPairsMembership, RowPairsAscending and RowPairsCount. |
| FeatureNames.LegalPairs | src/main/java/function/ops/featuresets/DoubleNormalizedZernikeFeatureSet.java:89-91 | Definition of the pairs both loops keep. Its contents, order and size are stated by FeatureNames.LegalPairsMembership, LegalPairsAscending and LegalPairsCount. |
| FeatureNames.RowPairsMembership | src/main/java/function/ops/featuresets/DoubleNormalizedZernikeFeatureSet.java:90-91 | One order's inner loop yields exactly the repetitions below the bound with order - repetition even. |
| FeatureNames.LegalPairsMembership | src/main/java/function/ops/featuresets/DoubleNormalizedZernikeFeatureSet.java:89-91 | The nested loops yield exactly the pairs orderMin <= n <= orderMax, 0 <= m <= n, with n - m even. |
| FeatureNames.RowPairsAscending | src/main/java/function/ops/featuresets/DoubleNormalizedZernikeFeatureSet.java:90-91 | One row's pairs come in increasing repetition. |
| FeatureNames.LegalPairsAscending | src/main/java/function/ops/featuresets/DoubleNormalizedZernikeFeatureSet.java:89-91 | All pairs come in increasing (order, repetition), so none repeats. |
| FeatureNames.RowPairsCount | src/main/java/function/ops/featuresets/DoubleNormalizedZernikeFeatureSet.java:90-91 | Number of pairs in one row, in closed form. |
| FeatureNames.Name | src/main/java/function/ops/featuresets/DoubleNormalizedZernikeFeatureSet.java:92-93 | Definition of prefix + order + "_Rep_" + repetition. FeatureNames.NameInjective states that it determines the pair. |
| FeatureNames.MagName | src/main/java/function/ops/featuresets/DoubleNormalizedZernikeFeatureSet.java:92 | The name with prefix DNZernikeMag_Order_. FeatureNames.MagNotPhase states that it differs from every phase name. |
| FeatureNames.PhaseName | src/main/java/function/ops/featuresets/DoubleNormalizedZernikeFeatureSet.java:93 | The name with prefix DNZernikePhase_Order_. |
| FeatureNames.LegalPairsCount | src/main/java/function/ops/featuresets/DoubleNormalizedZernikeFeatureSet.java:89-91 | Number of pairs for an order range, in closed form (floor((n+2)²/4) differences). |
| FeatureNames.NamesOf | src/main/java/function/ops/featuresets/DoubleNormalizedZernikeFeatureSet.java:92-93 | Two names per pair. |
| FeatureNames.NameInjective | src/main/java/function/ops/featuresets/DoubleNormalizedZernikeFeatureSet.java:92-93 | The name "…_Order_<n>_Rep_<m>" determines the pair. |
| FeatureNames.MagNotPhase | src/main/java/function/ops/featuresets/DoubleNormalizedZernikeFeatureSet.java:92-93 | No magnitude name equals a phase name. |
| FeatureNames.FeatureNameInjective | src/main/java/function/ops/featuresets/DoubleNormalizedZernikeFeatureSet.java:92-93 | A feature name determines its kind and its pair. |
| FeatureNames.NamesDistinct | src/main/java/function/ops/featuresets/DoubleNormalizedZernikeFeatureSet.java:86-99 | For ascending pairs, the name list has no duplicates. |
| FeatureNames.NameInNames | src/main/java/function/ops/featuresets/DoubleNormalizedZernikeFeatureSet.java:86-99 | A name is listed exactly when its pair is. |
| FeatureNames.NameAt | src/main/java/function/ops/featuresets/DoubleNormalizedZernikeFeatureSet.java:92-93 | Step of FeatureNames.NamesDistinct and NameInNames: position 2i holds the magnitude name and 2i+1 the phase name of the i-th pair. |
| FeatureNames.FeatureNamesProperties | src/main/java/function/ops/featuresets/DoubleNormalizedZernikeFeatureSet.java:86-99 | getFeatures lists the magnitude and the phase name of a pair exactly when the pair is legal, and lists no name twice. |
| FeatureNames.DefaultPairs | src/main/java/function/ops/featuresets/DoubleNormalizedZernikeFeatureSet.java:62-99 | With the defaults 2..4: the pairs (2,0) (2,2) (3,1) (3,3) (4,0) (4,2) (4,4), and 14 features. |
| FeatureNames.RowOfTwo | src/main/java/function/ops/featuresets/DoubleNormalizedZernikeFeatureSet.java:90-91 | Step of FeatureNames.DefaultPairs: order 2 yields repetitions 0 and 2. |
| FeatureNames.RowOfThree | src/main/java/function/ops/featuresets/DoubleNormalizedZernikeFeatureSet.java:90-91 | Step of FeatureNames.DefaultPairs: order 3 yields repetitions 1 and 3. |
| FeatureNames.RowOfFour | src/main/java/function/ops/featuresets/DoubleNormalizedZernikeFeatureSet.java:90-91 | Step of FeatureNames.DefaultPairs: order 4 yields repetitions 0, 2 and 4. |
| ZernikeFeatureSet.PairMoment | src/main/java/function/ops/featuresets/DoubleNormalizedZernikeFeatureSet.java:108-112 | Definition: the computer's moment of one pair with both circles and the default ratio 1/3. ZernikeEngine.Computer.Calculate and ZernikeFeatureSet.FeatureSet.CalculatePair state that running the computer gives it. |
| ZernikeFeatureSet.FeatureMap | src/main/java/function/ops/featuresets/DoubleNormalizedZernikeFeatureSet.java:114-117 | Definition of the map built by putting each pair's magnitude and phase under its two names, later puts replacing earlier ones. Its keys and values are stated by ZernikeFeatureSet.FeatureMapKeys and FeatureMapValues. |
| ZernikeFeatureSet.FeatureMapKeys | src/main/java/function/ops/featuresets/DoubleNormalizedZernikeFeatureSet.java:114-117 | The keys put are exactly the names of the visited pairs. |
| ZernikeFeatureSet.NamesOfSnoc | src/main/java/function/ops/featuresets/DoubleNormalizedZernikeFeatureSet.java:92-93 | Step of ZernikeFeatureSet.FeatureMapKeys and FeatureSet.GetFeatures: one more pair appends its magnitude and phase names. |
| ZernikeFeatureSet.FeatureMapValues | src/main/java/function/ops/featuresets/DoubleNormalizedZernikeFeatureSet.java:114-117 | For ascending pairs, each pair's magnitude name maps to its moment's magnitude and its phase name to its phase. |
| ZernikeFeatureSet.CalculateMatchesFeatures | src/main/java/function/ops/featuresets/DoubleNormalizedZernikeFeatureSet.java:101-123 | The keys of calculate's map are exactly getFeatures' names, there are two per pair, and each legal pair's names hold its magnitude and phase. |
| ZernikeFeatureSet.MapAfterIsFeatureMap | src/main/java/function/ops/featuresets/DoubleNormalizedZernikeFeatureSet.java:105-120 | The map after any number of steps is the feature map of the pairs visited so far. |
| ZernikeFeatureSet.MapAfterStep | src/main/java/function/ops/featuresets/DoubleNormalizedZernikeFeatureSet.java:106-118 | Step of ZernikeFeatureSet.MapAfterIsFeatureMap and FeatureSet.CalculateRepetition: one repetition step puts two entries when order - repetition is even and nothing otherwise. |
| ZernikeFeatureSet.VisitStep | src/main/java/function/ops/featuresets/DoubleNormalizedZernikeFeatureSet.java:106-118 | Step of ZernikeFeatureSet.MapAfterIsFeatureMap: the feature map of the visited pairs grows by the current pair's two entries when it is legal. |
| ZernikeFeatureSet.FeatureMapSnoc | src/main/java/function/ops/featuresets/DoubleNormalizedZernikeFeatureSet.java:114-117 | Step of ZernikeFeatureSet.VisitStep: visiting one more pair puts its two entries, overriding earlier ones. |
| ZernikeFeatureSet.VisitedRows | src/main/java/function/ops/featuresets/DoubleNormalizedZernikeFeatureSet.java:105-107 | After some steps, the visited pairs are all earlier rows and a prefix of the current row. |
| ZernikeFeatureSet.RowStart | src/main/java/function/ops/featuresets/DoubleNormalizedZernikeFeatureSet.java:105-106 | Step of ZernikeFeatureSet.VisitedRows: starting a row continues from the end of the previous one. |
| ZernikeFeatureSet.VisitRepetition | src/main/java/function/ops/featuresets/DoubleNormalizedZernikeFeatureSet.java:106-107 | Step of ZernikeFeatureSet.VisitedRows and FeatureSet.GetFeatures: one repetition step visits the pair exactly when order - repetition is even. |
| ZernikeFeatureSet.VisitOrder | src/main/java/function/ops/featuresets/DoubleNormalizedZernikeFeatureSet.java:105-106 | Step of FeatureSet.GetFeatures: a finished row completes the pairs up to that order. |
| ZernikeFeatureSet.MapAfterAll | src/main/java/function/ops/featuresets/DoubleNormalizedZernikeFeatureSet.java:105-122 | When the outer loop ends, the map is the feature map of all legal pairs. |
| ZernikeFeatureSet.FeatureSet.constructor | src/main/java/function/ops/featuresets/DoubleNormalizedZernikeFeatureSet.java:61-83 | Orders 2..4, no circles, intermediate value 0.5, and a fresh computer. |
| ZernikeFeatureSet.FeatureSet.GetFeatures | src/main/java/function/ops/featuresets/DoubleNormalizedZernikeFeatureSet.java:86-99 | The nested loops return exactly the names of the legal pairs, in loop order. |
| ZernikeFeatureSet.FeatureSet.Calculate | src/main/java/function/ops/featuresets/DoubleNormalizedZernikeFeatureSet.java:101-123 | The nested loops return the feature map of the legal pairs over this input. Each name maps to the magnitude or phase of its moment. |
| ZernikeFeatureSet.FeatureSet.CalculateRow | src/main/java/function/ops/featuresets/DoubleNormalizedZernikeFeatureSet.java:106-119 | One pass of the inner loop extends the map to the end of the row. |
| ZernikeFeatureSet.FeatureSet.CalculateRepetition | src/main/java/function/ops/featuresets/DoubleNormalizedZernikeFeatureSet.java:107-118 | One repetition step extends the map by that pair's entries when the pair is legal. |
| ZernikeFeatureSet.FeatureSet.CalculatePair | src/main/java/function/ops/featuresets/DoubleNormalizedZernikeFeatureSet.java:108-117 | Setting order, repetition and circles and running the computer gives the pair's magnitude and phase. |
| ZernikeFeatureSet.FeatureSet.SetEnclosingCircles | src/main/java/function/ops/featuresets/DoubleNormalizedZernikeFeatureSet.java:125-129 | Stores both circles. |

## Left out

- Floating point: doubles are exact reals. IEEE rounding is not modelled. NaN is modelled only where the engine can produce it: a negative discriminant in `getRadii`, and a moment with no counted pixel. For the second, the division 0 * (n + 1) / 0 is done in Java doubles and gives NaN; the model assumes that `BigComplex.setReal` and `setImag` store that NaN and `getRealDouble` returns it. `BigComplex` is not part of this model. A `BigComplex` that cannot hold NaN would throw (`NumberFormatException`) instead, for every pair of `calculate`, since the count does not depend on the pair; that thrown case is not modelled. Infinities are not modelled.
- Integer width: `order`, `repetition`, `count` and the casts in `computeBinomialFactorial` are unbounded integers. 32-bit overflow, and binomials beyond the int range, are not modelled.
- Math.sqrt, Math.cos, Math.sin and Math.atan2 are a `Libm` parameter. The proofs use only the facts in `Numerics.Sound`: sqrt of a non-negative number is its non-negative root, cos² + sin² = 1, sin 0 = 0, and atan2 recovers the direction of a non-zero vector.
- The ImageJ types are replaced by values:
  - `Circle` is a centre and a radius;
  - the `IterableInterval` cursor is a sequence of samples (position and pixel value), visited in order;
  - `BigComplex` is a pair of reals;
  - `Polynom` is its coefficient sequence with `evaluate` as a sum of terms;
  - `NamedFeature` is its name string;
  - `DoubleType` is a `Double`.
- The plugin framework is not modelled: the `@Parameter` injection, `initialize` wiring and `AbstractUnaryFunctionOp` / `AbstractFeatureSet` inheritance. `FeatureSet`'s constructor combines the field initialisers with `initialize`, which creates the computer.
- ZernikeEngine.Computer.Calculate requires a set inner circle of positive radius. The source dereferences `innerCircle` (a `NullPointerException` when it is unset). With radius 0 it divides 0 by 0 at the centre pixel.
- ZernikeFeatureSet.FeatureSet.Calculate requires both circles set whenever a pair will be computed: the source calls `outer.getCenter()` in `setEnclosingCircles`. When no pair is computed, the map is empty and no circle is read. The `Reader` function's NaN reading for unset circles is then never used.
- Radial.BinomialFactorial requires its table indices to be in range. The source would throw `ArrayIndexOutOfBoundsException`.
- Orders are non-negative throughout: ZernikeEngine.Computer.Calculate, CreateZernikeMoment and InitZernikeMoment require `0 <= order`, Radial.CreateRadialPolynom requires `0 <= n`, and BinomialTable.PascalsTriangle takes a `nat`. In the source an order of -2 or below fails at `new double[_max + 1][_max + 1]` (line 271), and order -1 reads `d[-1][0]` for repetition 0 (line 297) or depends on `Polynom(-1)`, which is not part of this model. No caller in the core passes a negative order: the feature set's inner loop runs only for 0 <= repetition <= order.
- ZernikeEngine.MomentFrom does not restate the (n + 1) / count scaling; ComplexValues.Normalize states it.
- ZernikeEngine.Computer.Calculate builds the Pascal table and the moment anew on every call, as the source does. The mutable `BigComplex` accumulator is modelled as a value threaded through the loop.
- Loop bodies: `AccumulateSample`, `CalculateRow`, `CalculateRepetition` and `CalculatePair` are bodies of the source's loops, split out as methods so that each proof stays small. They add no behaviour.
- The guard in `initZernikeMoment` at line 232 reads `_order - Math.abs(_repitition) % 2 != 0`, which parses as `order - (|m| % 2)`. Its body is empty, so it has no effect whichever way it parses. The model follows the code and accepts every pair.
- `intermediateNormalizedValue` (0.5) is stored but never read. The normalised radius of the inner perimeter is the computer's `innerRadiusToOuterRadiusRatio` (1/3), not 0.5 as the design comment in the computer describes. The model follows the code.
- ComplexValues.Phase states only when the phase is NaN. Its value is atan2(im, re) as the source computes it. For m = 0 the moment is real (proved), so the phase is atan2(0, re): 0 or pi.
- DualCircle.Distance states only that r >= 0 in its own contract. Its relation to the coordinates is stated in DualCircle.RayFacts.
- ZernikeEngine.AcceptedWithinCircles holds only when the inner centre lies strictly inside the outer circle (c < 0). For c >= 0 the source's test is not "inside one of the circles": ZernikeEngine.AcceptedOutsideBothCircles exhibits an accepted pixel outside both circles. The model follows the code and gives no geometric description of the accepted pixels in that case.
