/**
 * The Zernike radial polynomial R(n, m): its coefficients from the binomial
 * table, the loop that stores them, and how the polynomial is evaluated.
 * A polynomial of degree n is the sequence of its n + 1 coefficients,
 * indexed by exponent.
 */
module Radial {
  import opened Numerics
  import opened BinomialTable

  /** (-1)^s. */
  function Sign(s: nat): int
  {
    if s % 2 == 0 then 1 else -1
  }

  /**
   * The coefficient of r^(n - 2s) in R(n, m): (-1)^s C(n - s, s) C(n - 2s, (n - m)/2 - s),
   * with Java's truncating halves, for s = 0 .. (n - |m|) / 2. For |m| <= n this is
   * the Zernike coefficient; the same formula is also evaluated for |m| = n + 1.
   */
  function Coefficient(n: nat, m: int, s: nat): int
    requires s <= TruncHalf(n - Abs(m))
  {
    Sign(s) * Binomial(n - s, s) * Binomial(n - 2 * s, TruncHalf(n - m) - s)
  }

  /** The exponents R(n, m) has a term at: n, n - 2, ..., down to n - 2 ((n - |m|) / 2). */
  predicate IsRadialExponent(n: nat, m: int, e: int)
  {
    0 <= e <= n && (n - e) % 2 == 0 && (n - e) / 2 <= TruncHalf(n - Abs(m))
  }

  /** The coefficient sequence of R(n, m), zero at every exponent that has no term. */
  function RadialPolynomial(n: nat, m: int): (p: seq<int>)
    ensures |p| == n + 1
  {
    seq(n + 1, e requires 0 <= e <= n =>
      if IsRadialExponent(n, m, e) then Coefficient(n, m, (n - e) / 2) else 0)
  }

  /**
   * One coefficient read off the table of doubles: the two binomials are cast
   * to int, the sign is (int) Math.pow(-1, k), and (n - m) / 2 is Java's
   * truncating division. For a Pascal table it is the Zernike coefficient.
   */
  function BinomialFactorial(n: int, m: int, k: int, d: array2<real>): (r: int)
    reads d
    requires 0 <= k && 0 <= n - 2 * k && n - k < d.Length0 && k < d.Length1
    requires 0 <= TruncHalf(n - m) - k < d.Length1
    ensures IsPascalTable(d) && 0 <= n && k <= TruncHalf(n - Abs(m)) ==> r == Coefficient(n, m, k)
  {
    var fac1 := Truncate(d[n - k, k]);
    var fac2 := Truncate(d[n - 2 * k, TruncHalf(n - m) - k]);
    var sign := Truncate(Pow(-1.0, k));
    PowOfMinusOne(k);
    sign * fac1 * fac2
  }

  lemma {:induction false} PowOfMinusOne(k: nat)
    ensures Pow(-1.0, k) == Sign(k) as real
  {
    if k > 0 {
      PowOfMinusOne(k - 1);
    }
  }

  /**
   * Builds R(n, m) by setting the coefficient at n - 2s for s = 0 .. (n - |m|) / 2
   * in a zero polynomial of degree n.
   */
  method CreateRadialPolynom(n: int, m: int, d: array2<real>) returns (p: seq<int>)
    requires 0 <= n
    requires IsPascalTable(d) && n < d.Length0
    ensures p == RadialPolynomial(n, m)
  {
    p := seq(n + 1, e => 0);
    var s := 0;
    while s <= TruncHalf(n - Abs(m))
      invariant 0 <= s && (s == 0 || s <= TruncHalf(n - Abs(m)) + 1)
      invariant p == PartialRadial(n, m, s)
    {
      var pos := n - 2 * s;
      p := p[pos := BinomialFactorial(n, m, s, d)];
      s := s + 1;
    }
  }

  /** Every stored coefficient is non-zero. */
  lemma CoefficientNonZero(n: nat, m: int, s: nat)
    requires Abs(m) <= n && s <= (n - Abs(m)) / 2
    ensures Coefficient(n, m, s) != 0
  {
    BinomialPositive(n - s, s);
    assert (n - m) / 2 - s <= n - 2 * s;
    BinomialPositive(n - 2 * s, (n - m) / 2 - s);
  }

  /**
   * R(n, m) has a non-zero coefficient exactly at its radial exponents, and
   * each of those has the parity of n and is at least |m|.
   */
  lemma RadialExponents(n: nat, m: int, e: nat)
    requires Abs(m) <= n && e <= n
    ensures RadialPolynomial(n, m)[e] != 0 <==> IsRadialExponent(n, m, e)
    ensures IsRadialExponent(n, m, e) ==> e % 2 == n % 2 && e >= Abs(m)
  {
    if IsRadialExponent(n, m, e) {
      CoefficientNonZero(n, m, (n - e) / 2);
    }
  }

  /** The exponents n - 2s for s = 0 .. top. */
  function ExponentsDownFrom(n: int, top: nat): set<int>
  {
    set s | 0 <= s <= top :: n - 2 * s
  }

  lemma {:induction false} ExponentsDownFromSize(n: int, top: nat)
    ensures |ExponentsDownFrom(n, top)| == top + 1
  {
    if top == 0 {
      assert ExponentsDownFrom(n, 0) == {n};
    } else {
      ExponentsDownFromSize(n, top - 1);
      assert ExponentsDownFrom(n, top) == ExponentsDownFrom(n, top - 1) + {n - 2 * top};
      assert n - 2 * top !in ExponentsDownFrom(n, top - 1);
    }
  }

  /** R(n, m) has exactly floor((n - |m|) / 2) + 1 non-zero coefficients. */
  lemma RadialTermCount(n: nat, m: int)
    requires Abs(m) <= n
    ensures |set e | 0 <= e <= n && RadialPolynomial(n, m)[e] != 0| == (n - Abs(m)) / 2 + 1
  {
    var p := RadialPolynomial(n, m);
    var top := (n - Abs(m)) / 2;
    var terms := set e | 0 <= e <= n && p[e] != 0;
    forall e | e in terms
      ensures e in ExponentsDownFrom(n, top)
    {
      RadialExponents(n, m, e);
      assert e == n - 2 * ((n - e) / 2);
    }
    forall e | e in ExponentsDownFrom(n, top)
      ensures e in terms
    {
      var s :| 0 <= s <= top && e == n - 2 * s;
      assert (n - e) / 2 == s;
      RadialExponents(n, m, e);
    }
    assert terms == ExponentsDownFrom(n, top);
    ExponentsDownFromSize(n, top);
  }

  /**
   * When n - |m| is even, R(n, m) and R(n, -m) are the same polynomial, although
   * the table is read at different columns for the two signs.
   */
  lemma RadialEvenInRepetition(n: nat, m: int)
    requires Abs(m) <= n && (n - Abs(m)) % 2 == 0
    ensures RadialPolynomial(n, m) == RadialPolynomial(n, -m)
  {
    var p, q := RadialPolynomial(n, m), RadialPolynomial(n, -m);
    forall e | 0 <= e <= n
      ensures p[e] == q[e]
    {
      if IsRadialExponent(n, m, e) {
        CoefficientEvenInRepetition(n, m, (n - e) / 2);
      }
    }
  }

  /** One coefficient of RadialEvenInRepetition: the two column indices add up to n - 2s. */
  lemma CoefficientEvenInRepetition(n: nat, m: int, s: nat)
    requires Abs(m) <= n && (n - Abs(m)) % 2 == 0 && s <= TruncHalf(n - Abs(m))
    ensures Coefficient(n, m, s) == Coefficient(n, -m, s)
  {
    var a, b := (n - m) / 2, (n + m) / 2;
    assert TruncHalf(n - m) == a && TruncHalf(n + m) == b && a + b == n;
    BinomialSymmetry(n - 2 * s, a - s);
  }

  /**
   * Past the valid range the loop still runs: for |m| = n + 1 it stores the single
   * coefficient 1 at r^n, and for |m| >= n + 2 it stores nothing.
   */
  lemma RadialBeyondOrder(n: nat, m: int, e: nat)
    requires Abs(m) > n && e <= n
    ensures RadialPolynomial(n, m)[e] == if Abs(m) == n + 1 && e == n then 1 else 0
  {
    if Abs(m) == n + 1 && e == n {
      BinomialEdges(n);
      assert TruncHalf(n - m) == 0 || TruncHalf(n - m) == n;
    }
  }

  /** Polynom.evaluate: the sum of coefficient times x to the exponent. */
  function Evaluate(p: seq<int>, x: real): real
  {
    if |p| == 0 then 0.0 else Evaluate(p[..|p| - 1], x) + (p[|p| - 1] as real) * Pow(x, |p| - 1)
  }

  /** A polynomial whose non-zero coefficients all sit at exponents of parity q. */
  predicate HasParity(p: seq<int>, q: nat)
  {
    forall e :: 0 <= e < |p| && p[e] != 0 ==> e % 2 == q % 2
  }

  lemma {:induction false} EvaluateOfNegation(p: seq<int>, q: nat, x: real)
    requires HasParity(p, q)
    ensures Evaluate(p, -x) == if q % 2 == 0 then Evaluate(p, x) else -Evaluate(p, x)
  {
    if |p| > 0 {
      var last := |p| - 1;
      assert HasParity(p[..last], q);
      EvaluateOfNegation(p[..last], q, x);
      PowOfNegation(x, last);
    }
  }

  lemma {:induction false} EvaluateAtZero(p: seq<int>)
    requires |p| > 0
    ensures Evaluate(p, 0.0) == p[0] as real
  {
    if |p| > 1 {
      EvaluateAtZero(p[..|p| - 1]);
      assert Pow(0.0, |p| - 1) == 0.0;
    }
  }

  /**
   * R(n, m) is an even function for even n and an odd one for odd n, and it
   * vanishes at the centre whenever m != 0.
   */
  lemma RadialSymmetryAndCentre(n: nat, m: int, x: real)
    requires Abs(m) <= n
    ensures Evaluate(RadialPolynomial(n, m), -x) ==
      if n % 2 == 0 then Evaluate(RadialPolynomial(n, m), x) else -Evaluate(RadialPolynomial(n, m), x)
    ensures m != 0 ==> Evaluate(RadialPolynomial(n, m), 0.0) == 0.0
  {
    var p := RadialPolynomial(n, m);
    forall e | 0 <= e < |p| && p[e] != 0
      ensures e % 2 == n % 2
    {
      RadialExponents(n, m, e);
    }
    EvaluateOfNegation(p, n, x);
    EvaluateAtZero(p);
    if m != 0 {
      RadialExponents(n, m, 0);
    }
  }

  /** The coefficients of R(n, m) the loop has stored after its first t rounds. */
  function PartialRadial(n: nat, m: int, t: nat): (p: seq<int>)
    ensures |p| == n + 1
  {
    seq(n + 1, e requires 0 <= e <= n =>
      if IsRadialExponent(n, m, e) && (n - e) / 2 < t then Coefficient(n, m, (n - e) / 2) else 0)
  }

  /** The sum of the coefficients, which is the value at 1. */
  function CoefficientTotal(p: seq<int>): int
  {
    if |p| == 0 then 0 else CoefficientTotal(p[..|p| - 1]) + p[|p| - 1]
  }

  /** The sum of the first t terms of R(n, m), highest exponent first. */
  function TermSum(n: nat, m: int, t: nat): int
    requires t <= TruncHalf(n - Abs(m)) + 1
  {
    if t == 0 then 0 else TermSum(n, m, t - 1) + Coefficient(n, m, t - 1)
  }

  /** sum over s < t of (-1)^s C(j, s) C(N - s, k): the j-th backward difference of C(., k) at N, cut at t terms. */
  function AlternatingSum(j: nat, t: nat, N: nat, k: nat): int
    requires t <= N + 1
  {
    if t == 0 then 0 else AlternatingSum(j, t - 1, N, k) + Sign(t - 1) * Binomial(j, t - 1) * Binomial(N - (t - 1), k)
  }

  lemma {:induction false} PowOfOne(e: nat)
    ensures Pow(1.0, e) == 1.0
  {
    if e > 0 {
      PowOfOne(e - 1);
    }
  }

  /** A polynomial's value at 1 is the sum of its coefficients. */
  lemma {:induction false} EvaluateAtOne(p: seq<int>)
    ensures Evaluate(p, 1.0) == CoefficientTotal(p) as real
  {
    if |p| > 0 {
      EvaluateAtOne(p[..|p| - 1]);
      PowOfOne(|p| - 1);
    }
  }

  /** Changing one coefficient changes the sum by the difference. */
  lemma {:induction false} CoefficientTotalUpdate(p: seq<int>, i: nat, v: int)
    requires i < |p|
    ensures CoefficientTotal(p[i := v]) == CoefficientTotal(p) - p[i] + v
  {
    var last := |p| - 1;
    assert p[i := v][..last] == if i == last then p[..last] else p[..last][i := v];
    if i < last {
      CoefficientTotalUpdate(p[..last], i, v);
    }
  }

  lemma {:induction false} CoefficientTotalOfZeros(k: nat)
    ensures CoefficientTotal(seq(k, e => 0)) == 0
  {
    if k > 0 {
      assert seq(k, e => 0)[..k - 1] == seq(k - 1, e => 0);
      CoefficientTotalOfZeros(k - 1);
    }
  }

  /** Each round of the loop adds one term to the coefficient sum. */
  lemma {:induction false} PartialRadialTotal(n: nat, m: int, t: nat)
    requires t <= TruncHalf(n - Abs(m)) + 1
    ensures CoefficientTotal(PartialRadial(n, m, t)) == TermSum(n, m, t)
  {
    if t == 0 {
      assert PartialRadial(n, m, 0) == seq(n + 1, e => 0);
      CoefficientTotalOfZeros(n + 1);
    } else {
      var s := t - 1;
      var pos := n - 2 * s;
      PartialRadialTotal(n, m, s);
      assert PartialRadial(n, m, t) == PartialRadial(n, m, s)[pos := Coefficient(n, m, s)] by {
        assert (n - pos) / 2 == s;
      }
      assert PartialRadial(n, m, s)[pos] == 0 by {
        assert (n - pos) / 2 == s;
      }
      CoefficientTotalUpdate(PartialRadial(n, m, s), pos, Coefficient(n, m, s));
    }
  }

  /** Splitting C(j + 1, s) by Pascal's rule splits the (j + 1)-th difference into two j-th ones. */
  lemma {:induction false} AlternatingSumStep(j: nat, t: nat, N: nat, k: nat)
    requires 1 <= N && 1 <= t <= N + 1
    ensures AlternatingSum(j + 1, t, N, k) == AlternatingSum(j, t, N, k) - AlternatingSum(j, t - 1, N - 1, k)
  {
    if t > 1 {
      AlternatingSumStep(j, t - 1, N, k);
      var s := t - 1;
      var a, b, x := Binomial(j, s - 1), Binomial(j, s), Binomial(N - s, k);
      assert Binomial(j + 1, s) == a + b;
      assert Binomial((N - 1) - (s - 1), k) == x;
      assert Sign(s) == -Sign(s - 1);
      SignedSplit(Sign(s), a, b, x);
    }
  }

  lemma SignedSplit(g: int, a: int, b: int, x: int)
    ensures g * (a + b) * x == g * b * x + g * a * x
    ensures -g * a * x == -(g * a * x)
  {
  }

  /** The j-th backward difference of C(., k) at N is C(N - j, k - j). */
  lemma {:induction false} AlternatingDifference(j: nat, N: nat, k: nat)
    requires j <= k && j <= N
    ensures AlternatingSum(j, j + 1, N, k) == Binomial(N - j, k - j)
  {
    if j > 0 {
      AlternatingSumStep(j - 1, j + 1, N, k);
      BinomialAboveDiagonal(j - 1, j);
      assert AlternatingSum(j - 1, j + 1, N, k) == AlternatingSum(j - 1, j, N, k);
      AlternatingDifference(j - 1, N, k);
      AlternatingDifference(j - 1, N - 1, k);
      assert Binomial(N - j + 1, k - j + 1) == Binomial(N - j, k - j) + Binomial(N - j, k - j + 1);
    }
  }

  /** For m >= 0, the terms of R(n, m) are those of the k-th difference of C(., k) at n, k = (n - m) / 2. */
  lemma {:induction false} TermSumIsDifference(n: nat, m: nat, t: nat)
    requires m <= n && (n - m) % 2 == 0 && t <= (n - m) / 2 + 1
    ensures TermSum(n, m, t) == AlternatingSum((n - m) / 2, t, n, (n - m) / 2)
  {
    if t > 0 {
      var k, s := (n - m) / 2, t - 1;
      TermSumIsDifference(n, m, s);
      assert TruncHalf(n - m) == k;
      TrinomialRevision(n - s, k, s);
      SignedProduct(Sign(s), Binomial(n - s, k), Binomial(k, s), Binomial(n - s, s), Binomial(n - 2 * s, k - s));
    }
  }

  lemma SignedProduct(g: int, a: int, b: int, c: int, d: int)
    requires a * b == c * d
    ensures g * c * d == g * b * a
  {
  }

  /**
   * The normalisation that makes R(n, m) a Zernike radial polynomial: its value at
   * the unit circle is 1 for every pair with n - |m| even.
   */
  lemma RadialAtOne(n: nat, m: int)
    requires Abs(m) <= n && (n - Abs(m)) % 2 == 0
    ensures Evaluate(RadialPolynomial(n, m), 1.0) == 1.0
  {
    var a := Abs(m);
    var k := (n - a) / 2;
    RadialEvenInRepetition(n, m);
    assert RadialPolynomial(n, m) == RadialPolynomial(n, a);
    assert PartialRadial(n, a, k + 1) == RadialPolynomial(n, a);
    PartialRadialTotal(n, a, k + 1);
    TermSumIsDifference(n, a, k + 1);
    AlternatingDifference(k, n, k);
    EvaluateAtOne(RadialPolynomial(n, a));
  }
}
