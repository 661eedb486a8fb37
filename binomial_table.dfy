/**
 * Pascal's triangle of binomial coefficients, built as a table of doubles
 * with the multiplicative row recurrence, and checked against the
 * additive definition of C(n, k).
 */
module BinomialTable {

  /** C(n, k) by Pascal's rule; zero above the diagonal (k > n). */
  function Binomial(n: nat, k: nat): nat
  {
    if k == 0 then 1
    else if n == 0 then 0
    else Binomial(n - 1, k - 1) + Binomial(n - 1, k)
  }

  lemma {:induction false} BinomialAboveDiagonal(n: nat, k: nat)
    requires n < k
    ensures Binomial(n, k) == 0
  {
    if n > 0 {
      BinomialAboveDiagonal(n - 1, k - 1);
      BinomialAboveDiagonal(n - 1, k);
    }
  }

  /** Both ends of every row are 1. */
  lemma {:induction false} BinomialEdges(n: nat)
    ensures Binomial(n, 0) == 1 && Binomial(n, n) == 1
  {
    if n > 0 {
      BinomialEdges(n - 1);
      BinomialAboveDiagonal(n - 1, n);
    }
  }

  /** Every entry on or below the diagonal is at least 1. */
  lemma {:induction false} BinomialPositive(n: nat, k: nat)
    requires k <= n
    ensures Binomial(n, k) >= 1
  {
    if k == n {
      BinomialEdges(n);
    } else if k > 0 {
      BinomialPositive(n - 1, k - 1);
    }
  }

  /** Rows are palindromes: C(n, k) = C(n, n - k). */
  lemma {:induction false} BinomialSymmetry(n: nat, k: nat)
    requires k <= n
    ensures Binomial(n, k) == Binomial(n, n - k)
  {
    if k == 0 || k == n {
      BinomialEdges(n);
    } else {
      BinomialSymmetry(n - 1, k - 1);
      BinomialSymmetry(n - 1, k);
      assert Binomial(n, n - k) == Binomial(n - 1, n - k - 1) + Binomial(n - 1, n - k);
    }
  }

  /** k C(n, k) = n C(n - 1, k - 1). */
  lemma {:induction false} Absorption(n: nat, k: nat)
    requires 1 <= k <= n
    ensures k * Binomial(n, k) == n * Binomial(n - 1, k - 1)
  {
    if n == 1 {
      assert Binomial(1, 1) == Binomial(0, 0) + Binomial(0, 1);
    } else if k == 1 {
      // C(n, 1) = C(n - 1, 0) + C(n - 1, 1) = 1 + (n - 1)
      Absorption(n - 1, 1);
      assert Binomial(n - 2, 0) == 1;
      assert Binomial(n, 1) == Binomial(n - 1, 0) + Binomial(n - 1, 1);
    } else {
      var a := Binomial(n - 1, k - 1);
      var b := Binomial(n - 1, k);
      var x := Binomial(n - 2, k - 2);
      var y := Binomial(n - 2, k - 1);
      assert Binomial(n, k) == a + b;
      assert a == x + y;
      Absorption(n - 1, k - 1);
      assert (k - 1) * a == (n - 1) * x;
      if k < n {
        Absorption(n - 1, k);
      } else {
        BinomialAboveDiagonal(n - 1, k);
        BinomialAboveDiagonal(n - 2, k - 1);
      }
      assert k * b == (n - 1) * y;
      MulDistributes(k, a, b);
      MulDistributes(n - 1, x, y);
      MulDistributes(k - 1, a, 0);
      assert k * a == (k - 1) * a + a;
      assert n * a == (n - 1) * a + a;
    }
  }

  lemma MulDistributes(p: int, a: int, b: int)
    ensures p * (a + b) == p * a + p * b
    ensures (p + 1) * a == p * a + a
  {
  }

  /**
   * The recurrence the table is filled with: for 0 < k < n,
   * C(n, k) = n / (n - k) * C(n - 1, k).
   */
  lemma RowRecurrence(n: nat, k: nat)
    requires 0 < k < n
    ensures (n - k) * Binomial(n, k) == n * Binomial(n - 1, k)
    ensures Binomial(n, k) as real == (n as real / (n - k) as real) * Binomial(n - 1, k) as real
  {
    var c := Binomial(n, k);
    var a := Binomial(n - 1, k - 1);
    var b := Binomial(n - 1, k);
    assert c == a + b;
    Absorption(n, k);
    assert k * c == n * a;
    MulDistributes(n, a, b);
    assert n * c == n * a + n * b;
    assert (n - k) * c == n * c - k * c by {
      MulDistributes(c, n - k, k);
    }
    RealQuotient(n - k, c, n * b);
    assert (n * b) as real == n as real * b as real;
  }

  function Factorial(n: nat): nat
  {
    if n == 0 then 1 else n * Factorial(n - 1)
  }

  lemma {:induction false} FactorialPositive(n: nat)
    ensures Factorial(n) >= 1
  {
    if n > 0 {
      FactorialPositive(n - 1);
      MulLeftMonotone(n, 1, Factorial(n - 1));
    }
  }

  lemma MulLeftMonotone(p: nat, a: nat, b: nat)
    requires a <= b
    ensures p * a <= p * b
  {
  }

  /** The closed form of the table's entries: C(n, k) k! (n - k)! = n!. */
  lemma {:induction false} BinomialFactorials(n: nat, k: nat)
    requires k <= n
    ensures Binomial(n, k) * Factorial(k) * Factorial(n - k) == Factorial(n)
  {
    if k == 0 {
      assert Binomial(n, 0) == 1;
    } else {
      var c, c' := Binomial(n, k), Binomial(n - 1, k - 1);
      var f, g, prev := Factorial(k - 1), Factorial(n - k), Factorial(n - 1);
      BinomialFactorials(n - 1, k - 1);
      Absorption(n, k);
      FactorialStep(c, c', k, n, f, g, prev, Factorial(k), Factorial(n));
    }
  }

  /** The arithmetic step of BinomialFactorials, from k C(n, k) = n C(n - 1, k - 1). */
  lemma FactorialStep(c: int, c': int, k: int, n: int, f: int, g: int, prev: int, fk: int, fn: int)
    requires c' * f * g == prev && k * c == n * c'
    requires fk == k * f && fn == n * prev
    ensures c * fk * g == fn
  {
    Regroup(c, k, f, g);
    Regroup(c', n, f, g);
  }

  /** a (b c) d = (b a) c d = b (a c d). */
  lemma Regroup(a: int, b: int, c: int, d: int)
    ensures a * (b * c) * d == (b * a) * c * d
    ensures (b * a) * c * d == b * (a * c * d)
  {
  }

  /**
   * Choosing b of a and then c of those b is choosing c of a and then the
   * remaining b - c of the other a - c.
   */
  lemma TrinomialRevision(a: nat, b: nat, c: nat)
    requires c <= b <= a
    ensures Binomial(a, b) * Binomial(b, c) == Binomial(a, c) * Binomial(a - c, b - c)
  {
    var x, y := Binomial(a, b), Binomial(b, c);
    var u, v := Binomial(a, c), Binomial(a - c, b - c);
    var fc, fbc, fab := Factorial(c), Factorial(b - c), Factorial(a - b);
    BinomialFactorials(b, c);
    BinomialFactorials(a, b);
    BinomialFactorials(a, c);
    BinomialFactorials(a - c, b - c);
    assert y * fc * fbc == Factorial(b);
    assert x * Factorial(b) * fab == Factorial(a);
    assert v * fbc * fab == Factorial(a - c);
    assert u * fc * Factorial(a - c) == Factorial(a);
    var w := fc * fbc * fab;
    Regroup5(x, y, u, v, fc, fbc, fab);
    FactorialPositive(c);
    FactorialPositive(b - c);
    FactorialPositive(a - b);
    CancelPositive(x * y, u * v, fc, fbc, fab);
  }

  /** The two ways the products meet in TrinomialRevision. */
  lemma Regroup5(x: int, y: int, u: int, v: int, p: int, q: int, r: int)
    ensures (x * y) * (p * q * r) == x * (y * p * q) * r
    ensures (u * v) * (p * q * r) == u * p * (v * q * r)
  {
  }

  lemma CancelPositive(p: int, q: int, f: nat, g: nat, h: nat)
    requires f >= 1 && g >= 1 && h >= 1 && p * (f * g * h) == q * (f * g * h)
    ensures p == q
  {
    var w := f * g * h;
    assert w >= 1 by {
      MulLeftMonotone(f, 1, g);
      MulLeftMonotone(f * g, 1, h);
    }
    assert (p - q) * w == 0;
  }

  /** From q c = p with q > 0 follows c = p / q over the reals. */
  lemma RealQuotient(q: int, c: int, p: int)
    requires q > 0 && q * c == p
    ensures c as real == p as real / q as real
  {
    assert (q * c) as real == q as real * c as real;
  }

  /** A table of doubles holding C(n, k) at row n, column k, for every cell. */
  ghost predicate IsPascalTable(d: array2<real>)
    reads d
  {
    && d.Length0 == d.Length1
    && forall n, k :: 0 <= n < d.Length0 && 0 <= k < d.Length1 ==> d[n, k] == Binomial(n, k) as real
  }

  /**
   * Builds the (max + 1) x (max + 1) table row by row; cells left of and on
   * the diagonal are filled, the others keep the array's initial zero.
   */
  method PascalsTriangle(max: nat) returns (d: array2<real>)
    ensures fresh(d)
    ensures d.Length0 == max + 1 && IsPascalTable(d)
  {
    d := new real[max + 1, max + 1]((i, j) => 0.0);
    var n := 0;
    while n <= max
      invariant 0 <= n <= max + 1
      invariant d.Length0 == max + 1 && d.Length1 == max + 1
      invariant forall i, j :: 0 <= i < n && 0 <= j <= max ==> d[i, j] == Binomial(i, j) as real
      invariant forall i, j :: n <= i <= max && 0 <= j <= max ==> d[i, j] == 0.0
    {
      FillRow(d, n);
      n := n + 1;
    }
  }

  /** The inner loop of the construction: fills row n from row n - 1. */
  method FillRow(d: array2<real>, n: nat)
    requires n < d.Length0 == d.Length1
    requires forall i, j :: 0 <= i < n && 0 <= j < d.Length1 ==> d[i, j] == Binomial(i, j) as real
    requires forall j :: 0 <= j < d.Length1 ==> d[n, j] == 0.0
    modifies d
    ensures forall i, j :: 0 <= i < d.Length0 && 0 <= j < d.Length1 && i != n ==> d[i, j] == old(d[i, j])
    ensures forall j :: 0 <= j < d.Length1 ==> d[n, j] == Binomial(n, j) as real
  {
    var k := 0;
    while k <= n
      invariant 0 <= k <= n + 1
      invariant forall i, j :: 0 <= i < d.Length0 && 0 <= j < d.Length1 && i != n ==> d[i, j] == old(d[i, j])
      invariant forall j :: 0 <= j < k ==> d[n, j] == Binomial(n, j) as real
      invariant forall j :: k <= j < d.Length1 ==> d[n, j] == 0.0
    {
      if (n == 0 && k == 0) || n == k || k == 0 {
        BinomialEdges(n);
        d[n, k] := 1.0;
      } else {
        RowRecurrence(n, k);
        d[n, k] := (n as real / (n - k) as real) * d[n - 1, k];
      }
      k := k + 1;
    }
    forall j | n < j < d.Length1
      ensures d[n, j] == Binomial(n, j) as real
    {
      BinomialAboveDiagonal(n, j);
    }
  }
}
