/**
 * Small facts of ordered-field arithmetic that the solver does not find on
 * its own once products of variables are involved.
 */
module Algebra {

  lemma MulNonNeg(x: real, y: real)
    requires x >= 0.0 && y >= 0.0
    ensures x * y >= 0.0
  {}

  lemma MulPos(x: real, y: real)
    requires x > 0.0 && y > 0.0
    ensures x * y > 0.0
  {}

  lemma MulNonZero(x: real, y: real)
    requires x != 0.0 && y != 0.0
    ensures x * y != 0.0
  {}

  lemma MulMono(c: real, a: real, b: real)
    requires c >= 0.0 && a >= b
    ensures c * a >= c * b
  {
    MulNonNeg(c, a - b);
  }

  lemma MulStrictMono(c: real, a: real, b: real)
    requires c > 0.0 && a > b
    ensures c * a > c * b
  {
    MulPos(c, a - b);
  }

  /** The closed form of the balance survives one more month in front. */
  lemma BalanceStep(b: real, r: real, e: real, p: real, g: real)
    requires b * r == (p * (1.0 + r) - e) * r * g - e * (g - 1.0)
    ensures b * r == p * r * ((1.0 + r) * g) - e * ((1.0 + r) * g - 1.0)
  {
  }

  /** One step of Bernoulli's inequality. */
  lemma BernoulliStep(r: real, g: real, n: real)
    requires r >= 0.0 && n >= 0.0 && g >= 1.0 + n * r
    ensures (1.0 + r) * g >= 1.0 + (n + 1.0) * r
  {
    MulMono(1.0 + r, g, 1.0 + n * r);
    MulNonNeg(n * r, r);
  }

  /** One step of the bound g - 1 < n * r * g on the growth factor g = (1 + r)^n. */
  lemma GrowthStep(r: real, g: real, m: real)
    requires r > 0.0 && m >= 0.0 && g >= 1.0 && g - 1.0 <= m * r * g
    ensures (1.0 + r) * g - 1.0 < (m + 1.0) * r * ((1.0 + r) * g)
  {
    var big := (1.0 + r) * g;
    MulMono(1.0 + r, m * r * g, g - 1.0);
    MulMono(1.0 + r, g, 1.0);
    MulStrictMono(r, big, 1.0);
    calc {
      big - 1.0;
    ==
      (1.0 + r) * (g - 1.0) + r;
    <=
      (1.0 + r) * (m * r * g) + r;
    <
      (1.0 + r) * (m * r * g) + r * big;
    ==
      (m + 1.0) * r * big;
    }
  }

  /** A non-zero factor cancels from both sides of an equation. */
  lemma Cancel(x: real, y: real, d: real)
    requires d != 0.0 && x * d == y * d
    ensures x == y
  {
    assert (x - y) * d == x * d - y * d;
    if x != y {
      MulNonZero(x - y, d);
    }
  }

  /** A balance b with b * r == p * r * g - e * (g - 1) is zero exactly for one payment q. */
  lemma PayoffAlgebra(b: real, r: real, p: real, g: real, e: real, q: real)
    requires r != 0.0 && g != 1.0
    requires b * r == p * r * g - e * (g - 1.0)
    requires q * (g - 1.0) == p * r * g
    ensures b == 0.0 <==> e == q
  {
    if b == 0.0 {
      assert b * r == 0.0;
      assert e * (g - 1.0) == p * r * g;
      Cancel(e, q, g - 1.0);
    } else {
      MulNonZero(b, r);
    }
  }

  /**
   * Bounds on e with e * (g - 1) == p * r * g, given the Bernoulli bound
   * g - 1 >= n * r and the growth bound g - 1 < n * r * g.
   */
  lemma InstallmentAlgebra(p: real, r: real, n: real, g: real, e: real)
    requires p > 0.0 && r > 0.0 && n >= 1.0
    requires g - 1.0 >= n * r && g - 1.0 < n * r * g
    requires e * (g - 1.0) == p * r * g
    ensures e > p * r
    ensures e * n > p
    ensures e * n <= p + p * r * n
  {
    var d := g - 1.0;
    MulPos(n, r);
    MulPos(p, r);
    assert e * d == p * r * d + p * r;
    if e <= p * r {
      MulMono(d, p * r, e);
      assert false;
    }
    assert e * n * d == p * (n * r * g);
    MulStrictMono(p, n * r * g, d);
    if e * n <= p {
      MulMono(d, p, e * n);
      assert false;
    }
    assert (p + p * r * n) * d - e * n * d == p * (d - n * r);
    MulNonNeg(p, d - n * r);
    if e * n > p + p * r * n {
      MulStrictMono(d, e * n, p + p * r * n);
      assert false;
    }
  }

  /** Splitting an amount into k equal parts and adding them back gives the amount. */
  lemma SharesAddUp(amount: real, k: real)
    requires k != 0.0
    ensures k * (amount / k) == amount
  {
  }

  /**
   * The formula's value at a growth factor g whose reciprocal is q: it times
   * 1 - q is the numerator's first two factors.
   */
  lemma ReciprocalGrowth(l: real, r: real, g: real, q: real)
    requires g * q == 1.0 && g != 1.0
    ensures l * r * g / (g - 1.0) * (1.0 - q) == l * r
  {
    var d := g - 1.0;
    assert g * (1.0 - q) == d;
    assert l * r * g / d * (1.0 - q) == l * r / d * (g * (1.0 - q));
  }
}
