/** The few facts about quotients of reals that the knee proofs use. */
module Ratios {

  /** Multiplication by a change of units; proofs hide its body where only the laws matter. */
  function Times(x: real, k: real): real { x * k }

  lemma CancelScale(a: real, b: real, k: real)
    requires k > 0.0 && b != 0.0
    ensures Times(b, k) != 0.0 && Times(a, k) / Times(b, k) == a / b
  {
    var q := a / b;
    assert q * b == a;
    assert (q * b) * k == q * (b * k);
    QuotientIs(a * k, b * k, q);
  }

  lemma QuotientIs(a: real, b: real, q: real)
    requires b != 0.0 && a == q * b
    ensures a / b == q
  {
  }

  lemma ScaleOrder(a: real, b: real, k: real)
    requires k > 0.0
    ensures a < b <==> Times(a, k) < Times(b, k)
    ensures a <= b <==> Times(a, k) <= Times(b, k)
    ensures Times(0.0, k) == 0.0
  {
    assert (b - a) * k == b * k - a * k;
    if a < b { assert (b - a) * k > 0.0; }
    if b < a { NegativeFactor(b - a, k); }
  }

  lemma TimesMinus(a: real, b: real, k: real)
    ensures Times(a, k) - Times(b, k) == Times(a - b, k)
  {
  }

  lemma SwapFactors(x: real, y: real, z: real)
    ensures Times(x, y) * z == Times(x * z, y)
  {
  }

  lemma SmallerDivisor(y: real, low: real, d: real)
    requires 0.0 < low <= d && y >= 0.0
    ensures y / d <= y / low
  {
    var p, q := y / d, y / low;
    assert p * d == y && q * low == y;
    assert q >= 0.0;
    assert q * (d - low) >= 0.0;
    assert q * (d - low) == q * d - q * low;
    assert (q - p) * d == q * d - p * d;
    SignOfFactor(q - p, d);
  }

  lemma NegativeFactor(x: real, d: real)
    requires x < 0.0 && d > 0.0
    ensures x * d < 0.0
  {
  }

  lemma SignOfFactor(x: real, d: real)
    requires d > 0.0 && x * d >= 0.0
    ensures x >= 0.0
  {
    if x < 0.0 { NegativeFactor(x, d); }
  }

  lemma NegativeQuotient(y: real, d: real)
    requires d > 0.0 && y < 0.0
    ensures y / d < 0.0
  {
  }
}
