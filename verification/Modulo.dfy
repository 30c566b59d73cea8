/** Division facts proved once, so that no other proof meets nonlinear arithmetic. */
module Modulo {

  lemma ModUnique(x: int, k: int, q: int, r: int)
    requires k > 0 && 0 <= r < k && x == k * q + r
    ensures x / k == q && x % k == r
  {
    var d := x / k - q;
    assert x == k * (x / k) + x % k;
    assert k * d == r - x % k by { assert k * d == k * (x / k) - k * q; }
    if d >= 1 { MulAtLeast(k, d); }
    if d <= -1 { MulAtLeast(k, -d); }
  }

  lemma MulAtLeast(k: int, d: int)
    requires k > 0 && d >= 1
    ensures k * d >= k
  {
    assert k * d == k + k * (d - 1);
  }

  lemma MulMonotone(k: nat, a: nat, b: nat)
    requires a <= b
    ensures k * a <= k * b
  {
    assert k * b == k * a + k * (b - a);
  }

  lemma ModSmall(x: int, k: int)
    requires 0 <= x < k
    ensures x % k == x && x / k == 0
  {
    ModUnique(x, k, 0, x);
  }

  lemma ModShift(a: int, k: int)
    requires k > 0
    ensures (a + k) % k == a % k && (a + k) / k == a / k + 1
  {
    assert k * (a / k + 1) == k * (a / k) + k;
    ModUnique(a + k, k, a / k + 1, a % k);
  }

  lemma ModBounds(s: nat, n: nat)
    requires n > 0
    ensures 0 <= s % n <= s && s % n < n
  {
    MulMonotone(n, 0, s / n);
  }
}
