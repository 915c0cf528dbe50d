/**
 Positions modulo a size that is not a constant.
 */
module Modular {

  lemma MulBounds(k: int, d: nat)
    requires d > 0
    ensures k >= 1 ==> k * d >= d
    ensures k <= 0 ==> k * d <= 0
    ensures k <= -1 ==> k * d + d <= 0
  {
  }

  /** Numbers that share a slot are at least depth apart. */
  lemma SameSlotApart(m: nat, n: nat, depth: nat)
    requires 0 < depth && m < n && m % depth == n % depth
    ensures m + depth <= n
  {
    var q := n / depth - m / depth;
    assert n - m == q * depth;
    MulBounds(q, depth);
  }

  lemma NextLap(m: nat, depth: nat)
    requires 0 < depth
    ensures (m + depth) % depth == m % depth
  {
    var k := (m + depth) / depth - m / depth - 1;
    assert k * depth == m % depth - (m + depth) % depth;
    MulBounds(k, depth);
  }

  lemma MultipleWithin(n: nat, d: nat)
    requires 0 < d && n <= d
    ensures n % d == 0 <==> n == 0 || n == d
  {
    var q := n / d;
    assert n == q * d + n % d;
    MulBounds(q, d);
    MulBounds(q - 1, d);
  }
}
