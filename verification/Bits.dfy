/**
 Fixed-width unsigned integers, and bitwise OR and left shift on them.
 */
module Bits {
  import Modular

  const TWO8: nat := 0x100
  const TWO16: nat := 0x1_0000
  const TWO20: nat := 0x10_0000
  const TWO24: nat := 0x100_0000
  const TWO28: nat := 0x1000_0000
  const TWO32: nat := 0x1_0000_0000
  const TWO36: nat := 0x10_0000_0000
  const TWO64: nat := 0x1_0000_0000_0000_0000

  type U8 = x: int | 0 <= x < TWO8
  type U16 = x: int | 0 <= x < TWO16
  type U32 = x: int | 0 <= x < TWO32
  type U64 = x: int | 0 <= x < TWO64

  /** Bitwise OR. */
  function Or(a: nat, b: nat): nat
    decreases a + b
  {
    if a == 0 && b == 0 then 0
    else (if a % 2 == 1 || b % 2 == 1 then 1 else 0) + 2 * Or(a / 2, b / 2)
  }

  function Pow2(k: nat): (p: nat)
    ensures p >= 1
  {
    if k == 0 then 1 else 2 * Pow2(k - 1)
  }

  lemma {:induction false} Pow2Sum(a: nat, b: nat)
    ensures Pow2(a + b) == Pow2(a) * Pow2(b)
  {
    if a > 0 {
      Pow2Sum(a - 1, b);
      assert 2 * (Pow2(a - 1) * Pow2(b)) == (2 * Pow2(a - 1)) * Pow2(b);
    }
  }

  lemma Pow2Values()
    ensures Pow2(8) == TWO8 && Pow2(28) == TWO28 && Pow2(36) == TWO36
  {
    Pow2Sum(10, 10);
    Pow2Sum(8, 20);
    Pow2Sum(8, 28);
  }

  lemma {:induction false} OrZero(a: nat)
    ensures Or(a, 0) == a && Or(0, a) == a
  {
    if a > 0 { OrZero(a / 2); }
  }

  lemma OrUnfold(a: nat, b: nat)
    ensures Or(a, b) == (if a % 2 == 1 || b % 2 == 1 then 1 else 0) + 2 * Or(a / 2, b / 2)
  {
  }

  /** The number with the k bits of low below the bits of high. */
  function Join(k: nat, high: nat, low: nat): nat {
    if k == 0 then high else 2 * Join(k - 1, high, low / 2) + low % 2
  }

  lemma {:induction false} JoinIsSum(k: nat, high: nat, low: nat)
    requires low < Pow2(k)
    ensures Join(k, high, low) == high * Pow2(k) + low
  {
    if k > 0 {
      JoinIsSum(k - 1, high, low / 2);
      Doubling(high, Pow2(k - 1));
    }
  }

  lemma Doubling(h: nat, p: nat)
    ensures h * (2 * p) == 2 * (h * p)
  {
  }

  lemma {:induction false} OrBound(k: nat, a: nat, b: nat)
    requires a < Pow2(k) && b < Pow2(k)
    ensures Or(a, b) < Pow2(k)
    decreases k
  {
    if k == 0 {
      OrZero(0);
    } else {
      OrUnfold(a, b);
      OrBound(k - 1, a / 2, b / 2);
    }
  }

  lemma {:induction false} OrJoin(k: nat, h1: nat, l1: nat, h2: nat, l2: nat)
    ensures Or(Join(k, h1, l1), Join(k, h2, l2)) == Join(k, Or(h1, h2), Or(l1, l2))
    decreases k
  {
    if k > 0 {
      OrUnfold(l1, l2);
      OrUnfold(Join(k, h1, l1), Join(k, h2, l2));
      OrJoin(k - 1, h1, l1 / 2, h2, l2 / 2);
    }
  }

  /** OR works separately on the bits above and below position k. */
  lemma OrSplit(k: nat, h1: nat, l1: nat, h2: nat, l2: nat)
    requires l1 < Pow2(k) && l2 < Pow2(k)
    ensures Or(l1, l2) < Pow2(k)
    ensures Or(h1 * Pow2(k) + l1, h2 * Pow2(k) + l2) == Or(h1, h2) * Pow2(k) + Or(l1, l2)
  {
    JoinIsSum(k, h1, l1);
    JoinIsSum(k, h2, l2);
    OrBound(k, l1, l2);
    JoinIsSum(k, Or(h1, h2), Or(l1, l2));
    OrJoin(k, h1, l1, h2, l2);
  }

  lemma HalfFirst(x: nat, p: nat)
    requires p > 0
    ensures x / (2 * p) == x / 2 / p
  {
    var q, r := x / 2 / p, x / 2 % p;
    assert x == 2 * (q * p + r) + x % 2;
    assert x == q * (2 * p) + (2 * r + x % 2);
    QuotientIs(x, 2 * p, q, 2 * r + x % 2);
  }

  lemma QuotientIs(x: nat, d: nat, q: nat, r: nat)
    requires d > 0 && x == q * d + r && r < d
    ensures x / d == q
  {
    var e := x / d;
    Modular.MulBounds(e - q, d);
    assert (e - q) * d == e * d - q * d;
    assert x == d * e + x % d;
  }

  /** Every bit of the result is the disjunction of the two bits. */
  lemma {:induction false} OrBits(a: nat, b: nat, k: nat)
    ensures Or(a, b) / Pow2(k) % 2 == 1 <==> a / Pow2(k) % 2 == 1 || b / Pow2(k) % 2 == 1
    decreases k
  {
    OrUnfold(a, b);
    if k > 0 {
      OrBits(a / 2, b / 2, k - 1);
      HalfFirst(Or(a, b), Pow2(k - 1));
      HalfFirst(a, Pow2(k - 1));
      HalfFirst(b, Pow2(k - 1));
    }
  }
}
