/**
 Decimal text of natural numbers, as strconv.AppendUint and %d print it.
 */
module Decimals {

  predicate IsDigit(c: char) { '0' <= c <= '9' }

  function Digit(d: nat): (c: char)
    requires d < 10
    ensures IsDigit(c)
  {
    ('0' as int + d) as char
  }

  function Decimal(n: nat): (s: string)
    ensures s != [] && forall i | 0 <= i < |s| :: IsDigit(s[i])
    ensures n > 0 ==> s[0] != '0'
  {
    if n < 10 then [Digit(n)] else Decimal(n / 10) + [Digit(n % 10)]
  }

  /** Reading decimal text back. */
  function Value(s: string): int {
    if s == [] then 0 else Value(s[..|s| - 1]) * 10 + (s[|s| - 1] as int - '0' as int)
  }

  lemma {:induction false} ValueOfDecimal(n: nat)
    ensures Value(Decimal(n)) == n
  {
    var s := Decimal(n);
    if n < 10 {
      assert s[..0] == [] && Value([]) == 0;
    } else {
      ValueOfDecimal(n / 10);
      assert s[..|s| - 1] == Decimal(n / 10);
    }
  }

  predicate NoDigitFirst(s: string) { s == [] || !IsDigit(s[0]) }

  lemma LongerNumber(a: string, x: string, b: string, y: string)
    requires a + x == b + y && |a| < |b|
    requires forall i | 0 <= i < |b| :: IsDigit(b[i])
    ensures x != [] && IsDigit(x[0])
  {
    assert b[|a|] == (b + y)[|a|] == (a + x)[|a|];
  }

  /** Text that starts with a number determines the number and the rest. */
  lemma DecimalThenText(n: nat, x: string, m: nat, y: string)
    requires NoDigitFirst(x) && NoDigitFirst(y)
    requires Decimal(n) + x == Decimal(m) + y
    ensures n == m && x == y
  {
    var a, b := Decimal(n), Decimal(m);
    if |a| < |b| { LongerNumber(a, x, b, y); }
    if |b| < |a| { LongerNumber(b, y, a, x); }
    assert a == (a + x)[..|a|] && x == (a + x)[|a|..];
    assert b == (b + y)[..|b|] && y == (b + y)[|b|..];
    ValueOfDecimal(n);
    ValueOfDecimal(m);
  }
}
