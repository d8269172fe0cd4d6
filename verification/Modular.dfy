/** Division by a divisor that is not a constant. */
module Modular {

  function Quotient(x: nat, n: nat): nat
    requires n > 0
  {
    x / n
  }

  lemma MulGe(a: nat, d: int)
    requires d >= 1
    ensures a * d >= a
  {
    assert a * d == a * (d - 1) + a;
    assert a * (d - 1) >= 0;
  }

  lemma MulGap(a: nat, q: int, p: int)
    requires q > p
    ensures a * q >= a * p + a
  {
    MulGe(a, q - p);
    assert a * (q - p) == a * q - a * p;
  }

  lemma Unique(a: nat, q: int, r: int, p: int, s: int)
    requires a * q + r == a * p + s && 0 <= r < a && 0 <= s < a
    ensures q == p && r == s
  {
    if q > p {
      MulGap(a, q, p);
    } else if q < p {
      MulGap(a, p, q);
    }
  }

  lemma DivMod(x: int, a: nat)
    requires a > 0
    ensures x == a * (x / a) + x % a && 0 <= x % a < a
  {}

  lemma ModIs(x: int, a: nat, q: int, r: int)
    requires x == a * q + r && 0 <= r < a
    ensures x / a == q && x % a == r
  {
    DivMod(x, a);
    Unique(a, q, r, x / a, x % a);
  }

  lemma MulMod(q: int, a: nat)
    requires a > 0
    ensures a * q % a == 0
  {
    ModIs(a * q, a, q, 0);
  }

  lemma SumMultiple(x: int, y: int, a: nat)
    requires a > 0 && y % a == 0
    ensures (x + y) % a == x % a
  {
    DivMod(x, a);
    DivMod(y, a);
    var p, q, r := x / a, y / a, x % a;
    assert a * (p + q) == a * p + a * q;
    ModIs(x + y, a, p + q, r);
  }

  lemma MultipleTrans(x: int, a: nat, b: nat)
    requires a > 0 && b > 0 && x % a == 0 && a % b == 0
    ensures x % b == 0
  {
    DivMod(x, a);
    DivMod(a, b);
    var q, p := x / a, a / b;
    Assoc(b, p, q);
    MulMod(p * q, b);
  }

  lemma Assoc(b: int, p: int, q: int)
    ensures (b * p) * q == b * (p * q)
  {}

  lemma SmallMod(x: int, a: nat)
    requires 0 <= x < a
    ensures x % a == x
  {
    ModIs(x, a, 0, x);
  }

  lemma RoundDown(x: int, a: nat)
    requires a > 0
    ensures (x - x % a) % a == 0 && x - a < x - x % a <= x
  {
    DivMod(x, a);
    ModIs(x - x % a, a, x / a, 0);
  }

  lemma AtLeast(x: int, a: nat)
    requires x > 0 && a > 0 && x % a == 0
    ensures x >= a
  {
    if x < a { SmallMod(x, a); }
  }
}
