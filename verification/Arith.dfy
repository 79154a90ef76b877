/** The few facts about products, quotients and remainders the other modules use. */
module Arith {
  lemma MulLe(a: nat, b: nat, c: nat)
    requires a <= b
    ensures a * c <= b * c
  {
    assert b * c == a * c + (b - a) * c;
  }

  lemma MulDist(a: int, b: int, c: int)
    ensures (a + b) * c == a * c + b * c
  {
  }

  lemma MulAssoc(a: int, b: int, c: int)
    ensures a * b * c == a * (b * c)
  {
  }

  lemma DivModDef(x: nat, m: nat)
    requires m > 0
    ensures x == x / m * m + x % m && 0 <= x % m < m && 0 <= x / m
  {
  }

  /** Quotient and remainder are determined by their defining equation. */
  lemma DivModUnique(q: nat, m: nat, r: nat)
    requires r < m
    ensures (q * m + r) / m == q && (q * m + r) % m == r
  {
    var x := q * m + r;
    var q', r' := x / m, x % m;
    DivModDef(x, m);
    if q' < q {
      MulLe(q' + 1, q, m);
      MulDist(q', 1, m);
    } else if q < q' {
      MulLe(q + 1, q', m);
      MulDist(q, 1, m);
    }
  }

  lemma ShiftFits(r: nat, p: nat, low: nat, m: nat)
    requires low < p && r < m
    ensures r * p + low < m * p
  {
    MulLe(r + 1, m, p);
    MulDist(r, 1, p);
  }

  lemma DivideTwice(x: nat, a: nat, b: nat)
    requires a > 0 && b > 0
    ensures x / a / b == x / (a * b)
  {
    var q := x / a;
    DivModDef(x, a);
    DivModDef(q, b);
    MulAssoc(q / b, b, a);
    MulDist(q / b * b, q % b, a);
    ShiftFits(q % b, a, x % a, b);
    assert x == q / b * (a * b) + (q % b * a + x % a);
    DivModUnique(q / b, a * b, q % b * a + x % a);
  }
}
