/** Multiplication and division facts used by the address proofs. */
module Arith {
  /**
   Quotient and remainder of naturals, by repeated subtraction; `DivIsQuotient` shows that they are
   the built-in operators. They stand for division by a variable, so that the solver meets
   non-linear division in these lemmas only.
   */
  function Div(n: nat, d: nat): nat
    requires d > 0
  {
    if n < d then 0 else 1 + Div(n - d, d)
  }

  function Mod(n: nat, d: nat): (r: nat)
    requires d > 0
    ensures r < d
  {
    if n < d then n else Mod(n - d, d)
  }

  lemma {:induction false} DivMod(n: nat, d: nat)
    requires d > 0
    ensures n == d * Div(n, d) + Mod(n, d)
  {
    if n >= d {
      DivMod(n - d, d);
      assert d * (1 + Div(n - d, d)) == d + d * Div(n - d, d);
    }
  }

  /** They are the built-in operators. */
  lemma DivIsQuotient(n: nat, d: nat)
    requires d > 0
    ensures Div(n, d) == n / d && Mod(n, d) == n % d
  {
    DivUnique(n, d, n / d, n % d);
  }

  lemma MulAtLeast(d: int, m: int)
    requires d > 0 && m >= 1
    ensures d * m >= d
  {
    assert d * m == d * (m - 1) + d;
  }

  lemma MulAdd(a: int, b: int, c: int)
    ensures a * (b + c) == a * b + a * c && (b + c) * a == b * a + c * a
  {}

  lemma MulAssoc(a: int, b: int, c: int)
    ensures (a * b) * c == a * (b * c)
  {}

  lemma MulComm(a: int, b: int)
    ensures a * b == b * a
  {}

  lemma MulMono(a: int, b: int, c: int)
    requires a <= b && c >= 0
    ensures a * c <= b * c
  {}

  /** Quotient and remainder are determined by the division equation. */
  lemma DivUnique(n: nat, d: nat, q: nat, r: nat)
    requires d > 0 && n == d * q + r && r < d
    ensures Div(n, d) == q && Mod(n, d) == r
  {
    DivMod(n, d);
    hide Div, Mod;
    var m := Div(n, d) - q;
    assert d * m == d * Div(n, d) - d * q == r - Mod(n, d);
    if m >= 1 {
      MulAtLeast(d, m);
    } else if m <= -1 {
      MulAtLeast(d, -m);
    }
  }

  lemma DivLess(n: nat, d: nat)
    requires d > 0
    ensures Div(n, d) <= n
  {
    DivMod(n, d);
    hide Div, Mod;
    MulMono(1, d, Div(n, d));
  }

  lemma DivMono(a: nat, b: nat, d: nat)
    requires d > 0 && a <= b
    ensures Div(a, d) <= Div(b, d)
  {
    var qa, qb := Div(a, d), Div(b, d);
    DivMod(a, d);
    DivMod(b, d);
    hide Div, Mod;
    assert (qb + 1) * d == d * qb + d;
    if qa >= qb + 1 {
      MulMono(qb + 1, qa, d);
    }
  }
}
