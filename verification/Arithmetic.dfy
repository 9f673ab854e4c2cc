/** The facts about products, quotients and remainders that the sector arithmetic rests on. */
module Arithmetic {

  lemma DivMod(x: nat, d: nat)
    requires d > 0
    ensures x == x / d * d + x % d && 0 <= x % d < d && 0 <= x / d
  {
  }

  lemma MulLe(x: nat, y: nat, d: nat)
    requires x <= y
    ensures x * d <= y * d
  {
    assert (y - x) * d >= 0;
  }

  lemma MulAdd(x: int, y: int, d: int)
    ensures (x + y) * d == x * d + y * d
  {
  }

  lemma MulStep(x: nat, y: nat, d: nat)
    requires x < y
    ensures x * d + d <= y * d
  {
    MulLe(x + 1, y, d);
  }

  lemma DivLe(x: nat, d: nat)
    requires d > 0
    ensures x / d <= x && x / d * d <= x
  {
    DivMod(x, d);
    MulLe(1, d, x / d);
  }

  /** Quotient and remainder are the only pair that fits. */
  lemma DivUnique(x: nat, d: nat, q: nat, r: nat)
    requires d > 0 && x == q * d + r && r < d
    ensures x / d == q && x % d == r
  {
    DivMod(x, d);
    if x / d < q {
      MulStep(x / d, q, d);
    } else if q < x / d {
      MulStep(q, x / d, d);
    }
  }

  /** Splitting off whole multiples of the divisor. */
  lemma DivAdd(q: nat, d: nat, r: nat)
    requires d > 0
    ensures (q * d + r) / d == q + r / d && (q * d + r) % d == r % d
  {
    DivMod(r, d);
    assert (q + r / d) * d == q * d + r / d * d;
    DivUnique(q * d + r, d, q + r / d, r % d);
  }

  /** A remainder by a multiple keeps the remainder by the factor. */
  lemma ModMod(x: nat, d: nat, k: nat)
    requires d > 0 && k > 0
    ensures k * d > 0 && x % (k * d) % d == x % d
  {
    MulLe(1, k, d);
    var b := k * d;
    DivMod(x, b);
    assert x / b * b == x / b * k * d;
    DivAdd(x / b * k, d, x % b);
  }

  lemma DivLt(x: nat, q: nat, d: nat)
    requires d > 0 && x < q * d
    ensures x / d < q
  {
    DivMod(x, d);
    if q <= x / d {
      MulLe(q, x / d, d);
    }
  }

  lemma DivGe(x: nat, q: nat, d: nat)
    requires d > 0 && q * d <= x
    ensures q <= x / d
  {
    DivMod(x, d);
    if x / d < q {
      MulStep(x / d, q, d);
    }
  }

  /** Rounding up to whole units. */
  lemma CeilDiv(x: nat, d: nat)
    requires d > 0
    ensures var q := (x + d - 1) / d; x <= q * d < x + d
  {
    DivMod(x + d - 1, d);
  }

  function Pow2(n: nat): (r: nat)
    ensures r > 0
  {
    if n == 0 then 1 else 2 * Pow2(n - 1)
  }

  lemma Pow2Half(bits: nat)
    requires bits > 0
    ensures Pow2(bits) == 2 * Pow2(bits - 1)
  {
  }

  lemma {:induction false} Pow2Add(m: nat, n: nat)
    ensures Pow2(m + n) == Pow2(m) * Pow2(n)
  {
    if m > 0 {
      Pow2Add(m - 1, n);
    }
  }
}
