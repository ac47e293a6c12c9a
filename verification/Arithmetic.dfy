/** Minimum and maximum, powers of two, and the facts about products and quotients that index and bit
    arithmetic rest on. */
module Arithmetic {

  function Min(a: nat, b: nat): nat {
    if a < b then a else b
  }

  function Max(a: nat, b: nat): nat {
    if a < b then b else a
  }

  function Pow2(n: nat): (p: nat)
    ensures p > 0
  {
    if n == 0 then 1 else 2 * Pow2(n - 1)
  }

  lemma {:induction false} Pow2Sum(a: nat, b: nat)
    ensures Pow2(a + b) == Pow2(a) * Pow2(b)
  {
    if a > 0 {
      Pow2Sum(a - 1, b);
    }
  }

  lemma {:induction false} Pow2Monotone(a: nat, b: nat)
    requires a <= b
    ensures Pow2(a) <= Pow2(b)
  {
    if a < b {
      Pow2Monotone(a, b - 1);
    }
  }

  // ----- products

  lemma Monotone(x: nat, y: nat, z: nat)
    requires x <= y
    ensures x * z <= y * z
  {
  }

  lemma Grows(x: nat, y: nat)
    requires y > 0
    ensures x <= x * y
  {
  }

  lemma Spread(x: nat, y: nat, z: nat)
    ensures (x + y) * z == x * z + y * z
  {
  }

  lemma Positive(x: nat, y: nat)
    requires x * y > 0
    ensures x > 0 && y > 0
  {
  }

  /** Two digits, the upper one below m and the lower one below n. */
  lemma Below(a: nat, m: nat, b: nat, n: nat)
    requires a < m && b < n
    ensures a * n + b < m * n
  {
    Monotone(a + 1, m, n);
  }

  // ----- quotients

  lemma QuotientBounds(x: nat, n: nat)
    requires n > 0
    ensures x / n * n <= x < (x / n + 1) * n
    ensures x / n <= x
  {
    var q := x / n;
    assert x == q * n + x % n;
    Grows(q, n);
  }

  /** The multiples of n up to x are those with a factor up to the quotient. */
  lemma QuotientIff(x: nat, n: nat, k: nat)
    requires n > 0
    ensures k <= x / n <==> k * n <= x
  {
    QuotientBounds(x, n);
    if k <= x / n {
      Monotone(k, x / n, n);
    } else {
      Monotone(x / n + 1, k, n);
    }
  }

  lemma QuotientIs(x: nat, n: nat, k: nat)
    requires n > 0 && k * n <= x < (k + 1) * n
    ensures x / n == k
  {
    QuotientIff(x, n, k);
    QuotientIff(x, n, k + 1);
  }

  lemma DivMod(a: nat, b: nat, n: nat)
    requires b < n
    ensures (a * n + b) / n == a && (a * n + b) % n == b
  {
    var x := a * n + b;
    Spread(a, 1, n);
    QuotientIs(x, n, a);
    assert x == x / n * n + x % n;
  }

  lemma QuotientBelow(x: nat, m: nat, n: nat)
    requires n > 0 && x < m * n
    ensures x / n < m && x == x / n * n + x % n
  {
    QuotientIff(x, n, m);
  }
}
