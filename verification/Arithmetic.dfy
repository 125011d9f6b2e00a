/** The few facts about products and quotients that the solver needs spelled out. */
module Arithmetic {

  lemma MulBounds(n: nat, d: int)
    ensures 1 <= d ==> n <= n * d
    ensures d <= -1 ==> n * d + n <= 0
  {
    if 1 <= d {
      assert n * d == n + n * (d - 1);
    } else if d <= -1 {
      assert n * d + n == n * (d + 1);
    }
  }

  /** Quotient and remainder are unique. */
  lemma DivMod(n: nat, q: int, r: nat, k: int)
    requires r < n && k == n * q + r
    ensures k / n == q && k % n == r
  {
    var d := k / n - q;
    MulBounds(n, d);
    assert n * d == n * (k / n) - n * q;
  }

  lemma Assoc(a: int, b: int, c: int)
    ensures a * (b * c) == (a * b) * c
  {
  }

  lemma MulMonotone(p: nat, a: nat, b: nat)
    requires a <= b
    ensures p * a <= p * b
  {
  }

  /** Multiplying by a positive number keeps the order. */
  lemma MulOrder(a: int, b: int, s: nat)
    requires 0 < s
    ensures (a < b <==> a * s < b * s) && (a == b <==> a * s == b * s)
  {
    MulBounds(s, b - a);
    assert s * (b - a) == b * s - a * s;
  }

  /** Two numbers less than n apart have different remainders. */
  lemma ModDiffers(j: nat, k: nat, n: nat)
    requires j < k < j + n
    ensures j % n != k % n
  {
    var m := j % n + (k - j);
    assert j == n * (j / n) + j % n;
    if m < n {
      DivMod(n, j / n, m, k);
    } else {
      assert n * (j / n + 1) == n * (j / n) + n;
      DivMod(n, j / n + 1, m - n, k);
    }
  }

  function Pow2(n: nat): (p: nat)
    ensures p > 0
  {
    if n == 0 then 1 else 2 * Pow2(n - 1)
  }

  lemma {:induction false} Pow2Add(a: nat, b: nat)
    ensures Pow2(a + b) == Pow2(a) * Pow2(b)
  {
    if a > 0 {
      Pow2Add(a - 1, b);
      assert Pow2(a + b) == 2 * Pow2(a - 1 + b);
      Assoc(2, Pow2(a - 1), Pow2(b));
    }
  }
}
