/** The few facts about products and quotients that the solver should not have to find again. */
module Arith {

  function Pow2(n: nat): (p: nat)
    ensures p >= 1
  {
    if n == 0 then 1 else 2 * Pow2(n - 1)
  }

  lemma ProductMonotone(k: nat, m: nat, n: nat)
    requires k <= m
    ensures k * n <= m * n
  {
  }

  lemma NextMultiple(k: int, n: int)
    ensures (k + 1) * n == k * n + n
  {
  }

  lemma Distributes(a: int, b: int, d: int)
    ensures (a - b) * d == a * d - b * d
  {
  }

  lemma AtLeastOnce(m: int, d: int)
    requires m >= 1 && d >= 0
    ensures m * d >= d
  {
  }

  lemma SameDivision(q1: int, r1: int, q2: int, r2: int, d: int)
    requires 0 <= r1 < d && 0 <= r2 < d && q1 * d + r1 == q2 * d + r2
    ensures q1 == q2 && r1 == r2
  {
    Distributes(q1, q2, d);
    Distributes(q2, q1, d);
    if q1 > q2 {
      AtLeastOnce(q1 - q2, d);
    } else if q2 > q1 {
      AtLeastOnce(q2 - q1, d);
    }
  }

  lemma Division(x: int, d: int)
    requires d >= 1
    ensures x == (x / d) * d + x % d && 0 <= x % d < d
  {
  }

  /** Quotient and remainder are determined by `x == q * d + r`. */
  lemma QuotientUnique(x: int, q: int, r: int, d: int)
    requires 0 <= r < d && x == q * d + r
    ensures x / d == q && x % d == r
  {
    Division(x, d);
    SameDivision(x / d, x % d, q, r, d);
  }

  lemma QuotientAtLeast(x: nat, k: nat, rest: nat, d: nat)
    requires d >= 1 && x == k * d + rest
    ensures k <= x / d
    ensures rest < d ==> k == x / d
  {
    var q, r := rest / d, rest % d;
    assert x == (k + q) * d + r by {
      assert (k + q) * d == k * d + q * d;
    }
    QuotientUnique(x, k + q, r, d);
  }

  lemma QuotientBetween(x: int, d: int, lo: int, hi: int)
    requires d >= 1 && lo * d <= x < hi * d
    ensures lo <= x / d < hi
  {
    Division(x, d);
    if x / d < lo {
      Distributes(lo, x / d, d);
      AtLeastOnce(lo - x / d, d);
    } else if x / d >= hi {
      Distributes(x / d + 1, hi, d);
      AtLeastOnce(x / d + 1 - hi, d);
    }
  }

  lemma QuotientMonotone(x: int, y: int, d: int)
    requires d >= 1 && x <= y
    ensures x / d <= y / d
  {
    Division(x, d);
    Division(y, d);
    if x / d > y / d {
      Distributes(x / d, y / d, d);
      AtLeastOnce(x / d - y / d, d);
    }
  }
}
