// Definitions shared by several days.
module Common {

  datatype Option<T> = None | Some(value: T)

  /** Ten to the power k. */
  function Pow10(k: nat): (p: nat)
    ensures p >= 1
  {
    if k == 0 then 1 else 10 * Pow10(k - 1)
  }

  /** The number of decimal digits of n; 0 is written with one digit. */
  function Digits(n: nat): (d: nat)
    ensures d >= 1
    ensures n < Pow10(d)
    ensures d > 1 ==> Pow10(d - 1) <= n
  {
    if n < 10 then 1 else 1 + Digits(n / 10)
  }

  /** Quotient and remainder are determined by any decomposition x == q * p + r with 0 <= r < p. */
  lemma DivModUnique(x: nat, p: nat, q: nat, r: nat)
    requires p > 0 && r < p && x == q * p + r
    ensures x % p == r && x / p == q
  {
    var q2, r2 := x / p, x % p;
    assert q2 * p + r2 == q * p + r;
    if q2 > q {
      assert (q2 - q) * p == r - r2;
      MulAtLeast(q2 - q, p);
    } else if q2 < q {
      assert (q - q2) * p == r2 - r;
      MulAtLeast(q - q2, p);
    }
  }

  lemma MulAtLeast(k: int, p: int)
    requires k >= 1 && p >= 0
    ensures k * p >= p
  {
  }
}
