/** What several of the engines share. */
module Prelude {
  datatype Option<+T> = None | Some(value: T)

  type Byte = x: int | 0 <= x < 256

  function Pow2(k: nat): (p: nat)
    ensures p > 0
  {
    if k == 0 then 1 else 2 * Pow2(k - 1)
  }

  /** Quotient and remainder are unique. */
  lemma Divided(a: int, m: nat, q: int, r: nat)
    requires r < m && a == q * m + r
    ensures a / m == q && a % m == r
  {
    var d: int := a / m - q;
    assert d * m == r - a % m by {
      assert a == (a / m) * m + a % m;
      assert (a / m) * m == q * m + d * m;
    }
    NonzeroMultiple(d, m);
  }

  lemma NonzeroMultiple(d: int, m: nat)
    ensures d > 0 ==> d * m >= m
    ensures d < 0 ==> d * m <= -(m as int)
  {
  }
}
