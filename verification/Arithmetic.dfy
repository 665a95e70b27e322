/** Division facts the solver does not find by itself. */
module Arithmetic {
  lemma MultipleGrows(m: nat, d: int)
    ensures d >= 1 ==> m * d >= m
    ensures d <= -1 ==> m * d <= 0 - m
  {
    if d >= 1 {
      assert m * (d - 1) >= 0;
    } else if d <= -1 {
      assert m * (-1 - d) >= 0;
    }
  }

  /** Quotient and remainder are determined by their defining equation. */
  lemma ModUnique(n: int, m: nat, q: int, r: nat)
    requires m > 0 && n == m * q + r && r < m
    ensures n % m == r && n / m == q
  {
    var d := n / m - q;
    assert m * d == r - n % m;
    MultipleGrows(m, d);
  }
}
