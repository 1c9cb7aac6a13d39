/** Division with remainder, for divisors that are not literals. */
module Arithmetic {
  lemma MulGap(m: int, q: int, q': int)
    requires m > 0 && q > q'
    ensures m * q >= m * q' + m
  {
    assert q == q' + 1 + (q - q' - 1);
    assert m * (q - q' - 1) >= 0;
    assert m * q == m * q' + m + m * (q - q' - 1);
  }

  lemma QuotientUnique(m: int, q: int, r: int, q': int, r': int)
    requires 0 <= r < m && 0 <= r' < m && m * q + r == m * q' + r'
    ensures q == q' && r == r'
  {
    if q > q' {
      MulGap(m, q, q');
    } else if q < q' {
      MulGap(m, q', q);
    }
  }

  lemma ModUnique(n: int, m: int, q: int, r: int)
    requires m > 0 && 0 <= r < m && n == m * q + r
    ensures n % m == r && n / m == q
  {
    QuotientUnique(m, q, r, n / m, n % m);
  }
}
