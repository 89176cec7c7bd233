/** Facts about remainders that several modules need. */
module Arithmetic {
  lemma Larger(m: nat, p: int, q: int)
    ensures p < q ==> m * p + m <= m * q
  {
    if p < q {
      ProductNotNegative(m, q - p - 1);
      Distributes(m, p + 1, q - p - 1);
      Distributes(m, p, 1);
    }
  }

  lemma ProductNotNegative(m: nat, n: nat)
    ensures m * n >= 0
  {
  }

  lemma Distributes(m: int, p: int, q: int)
    ensures m * (p + q) == m * p + m * q
  {
  }

  /** The remainder is the r of any q with n = m q + r and r < m. */
  lemma ModuloOf(n: int, m: nat, q: int, r: nat)
    requires m > 0 && n == m * q + r && r < m
    ensures n % m == r
  {
    var p := n / m;
    Larger(m, p, q);
    Larger(m, q, p);
  }

  /** Adding a multiple does not change a remainder. */
  lemma MultiplePlus(a: int, b: int, m: nat)
    requires m > 0 && a % m == 0
    ensures (a + b) % m == b % m
  {
    var p, q := a / m, b / m;
    assert m * (p + q) == m * p + m * q;
    ModuloOf(a + b, m, p + q, b % m);
  }

  /** Taking one multiple from another leaves a multiple; taking anything else does not. */
  lemma MultipleMinus(a: int, b: int, m: nat)
    requires m > 0 && a % m == 0
    ensures (a - b) % m == 0 <==> b % m == 0
  {
    MultiplePlus(a, -b, m);
    if b % m == 0 {
      MultiplePlus(b, -b, m);
    } else if (-b) % m == 0 {
      MultiplePlus(-b, b, m);
    }
  }
}
