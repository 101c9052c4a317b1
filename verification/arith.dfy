/** Integer facts and the exact forms of Python's ceil(a / b) and round(a / b). */
module Arithmetic {

  lemma {:induction false} MulAtLeast(m: int, d: int)
    requires m > 0 && d > 0
    ensures m * d >= m
  {
    if d > 1 {
      MulAtLeast(m, d - 1);
      assert m * d == m * (d - 1) + m;
    }
  }

  /** Quotient and remainder are the only pair with a == m * q + r and 0 <= r < m. */
  lemma DivModUnique(a: int, m: int, q: int, r: int)
    requires m > 0 && 0 <= r < m && a == m * q + r
    ensures a / m == q && a % m == r
  {
    var d := q - a / m;
    assert a == m * (a / m) + a % m;
    assert m * d == a % m - r by {
      assert m * d == m * q - m * (a / m);
    }
    if d > 0 {
      MulAtLeast(m, d);
    } else if d < 0 {
      MulAtLeast(m, -d);
    }
  }

  lemma ModAddDivisor(j: int, m: int)
    requires m > 0
    ensures (j + m) % m == j % m
  {
    DivModUnique(j + m, m, j / m + 1, j % m);
  }

  /** x <= y follows from n * x <= n * y for positive n. */
  lemma MulLeCancel(n: int, x: int, y: int)
    requires n > 0 && n * x <= n * y
    ensures x <= y
  {
    if x > y {
      MulAtLeast(n, x - y);
    }
  }

  /** Multiplying by a positive number keeps the order. */
  lemma MulMonotone(n: int, x: int, y: int)
    requires n > 0 && x <= y
    ensures n * x <= n * y
  {
    if x < y {
      MulAtLeast(n, y - x);
    }
  }

  /** Python's math.ceil(a / b) for b > 0, computed exactly. */
  function CeilDiv(a: int, b: int): (q: int)
    requires b > 0
    ensures b * (q - 1) < a <= b * q
  {
    var n := a + b - 1;
    assert n == b * (n / b) + n % b;
    n / b
  }

  /** Python's sum() of a list of integers. */
  function Sum(s: seq<int>): int
  {
    if s == [] then 0 else Sum(s[..|s| - 1]) + s[|s| - 1]
  }

  /**
   * Python's round(a / b) for b > 0, computed exactly: the nearest integer,
   * and the even one of the two when a / b lies half-way between them.
   */
  function RoundHalfEven(a: int, b: int): (n: int)
    requires b > 0
    ensures -b <= 2 * (a - b * n) <= b
    ensures 2 * (a - b * n) == b || 2 * (a - b * n) == -b ==> n % 2 == 0
  {
    var q, r := a / b, a % b;
    assert a == b * q + r;
    if 2 * r > b || (2 * r == b && q % 2 == 1) then
      assert a - b * (q + 1) == r - b;
      q + 1
    else q
  }
}
