/** Division and remainder by a number that is not a literal. */
module Arithmetic {
  function Pow(b: nat, k: nat): nat {
    if k == 0 then 1 else b * Pow(b, k - 1)
  }

  lemma ModOfSum(m: nat, q: int, r: int)
    requires 0 <= r < m
    ensures (m * q + r) % m == r
  {
    var n := m * q + r;
    var d := n / m;
    assert n == m * d + n % m;
    assert m * (q - d) == n % m - r;
    SmallMultiple(m, q - d);
  }

  lemma SmallMultiple(m: int, d: int)
    requires -m < m * d < m
    ensures d == 0
  {
    MultipleBounds(m, d);
  }

  lemma MultipleBounds(m: int, d: int)
    requires m >= 0
    ensures d >= 1 ==> m * d >= m
    ensures d <= -1 ==> m * d <= -m
  {
  }

  lemma ModOfMultiple(m: nat, q: int, x: int)
    requires m > 0
    ensures (m * q + x) % m == x % m
  {
    assert m * q + x == m * (q + x / m) + x % m;
    ModOfSum(m, q + x / m, x % m);
  }

  lemma ModProduct(m: nat, a: nat, b: nat)
    requires m > 0
    ensures (a % m) * b % m == a * b % m
  {
    var q := a / m;
    assert a == m * q + a % m;
    assert a * b == m * (q * b) + (a % m) * b;
    ModOfMultiple(m, q * b, (a % m) * b);
  }

  lemma DivOfSum(m: nat, q: int, r: int)
    requires 0 <= r < m
    ensures (m * q + r) / m == q && (m * q + r) % m == r
  {
    ModOfSum(m, q, r);
    var n := m * q + r;
    assert m * (n / m - q) == 0;
    SmallMultiple(m, n / m - q);
  }

  lemma ExactQuotient(m: nat, n: nat)
    requires m > 0 && n % m == 0
    ensures n / m * m == n
  {
    var q := n / m;
    assert n == m * q + n % m;
  }

  lemma ModStep(m: nat, n: nat)
    requires m > 0 && n > 0
    ensures n % m == if (n - 1) % m + 1 == m then 0 else (n - 1) % m + 1
  {
    var q, r := (n - 1) / m, (n - 1) % m;
    assert n - 1 == m * q + r;
    if r + 1 == m {
      assert n == m * (q + 1) + 0;
      DivOfSum(m, q + 1, 0);
    } else {
      assert n == m * q + (r + 1);
      DivOfSum(m, q, r + 1);
    }
  }

  /** Counting up by one: the quotient goes up exactly at the multiples. */
  lemma DivStep(m: nat, n: nat)
    requires m > 0 && n > 0
    ensures n / m == if n % m == 0 then (n - 1) / m + 1 else (n - 1) / m
  {
    var q, r := n / m, n % m;
    assert n == m * q + r;
    if r == 0 {
      assert n - 1 == m * (q - 1) + (m - 1);
      DivOfSum(m, q - 1, m - 1);
    } else {
      assert n - 1 == m * q + (r - 1);
      DivOfSum(m, q, r - 1);
    }
  }
}
