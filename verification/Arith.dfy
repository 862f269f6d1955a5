/** Facts about Euclidean division that the striping arithmetic rests on. */
module Arith {

  lemma MulAtLeast(k: int, d: int)
    requires d > 0
    ensures k >= 1 ==> k * d >= d
    ensures k <= -1 ==> k * d <= -d
  {
  }

  /** Quotient and remainder are the only pair that rebuilds `x`. */
  lemma DivModUnique(x: int, d: int, q: int, r: int)
    requires d > 0 && 0 <= r < d
    requires x == q * d + r
    ensures x / d == q && x % d == r
  {
    var k := x / d - q;
    assert k * d == r - x % d by {
      assert x == (x / d) * d + x % d;
      assert k * d == (x / d) * d - q * d;
    }
    MulAtLeast(k, d);
  }

  lemma DivModStep(m: nat, n: nat)
    requires n > 0
    ensures m % n == n - 1 ==> (m + 1) / n == m / n + 1 && (m + 1) % n == 0
    ensures m % n != n - 1 ==> (m + 1) / n == m / n && (m + 1) % n == m % n + 1
  {
    if m % n == n - 1 {
      assert m + 1 == (m / n + 1) * n + 0 by {
        assert (m / n + 1) * n == (m / n) * n + n;
      }
      DivModUnique(m + 1, n, m / n + 1, 0);
    } else {
      DivModUnique(m + 1, n, m / n, m % n + 1);
    }
  }

  lemma RegroupRounds(n: nat, r: nat, w: nat)
    ensures n * (r * w) == (r * n) * w
  {
  }

  lemma PositiveFactor(k: int, d: int)
    requires d > 0 && k * d > 0
    ensures k > 0
  {
  }

  lemma NonNegativeFactor(k: int, d: int)
    requires d > 0 && k * d >= 0
    ensures k >= 0
  {
  }

  /** Splitting a number below `a * b` into a quotient below `a`. */
  lemma DivBelow(x: nat, a: nat, b: nat)
    requires b > 0 && x < a * b
    ensures x / b < a
  {
    var q := x / b;
    assert (a - q) * b > 0 by { assert (a - q) * b == a * b - q * b; }
    PositiveFactor(a - q, b);
  }

  lemma MulLe(a: int, b: int, d: nat)
    requires a <= b
    ensures a * d <= b * d
  {
    assert (b - a) * d >= 0;
    assert b * d == a * d + (b - a) * d;
  }

  /** Two-digit numbers stay below the product of their bases. */
  lemma DigitsBelow(q: nat, r: nat, a: nat, b: nat)
    requires q < a && r < b
    ensures q * b + r < a * b
  {
    MulLe(q + 1, a, b);
    assert (q + 1) * b == q * b + b;
  }

  lemma ModAddMultiple(x: int, k: int, d: int)
    requires d > 0
    ensures (x + k * d) % d == x % d
    ensures (x + k * d) / d == x / d + k
  {
    assert x + k * d == (x / d + k) * d + x % d by {
      assert (x / d + k) * d == (x / d) * d + k * d;
    }
    DivModUnique(x + k * d, d, x / d + k, x % d);
  }

  lemma ModAtMost(x: nat, m: nat)
    requires m > 0
    ensures x % m <= x
  {
    assert x == (x / m) * m + x % m;
    MulLe(0, x / m, m);
  }

  lemma WholeUnits(x: nat, d: nat)
    requires d > 0 && x % d == 0
    ensures (x / d) * d == x
  {
  }

  lemma SumWhole(a: nat, b: nat, d: nat)
    requires d > 0 && a % d == 0 && b % d == 0
    ensures (a + b) % d == 0
  {
    ModAddMultiple(a, b / d, d);
  }

  /** Numbers that agree modulo `n` and lie less than `n` apart are equal. */
  lemma CongruentClose(a: nat, b: nat, n: nat)
    requires n > 0 && a <= b < a + n
    requires a % n == b % n
    ensures a == b
  {
    var k := b / n - a / n;
    assert b - a == k * n by {
      assert a == (a / n) * n + a % n;
      assert b == (b / n) * n + b % n;
      assert k * n == (b / n) * n - (a / n) * n;
    }
    MulAtLeast(k, n);
  }

  /** The shift of start: `(a % n + b) % n == (a + b) % n`. */
  lemma ModShift(a: nat, b: nat, n: nat)
    requires n > 0
    ensures (a % n + b) % n == (a + b) % n
  {
    ModAddMultiple(a % n + b, a / n, n);
    assert a % n + b + (a / n) * n == a + b;
  }
}
