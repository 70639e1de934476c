/** Quotients and remainders, as ring indices, block numbers and index paths need them. */
module Modular {
  lemma NoMultipleBetween(d: int, n: nat)
    ensures !(0 < d * n < n)
  {
    if d <= 0 {
      assert d * n <= 0;
    } else {
      assert d * n == n + (d - 1) * n;
      assert (d - 1) * n >= 0;
    }
  }

  /** Two stream positions less than a ring apart sit in different places. */
  lemma ModDistinct(a: nat, b: nat, n: nat)
    requires n > 0 && a < b < a + n
    ensures a % n != b % n
  {
    var d := b / n - a / n;
    NoMultipleBetween(d, n);
    assert d * n == (b / n) * n - (a / n) * n;
    assert b - a == d * n + b % n - a % n;
  }

  lemma ModUnique(a: int, b: int, q: int, r: int, n: nat)
    requires n > 0 && 0 <= r < n && a == q * n + r && b == a % n
    ensures b == r
  {
    var d := q - a / n;
    assert a == (a / n) * n + b;
    assert d * n == q * n - (a / n) * n;
    assert d * n == b - r;
    if d > 0 {
      NoMultipleBetween(d, n);
    } else if d < 0 {
      NoMultipleBetween(-d, n);
      assert (-d) * n == -(d * n);
    }
  }

  /** A full ring later the index is the same. */
  lemma ModDistance(a: nat, n: nat)
    requires n > 0
    ensures (a + n) % n == a % n
  {
    assert a + n == (a / n + 1) * n + a % n;
    ModUnique(a + n, (a + n) % n, a / n + 1, a % n, n);
  }

  /** Within one pass the ring index does not wrap. */
  lemma ModRun(a: nat, k: nat, n: nat)
    requires n > 0 && a % n + k < n
    ensures (a + k) % n == a % n + k
  {
    assert a + k == (a / n) * n + (a % n + k);
    ModUnique(a + k, (a + k) % n, a / n, a % n + k, n);
  }

  lemma MulStep(q: int, p: int, n: nat)
    requires q < p
    ensures q * n + n <= p * n
  {
    var d := p - q - 1;
    assert d * n >= 0;
    assert p * n == q * n + n + d * n;
  }

  lemma SameQuotient(q: int, r: int, p: int, s: int, n: nat)
    requires q * n + r == p * n + s && 0 <= r < n && 0 <= s < n
    ensures q == p && r == s
  {
    if q < p {
      MulStep(q, p, n);
    } else if p < q {
      MulStep(p, q, n);
    }
  }

  lemma LessProduct(q: int, r: int, m: int, n: nat)
    requires 0 <= r < n
    ensures q * n + r < m * n <==> q < m
  {
    if q < m {
      MulStep(q, m, n);
    } else if m < q {
      MulStep(m, q, n);
    }
  }

  lemma DivMod(x: nat, n: nat)
    requires n > 0
    ensures x == x / n * n + x % n && 0 <= x % n < n
  {
  }

  lemma DivUnique(x: nat, q: nat, r: nat, n: nat)
    requires r < n && x == q * n + r
    ensures x / n == q && x % n == r
  {
    DivMod(x, n);
    SameQuotient(q, r, x / n, x % n, n);
  }

  lemma DivLess(x: nat, m: nat, n: nat)
    requires n > 0
    ensures x < m * n <==> x / n < m
  {
    DivMod(x, n);
    LessProduct(x / n, x % n, m, n);
  }

  lemma Regroup(a: nat, b: nat, c: nat, n: nat)
    requires b < n && c < n
    ensures (a * n + b) * n + c == a * (n * n) + (b * n + c)
    ensures b * n + c < n * n
  {
    assert (a * n + b) * n == a * (n * n) + b * n;
    LessProduct(b, c, n, n);
  }

  /** Dividing twice by n divides by n*n. */
  lemma DivTwice(x: nat, n: nat)
    requires n > 0
    ensures n * n > 0 && x / (n * n) == x / n / n
  {
    var q, b, c := x / n / n, (x / n) % n, x % n;
    DivMod(x, n);
    DivMod(x / n, n);
    Regroup(q, b, c, n);
    DivUnique(x, q, b * n + c, n * n);
  }

  /** Positions inside one unit of size n. */
  lemma InUnit(p: nat, n: nat, i: nat)
    requires n > 0 && i < n - p % n
    ensures (p + i) / n == p / n && (p + i) % n == p % n + i
  {
    DivMod(p, n);
    DivUnique(p + i, p / n, p % n + i, n);
  }

  lemma DivMono(a: nat, b: nat, n: nat)
    requires a <= b && n > 0
    ensures a / n <= b / n
  {
    DivMod(a, n);
    DivMod(b, n);
    if b / n < a / n {
      MulStep(b / n, a / n, n);
    }
  }
}
