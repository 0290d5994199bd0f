/** Division facts that the solver does not find on its own. */
module Arith {
  lemma {:induction false} MulGap(a: int, b: int, n: nat)
    requires a < b
    ensures a * n + n <= b * n
    decreases b - a
  {
    assert (b - 1) * n == b * n - n;
    if a < b - 1 {
      MulGap(a, b - 1, n);
    }
  }

  /** Quotient and remainder are determined by their defining equation. */
  lemma DivModUnique(x: int, n: int, q: int, r: int)
    requires 0 < n && 0 <= r < n && x == q * n + r
    ensures x / n == q && x % n == r
  {
    var q', r' := x / n, x % n;
    assert x == q' * n + r';
    if q' > q {
      MulGap(q, q', n);
    } else if q' < q {
      MulGap(q', q, n);
    }
  }

  lemma AddMultiple(x: int, n: int, k: int)
    requires 0 < n
    ensures (x + k * n) / n == x / n + k && (x + k * n) % n == x % n
  {
    assert x + k * n == (x / n + k) * n + x % n by {
      assert x == x / n * n + x % n;
      assert (x / n + k) * n == x / n * n + k * n;
    }
    DivModUnique(x + k * n, n, x / n + k, x % n);
  }

  /** Reducing a summand first does not change the remainder of a sum. */
  lemma AddReduced(a: int, b: int, n: int)
    requires 0 < n
    ensures (a % n + b) % n == (a + b) % n
  {
    AddMultiple(a % n + b, n, a / n);
    assert a % n + b + a / n * n == a + b;
  }

  /** Adding p modulo n and subtracting it modulo n undo each other. */
  lemma AddSubtract(x: int, p: int, n: int)
    requires 0 <= x < n
    ensures ((x - p) % n + p) % n == x && ((x + p) % n - p) % n == x
  {
    AddReduced(x - p, p, n);
    AddReduced(x + p, -p, n);
    DivModUnique(x, n, 0, x);
  }
}
