/** Small facts of integer arithmetic that the solver does not find unaided. */
module Arith {
  lemma MulLe(a: int, b: int, m: int)
    requires a <= b && 0 <= m
    ensures a * m <= b * m
  {
  }

  lemma MulAtLeast(k: int, m: int)
    requires 1 <= k && 0 <= m
    ensures m <= k * m
  {
    MulLe(1, k, m);
  }

  lemma Distribute(a: int, b: int, m: int)
    ensures (a + b) * m == a * m + b * m
    ensures (a - b) * m == a * m - b * m
  {
  }

  lemma DivModUnique(a: int, m: int, q: int, r: int)
    requires 0 <= r < m && a == q * m + r
    ensures a / m == q && a % m == r
  {
    var q', r' := a / m, a % m;
    assert a == q' * m + r';
    Distribute(q, q', m);
    Distribute(q', q, m);
    if q < q' { MulAtLeast(q' - q, m); }
    if q' < q { MulAtLeast(q - q', m); }
  }

  lemma ModPeriodic(a: int, k: int, m: int)
    requires 0 < m
    ensures (a + k * m) % m == a % m
    ensures (a + k * m) / m == a / m + k
  {
    var q, r := a / m, a % m;
    Distribute(q, k, m);
    DivModUnique(a + k * m, m, q + k, r);
  }

  /** Floor division, by its defining bounds. */
  lemma DivBounds(a: int, m: int)
    requires 0 < m
    ensures a / m * m <= a < a / m * m + m
  {
  }

  lemma DivAtLeast(a: int, m: int, k: int)
    requires 0 < m && k * m <= a
    ensures k <= a / m
  {
    DivBounds(a, m);
    if a / m < k {
      MulLe(a / m + 1, k, m);
      Distribute(a / m, 1, m);
    }
  }

  lemma DivAtMost(a: int, m: int, k: int)
    requires 0 < m && a < k * m + m
    ensures a / m <= k
  {
    DivBounds(a, m);
    if k < a / m {
      MulLe(k + 1, a / m, m);
      Distribute(k, 1, m);
    }
  }

  lemma DivMono(a: int, b: int, m: int)
    requires 0 < m && a <= b
    ensures a / m <= b / m
  {
    DivBounds(a, m);
    DivAtLeast(b, m, a / m);
  }
}
