/** Powers of two, and division facts that need an explicit quotient. */
module Arith {

  function Pow2(n: nat): (p: nat)
    ensures p >= 1
  {
    if n == 0 then 1 else 2 * Pow2(n - 1)
  }

  lemma {:induction false} Pow2Monotone(a: nat, b: nat)
    requires a <= b
    ensures Pow2(a) <= Pow2(b)
  {
    if a < b { Pow2Monotone(a, b - 1); }
  }

  lemma {:induction false} Pow2Double(a: nat)
    ensures Pow2(2 * a) == Pow2(a) * Pow2(a)
  {
    if a > 0 {
      Pow2Double(a - 1);
      assert Pow2(2 * a) == 4 * Pow2(2 * a - 2);
    }
  }

  lemma {:induction false} Pow2Divides(k: nat, n: nat) returns (q: nat)
    requires k <= n
    ensures Pow2(n) == q * Pow2(k)
  {
    if k == n {
      q := 1;
    } else {
      var p := Pow2Divides(k, n - 1);
      q := 2 * p;
    }
  }

  lemma SquareMonotone(m: nat, n: nat)
    requires m <= n
    ensures m * m <= n * n
  {
    assert m * m <= m * n <= n * n;
  }

  lemma MultipleBound(m: int, d: int)
    requires m > 0
    ensures d >= 1 ==> d * m >= m
    ensures d <= -1 ==> d * m <= -m
  {
    if d >= 1 { assert d * m >= 1 * m; }
    if d <= -1 { assert d * m <= -1 * m; }
  }

  lemma Distribute(p: int, q: int, m: int)
    ensures (p - q) * m == p * m - q * m && (p + q) * m == p * m + q * m
  {
  }

  /** Quotient and remainder are unique. */
  lemma DivModUnique(a: int, m: int, q: int, r: int)
    requires m > 0 && a == q * m + r && 0 <= r < m
    ensures a / m == q && a % m == r
  {
    var p, s := a / m, a % m;
    Distribute(p, q, m);
    MultipleBound(m, p - q);
  }

  /** Adding a multiple does not change the remainder. */
  lemma ModuloStep(m: int, rest: int, q: int)
    requires m > 0
    ensures (q * m + rest) % m == rest % m
  {
    var d := rest / m;
    Distribute(q, d, m);
    DivModUnique(q * m + rest, m, q + d, rest % m);
  }
}
