/** The few facts of integer arithmetic that Dafny does not find by itself. */
module Arith {

  lemma MulSign(w: int, d: int)
    requires 0 < w
    ensures d <= 0 ==> w * d <= 0
    ensures d >= 1 ==> w * d >= w
    ensures d <= -1 ==> w * d <= -w
  {
  }

  lemma MulMono(a: int, b: int, k: nat)
    requires a <= b
    ensures a * k <= b * k
  {
  }

  /** Quotient and remainder are unique. */
  lemma DivModUnique(x: int, w: int, q: int, r: int)
    requires 0 <= r < w && x == w * q + r
    ensures x / w == q && x % w == r
  {
    MulSign(w, x / w - q);
    assert w * (x / w - q) == r - x % w;
  }

  function Pow2(n: nat): (p: nat)
    ensures p >= 1
  {
    if n == 0 then 1 else 2 * Pow2(n - 1)
  }

  lemma {:induction false} Pow2Add(m: nat, n: nat)
    ensures Pow2(m + n) == Pow2(m) * Pow2(n)
    decreases m
  {
    if m > 0 {
      Pow2Add(m - 1, n);
      assert Pow2(m + n) == 2 * Pow2(m - 1 + n);
      assert 2 * (Pow2(m - 1) * Pow2(n)) == (2 * Pow2(m - 1)) * Pow2(n);
    }
  }

  lemma {:induction false} Pow2Mono(m: nat, n: nat)
    requires m <= n
    ensures Pow2(m) <= Pow2(n)
    decreases n
  {
    if m < n {
      Pow2Mono(m, n - 1);
    }
  }
}
