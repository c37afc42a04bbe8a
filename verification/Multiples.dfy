/** Products, quotients and powers of integers, as far as the proofs about addresses and counts need them. */
module Multiples {

  lemma SmallMultiple(k: int, n: int, x: int)
    requires k * n == x && -n < x < n
    ensures k == 0 && x == 0
  {
    assert k >= 1 ==> k * n >= n;
    assert k <= -1 ==> k * n <= -n;
  }

  lemma DivUnique(a: int, n: int, d: int, m: int)
    requires 0 <= m < n && a == d * n + m
    ensures a / n == d && a % n == m
  {
    assert a == (a / n) * n + a % n;
    SmallMultiple(d - a / n, n, a % n - m);
  }

  lemma Monotone(a: nat, b: nat, c: nat)
    requires b <= c
    ensures a * b <= a * c
  {
    assert a * c == a * b + a * (c - b);
  }

  ghost function Pow2(n: nat): nat { if n == 0 then 1 else 2 * Pow2(n - 1) }

  lemma {:induction false} Pow2Mono(a: nat, b: nat)
    requires a <= b
    ensures Pow2(a) <= Pow2(b)
  {
    if a < b {
      Pow2Mono(a, b - 1);
    }
  }

  lemma {:induction false} Pow2Double(k: nat)
    ensures Pow2(2 * k) == Pow2(k) * Pow2(k)
  {
    if k > 0 {
      Pow2Double(k - 1);
      assert Pow2(2 * k) == 4 * Pow2(2 * (k - 1));
    }
  }
}
