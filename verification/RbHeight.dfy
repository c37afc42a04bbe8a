/** How deep a red-black tree can be, and hence how many comparisons a query makes. */
module RbHeight {
  import opened Multiples
  import opened RbShape

  ghost function Height(t: Tree): nat {
    if t.Nil? then 0 else 1 + if Height(t.l) < Height(t.r) then Height(t.r) else Height(t.l)
  }

  /** At most every second node on a path is red. */
  lemma {:induction false} HeightBound(t: Tree)
    requires RedBlack(t)
    ensures Height(t) <= 2 * BlackHeight(t) + (if IsRed(t) then 1 else 0)
  {
    if t.T? {
      HeightBound(t.l);
      HeightBound(t.r);
    }
  }

  /** A tree of black height `k` has at least 2^k - 1 nodes. */
  lemma {:induction false} SizeBound(t: Tree)
    requires RedBlack(t)
    ensures |InOrder(t)| + 1 >= Pow2(BlackHeight(t))
  {
    if t.T? {
      SizeBound(t.l);
      SizeBound(t.r);
    }
  }

  /** In a tree of n nodes with a black root, 2^height is at most (n + 1)^2. */
  lemma LogHeight(t: Tree, steps: nat)
    requires RedBlack(t) && !IsRed(t) && steps <= Height(t)
    ensures Pow2(steps) <= (|InOrder(t)| + 1) * (|InOrder(t)| + 1)
  {
    HeightBound(t);
    SizeBound(t);
    var k, n := BlackHeight(t), |InOrder(t)| + 1;
    Pow2Mono(steps, 2 * k);
    Pow2Double(k);
    assert Pow2(k) * Pow2(k) <= n * n by {
      MulMono(Pow2(k), n);
    }
  }

  lemma MulMono(a: nat, b: nat)
    requires a <= b
    ensures a * a <= b * b
  {
    assert b * b == a * a + (b - a) * (a + b);
    assert (b - a) * (a + b) >= 0;
  }
}
