/**
  omp_to_hmpp/s2s/mV.cpp: the binomial coefficient `totalcombs` and the loop that visits
  all combinations of the outlined functions.
 */
module Combinations {
  import opened Multiples

  ghost function Choose(n: nat, r: nat): nat {
    if r == 0 then 1 else if n == 0 then 0 else Choose(n - 1, r - 1) + Choose(n - 1, r)
  }

  lemma {:induction false} TooMany(n: nat, r: nat)
    requires r > n
    ensures Choose(n, r) == 0
  {
    if n > 0 {
      TooMany(n - 1, r - 1);
      TooMany(n - 1, r);
    }
  }

  /** The step of totalcombs, without its division. */
  lemma {:induction false} ChooseStep(n: nat, d: nat)
    requires d >= 1
    ensures d * Choose(n, d) == (n - d + 1) * Choose(n, d - 1)
  {
    if n == 0 {
      if d >= 2 { TooMany(0, d - 1); }
    } else if d == 1 {
      ChooseStep(n - 1, 1);
    } else {
      var a, b, c := Choose(n - 1, d - 2), Choose(n - 1, d - 1), Choose(n - 1, d);
      ChooseStep(n - 1, d - 1);
      ChooseStep(n - 1, d);
      Combine(n, d, a, b, c);
    }
  }

  lemma Combine(n: int, d: int, a: int, b: int, c: int)
    requires (d - 1) * b == (n - d + 1) * a && d * c == (n - d) * b
    ensures d * (b + c) == (n - d + 1) * (a + b)
  {
    Distribute(d, b, c);
    Distribute(n - d + 1, a, b);
    Distribute(b, d, n - d);
    Distribute(b, d - 1, n - d + 1);
  }

  lemma Distribute(x: int, y: int, z: int)
    ensures x * (y + z) == x * y + x * z
    ensures (y + z) * x == y * x + z * x
  {
  }

  /** totalcombs: the running product is divided at every step, and every division is exact. */
  method TotalCombs(n: nat, r: nat) returns (c: nat)
    ensures c == Choose(n, r)
  {
    c := 1;
    if r > n {
      TooMany(n, r);
      return 0;
    }
    var m, d := n, 1;
    while d <= r
      invariant 1 <= d <= r + 1 && m == n - d + 1 && c == Choose(n, d - 1)
    {
      ghost var before := c;
      c := c * m;
      m := m - 1;
      ChooseStep(n, d);
      assert c == d * Choose(n, d);
      DivUnique(c, d, Choose(n, d), 0);
      c := c / d;
      d := d + 1;
    }
  }

  // ---------- combinations and their order ----------

  /** An r-combination of {0, ..., n-1}: r of these numbers in increasing order. */
  ghost predicate Combination(n: nat, r: nat, c: seq<int>) {
    |c| == r && (forall i :: 0 <= i < r ==> 0 <= c[i] < n) && forall i, j :: 0 <= i < j < r ==> c[i] < c[j]
  }

  /** a comes before b in lexicographic order, and they differ first at position p. */
  ghost predicate LessAt(a: seq<int>, b: seq<int>, p: int) {
    |a| == |b| && 0 <= p < |a| && a[..p] == b[..p] && a[p] < b[p]
  }

  ghost predicate Less(a: seq<int>, b: seq<int>) {
    exists p :: LessAt(a, b, p)
  }

  /** That is, of two of the same length, the one with the smaller entry at the first difference. */
  lemma LessMeans(a: seq<int>, b: seq<int>)
    requires |a| == |b|
    ensures Less(a, b) <==> exists p :: 0 <= p < |a| && a[..p] == b[..p] && a[p] < b[p]
  {
    if p :| 0 <= p < |a| && a[..p] == b[..p] && a[p] < b[p] {
      assert LessAt(a, b, p);
    }
  }

  lemma {:induction false} FirstDifference(a: seq<int>, b: seq<int>, p: nat)
    requires |a| == |b| && p <= |a| && a[..p] == b[..p]
    ensures a == b || Less(a, b) || Less(b, a)
    decreases |a| - p
  {
    if p < |a| {
      if a[p] == b[p] {
        assert a[..p + 1] == a[..p] + [a[p]] && b[..p + 1] == b[..p] + [b[p]];
        FirstDifference(a, b, p + 1);
      } else if a[p] < b[p] {
        assert LessAt(a, b, p);
      } else {
        assert LessAt(b, a, p);
      }
    }
  }

  lemma LessIrreflexive(a: seq<int>, b: seq<int>)
    requires Less(a, b)
    ensures a != b && !Less(b, a)
  {
    var p :| LessAt(a, b, p);
    forall q
      ensures !LessAt(b, a, q)
    {
      assert p < q <= |a| ==> b[..q][p] == b[p] && a[..q][p] == a[p];
      assert 0 <= q < p ==> a[..p][q] == a[q] && b[..p][q] == b[q];
    }
  }

  lemma LessTransitive(a: seq<int>, b: seq<int>, c: seq<int>)
    requires Less(a, b) && Less(b, c)
    ensures Less(a, c)
  {
    var p :| LessAt(a, b, p);
    var q :| LessAt(b, c, q);
    var m := if p < q then p else q;
    assert a[..m] == a[..p][..m] == b[..m] == b[..q][..m] == c[..m];
    assert p < q ==> b[..q][p] == c[..q][p];
    assert q < p ==> a[..p][q] == b[..p][q];
    assert LessAt(a, c, m);
  }

  /** The numbers of a combination leave room for those after them. */
  lemma {:induction false} Room(n: nat, r: nat, c: seq<int>, i: nat)
    requires Combination(n, r, c) && i < r
    ensures c[i] <= n - r + i
    decreases r - i
  {
    if i + 1 < r {
      Room(n, r, c, i + 1);
    }
  }

  lemma {:induction false} Gap(n: nat, r: nat, c: seq<int>, p: nat, i: nat)
    requires Combination(n, r, c) && p <= i < r
    ensures c[i] >= c[p] + i - p
    decreases i
  {
    if p < i {
      Gap(n, r, c, p, i - 1);
    }
  }

  /** Position p can move up, and no later one can. */
  ghost predicate Pivot(n: nat, r: nat, c: seq<int>, p: int) {
    -1 <= p < r == |c| && (p >= 0 ==> c[p] <= n - 1 - (r - p)) && forall q :: p < q < r ==> c[q] > n - 1 - (r - q)
  }

  /** What the advance makes of c: position p moves up by one, and the later ones follow on. */
  ghost predicate Advanced(c: seq<int>, d: seq<int>, p: nat) {
    p < |c| == |d| && d[..p] == c[..p] && forall q :: p <= q < |c| ==> d[q] == c[p] + 1 + q - p
  }

  /** The advance gives a combination, the next one in lexicographic order. */
  lemma NextCombination(n: nat, r: nat, c: seq<int>, d: seq<int>, p: nat)
    requires Combination(n, r, c) && Pivot(n, r, c, p) && Advanced(c, d, p)
    ensures Combination(n, r, d) && Less(c, d)
  {
    assert LessAt(c, d, p);
    forall i, j | 0 <= i < j < r
      ensures 0 <= d[i] < d[j] < n
    {
      assert i < p ==> d[..p][i] == c[..p][i];
      assert j < p ==> d[..p][j] == c[..p][j];
    }
    forall i | 0 <= i < r
      ensures 0 <= d[i] < n
    {
      assert i < p ==> d[..p][i] == c[..p][i];
    }
  }

  lemma NothingBetween(n: nat, r: nat, c: seq<int>, d: seq<int>, p: nat, e: seq<int>)
    requires Combination(n, r, c) && Pivot(n, r, c, p) && Advanced(c, d, p) && Combination(n, r, e) && Less(c, e)
    ensures e == d || Less(d, e)
  {
    var x :| LessAt(c, e, x);
    Room(n, r, e, x);
    assert x <= p;
    if x < p {
      assert d[..x] == d[..p][..x] == c[..p][..x] == e[..x];
      assert d[x] == d[..p][x] == c[..p][x];
      assert LessAt(d, e, x);
    } else {
      FirstDifference(d, e, p);
      forall y | 0 <= y < p
        ensures e[y] == d[y]
      {
        assert e[..p][y] == e[y] && d[..p][y] == d[y];
      }
      if y :| LessAt(e, d, y) {
        Gap(n, r, e, p, y);
      }
    }
  }

  /** Without a pivot c is the last combination. */
  lemma LastCombination(n: nat, r: nat, c: seq<int>, e: seq<int>)
    requires Combination(n, r, c) && Pivot(n, r, c, -1) && Combination(n, r, e)
    ensures !Less(c, e)
  {
    if x :| LessAt(c, e, x) {
      Room(n, r, e, x);
    }
  }

  /** The combination the loop starts from is the first. */
  lemma FirstCombination(n: nat, r: nat, c: seq<int>, e: seq<int>)
    requires r <= n && |c| == r && (forall i :: 0 <= i < r ==> c[i] == i) && Combination(n, r, e)
    ensures Combination(n, r, c) && (e == c || Less(c, e))
  {
    FirstDifference(c, e, 0);
    if x :| LessAt(e, c, x) {
      Gap(n, r, e, 0, x);
    }
  }

  // ---------- the loop ----------

  ghost predicate Ascending(v: seq<seq<int>>) {
    forall i, j :: 0 <= i < j < |v| ==> Less(v[i], v[j])
  }

  /** v lists the combinations up to and including c. */
  ghost predicate UpTo(n: nat, r: nat, v: seq<seq<int>>, c: seq<int>) {
    && Ascending(v) && |v| > 0 && v[|v| - 1] == c
    && forall e :: e in v <==> Combination(n, r, e) && (e == c || Less(e, c))
  }

  lemma Visited(n: nat, r: nat, v: seq<seq<int>>, c: seq<int>, d: seq<int>, p: nat)
    requires Combination(n, r, c) && Pivot(n, r, c, p) && Advanced(c, d, p) && UpTo(n, r, v, c)
    ensures UpTo(n, r, v + [d], d)
  {
    NextCombination(n, r, c, d, p);
    forall i | 0 <= i < |v|
      ensures Less(v[i], d)
    {
      assert v[i] in v;
      if v[i] != c { LessTransitive(v[i], c, d); }
    }
    forall e
      ensures e in v + [d] <==> Combination(n, r, e) && (e == d || Less(e, d))
    {
      if e in v {
        var i :| 0 <= i < |v| && v[i] == e;
      } else if Combination(n, r, e) && Less(e, d) {
        FirstDifference(c, e, 0);
        assert Less(c, e);
        NothingBetween(n, r, c, d, p, e);
        LessIrreflexive(e, d);
      }
    }
  }

  lemma Started(n: nat, r: nat, c: seq<int>)
    requires r <= n && |c| == r && forall i :: 0 <= i < r ==> c[i] == i
    ensures Combination(n, r, c) && UpTo(n, r, [c], c)
  {
    FirstCombination(n, r, c, c);
    forall e | Combination(n, r, e)
      ensures !Less(e, c)
    {
      FirstCombination(n, r, c, e);
      if e != c { LessIrreflexive(c, e); } else if Less(e, c) { LessIrreflexive(e, c); }
    }
  }

  /** All combinations have been visited once, in lexicographic order. */
  ghost predicate AllVisited(n: nat, r: nat, v: seq<seq<int>>) {
    Ascending(v) && forall e :: e in v <==> Combination(n, r, e)
  }

  lemma Ended(n: nat, r: nat, v: seq<seq<int>>, c: seq<int>)
    requires Combination(n, r, c) && Pivot(n, r, c, -1) && UpTo(n, r, v, c)
    ensures AllVisited(n, r, v)
  {
    forall e | Combination(n, r, e)
      ensures e == c || Less(e, c)
    {
      FirstDifference(e, c, 0);
      LastCombination(n, r, c, e);
    }
  }

  /** One look for a position that can move up; `done` says there was none. */
  method Advance(n: nat, r: nat, indx: seq<int>) returns (next: seq<int>, moved: bool, ghost p: int)
    requires |indx| == r
    ensures Pivot(n, r, indx, p) && (moved <==> p >= 0)
    ensures moved <==> exists q :: 0 <= q < r && indx[q] <= n - 1 - (r - q)
    ensures if moved then Advanced(indx, next, p) else next == indx
  {
    next, moved := indx, false;
    p := -1;
    var iwk := r - 1;
    while iwk >= 0
      invariant -2 <= iwk < r
      invariant !moved ==> iwk >= -1 && next == indx && p == -1 && forall q :: iwk < q < r ==> indx[q] > n - 1 - (r - q)
      invariant moved ==> iwk == -2 && p >= 0 && Pivot(n, r, indx, p) && Advanced(indx, next, p)
    {
      if next[iwk] <= (n - 1) - (r - iwk) {
        p := iwk;
        next := next[iwk := next[iwk] + 1];
        var swk := iwk + 1;
        while swk < r
          invariant iwk + 1 <= swk <= r && |next| == r && next[..iwk] == indx[..iwk]
          invariant forall q :: iwk <= q < swk ==> next[q] == indx[iwk] + 1 + q - iwk
        {
          next := next[swk := next[swk - 1] + 1];
          swk := swk + 1;
        }
        iwk := -1;
        moved := true;
      }
      iwk := iwk - 1;
    }
  }

  /** The combinations of r among n, in the order the loop visits them. */
  method Visit(n: nat, r: nat) returns (visited: seq<seq<int>>)
    requires r <= n
    ensures AllVisited(n, r, visited)
    ensures forall c :: c in visited <==>
      |c| == r && (forall i :: 0 <= i < r ==> 0 <= c[i] < n) && (forall i, j :: 0 <= i < j < r ==> c[i] < c[j])
  {
    var indx: seq<int> := [];
    var iwk := 0;
    while iwk < r
      invariant 0 <= iwk <= r && |indx| == iwk && forall i :: 0 <= i < iwk ==> indx[i] == i
    {
      indx := indx + [iwk];
      iwk := iwk + 1;
    }
    Started(n, r, indx);
    visited := [indx];
    AtMostChoose(n, r, visited, indx);
    var more := true;
    while more
      invariant Combination(n, r, indx) && UpTo(n, r, visited, indx)
      invariant !more ==> Pivot(n, r, indx, -1)
      invariant |visited| <= Choose(n, r)
      decreases Choose(n, r) + (if more then 1 else 0) - |visited|
    {
      ghost var p;
      var next;
      next, more, p := Advance(n, r, indx);
      if more {
        Visited(n, r, visited, indx, next, p);
        NextCombination(n, r, indx, next, p);
        indx := next;
        visited := visited + [indx];
        AtMostChoose(n, r, visited, indx);
      }
    }
    Ended(n, r, visited, indx);
  }

  // ---------- how many ----------

  ghost function AllCombinations(n: nat, r: nat): set<seq<int>> {
    if r == 0 then {[]} else if n == 0 then {}
      else AllCombinations(n - 1, r) + With(AllCombinations(n - 1, r - 1), n - 1)
  }

  ghost function With(s: set<seq<int>>, x: int): set<seq<int>> {
    set c | c in s :: c + [x]
  }

  lemma InWith(s: set<seq<int>>, x: int, c: seq<int>)
    ensures c in With(s, x) <==> |c| > 0 && c[|c| - 1] == x && c[..|c| - 1] in s
  {
    if c in With(s, x) {
      var d :| d in s && d + [x] == c;
      assert c[..|c| - 1] == d;
    }
    if |c| > 0 && c[|c| - 1] == x {
      assert c == c[..|c| - 1] + [x];
    }
  }

  /** A combination without the greatest number, or one that ends with it. */
  lemma LastEntry(n: nat, r: nat, c: seq<int>)
    requires r > 0 && n > 0
    ensures Combination(n, r, c) ==> |c| == r
    ensures Combination(n, r, c) <==>
      Combination(n - 1, r, c) || (|c| == r && c[r - 1] == n - 1 && Combination(n - 1, r - 1, c[..r - 1]))
  {
    if Combination(n, r, c) && c[r - 1] == n - 1 {
      assert forall i :: 0 <= i < r - 1 ==> c[i] < c[r - 1];
    } else if Combination(n, r, c) {
      assert forall i :: 0 <= i < r ==> c[i] <= c[r - 1];
    }
    if |c| == r && c[r - 1] == n - 1 && Combination(n - 1, r - 1, c[..r - 1]) {
      forall i, j | 0 <= i < j < r ensures c[i] < c[j] { assert c[..r - 1][i] == c[i]; }
    }
  }

  lemma {:induction false} IsCombination(n: nat, r: nat, c: seq<int>)
    ensures c in AllCombinations(n, r) <==> Combination(n, r, c)
    decreases n
  {
    if r > 0 && n > 0 {
      hide Combination;
      LastEntry(n, r, c);
      IsCombination(n - 1, r, c);
      InWith(AllCombinations(n - 1, r - 1), n - 1, c);
      if |c| > 0 {
        IsCombination(n - 1, r - 1, c[..|c| - 1]);
      }
    }
  }

  lemma {:induction false} CountWith(s: set<seq<int>>, x: int)
    ensures |With(s, x)| == |s|
    decreases |s|
  {
    if s != {} {
      var c :| c in s;
      CountWith(s - {c}, x);
      assert With(s, x) == With(s - {c}, x) + {c + [x]};
      forall d | d in s - {c} ensures d + [x] != c + [x] {
        assert (d + [x])[..|d|] == d && (c + [x])[..|c|] == c;
      }
    } else {
      assert With(s, x) == {};
    }
  }

  lemma AllCombinationsStep(n: nat, r: nat)
    ensures if r == 0 then AllCombinations(n, r) == {[]} && Choose(n, r) == 1
            else if n == 0 then AllCombinations(n, r) == {} && Choose(n, r) == 0
            else AllCombinations(n, r) == AllCombinations(n - 1, r) + With(AllCombinations(n - 1, r - 1), n - 1)
                 && Choose(n, r) == Choose(n - 1, r - 1) + Choose(n - 1, r)
  {
  }

  lemma {:induction false} CountAll(n: nat, r: nat)
    ensures |AllCombinations(n, r)| == Choose(n, r)
    decreases n
  {
    hide AllCombinations, Choose, With;
    AllCombinationsStep(n, r);
    if r > 0 && n > 0 {
      var a, b := AllCombinations(n - 1, r), AllCombinations(n - 1, r - 1);
      CountAll(n - 1, r);
      CountAll(n - 1, r - 1);
      CountWith(b, n - 1);
      NotWith(n, r);
      SizeOfSum(a, With(b, n - 1));
    }
  }

  lemma SizeOfSum(a: set<seq<int>>, b: set<seq<int>>)
    requires a !! b
    ensures |a + b| == |a| + |b|
  {
  }

  /** A combination of the first n - 1 numbers does not end with n - 1. */
  lemma NotWith(n: nat, r: nat)
    requires n > 0 && r > 0
    ensures AllCombinations(n - 1, r) !! With(AllCombinations(n - 1, r - 1), n - 1)
  {
    hide AllCombinations, With;
    var a, b := AllCombinations(n - 1, r), With(AllCombinations(n - 1, r - 1), n - 1);
    forall c | c in a
      ensures c !in b
    {
      IsCombination(n - 1, r, c);
      InWith(AllCombinations(n - 1, r - 1), n - 1, c);
    }
  }

  lemma {:induction false} DistinctCount(v: seq<seq<int>>, s: set<seq<int>>)
    requires Ascending(v) && forall e :: e in v ==> e in s
    ensures |v| <= |s|
    ensures (forall e :: e in s ==> e in v) ==> |v| == |s|
    decreases |v|
  {
    if |v| == 0 {
      assert (forall e :: e in s ==> e in v) ==> s == {};
    } else {
      var n := |v| - 1;
      var w, x := v[..n], v[n];
      forall e | e in w ensures e != x {
        var i :| 0 <= i < n && v[i] == e;
        LessIrreflexive(e, x);
      }
      assert v == w + [x];
      DistinctCount(w, s - {x});
    }
  }

  lemma AtMostChoose(n: nat, r: nat, v: seq<seq<int>>, c: seq<int>)
    requires UpTo(n, r, v, c)
    ensures |v| <= Choose(n, r)
  {
    CountAll(n, r);
    forall e | e in v ensures e in AllCombinations(n, r) {
      IsCombination(n, r, e);
    }
    DistinctCount(v, AllCombinations(n, r));
  }

  /** The number of combinations the loop visits is the number totalcombs computes. */
  lemma VisitedCount(n: nat, r: nat, v: seq<seq<int>>)
    requires AllVisited(n, r, v)
    ensures |v| == Choose(n, r)
  {
    CountAll(n, r);
    forall e ensures e in v <==> e in AllCombinations(n, r) {
      IsCombination(n, r, e);
    }
    DistinctCount(v, AllCombinations(n, r));
  }

  ghost function RowSum(n: nat, k: nat): nat {
    Choose(n, k) + if k == 0 then 0 else RowSum(n, k - 1)
  }

  lemma {:induction false} RowDoubles(n: nat, k: nat)
    requires n > 0 && k > 0
    ensures RowSum(n, k) == RowSum(n - 1, k) + RowSum(n - 1, k - 1)
    decreases k
  {
    if k > 1 {
      RowDoubles(n, k - 1);
    }
  }

  lemma {:induction false} WholeRow(n: nat)
    ensures RowSum(n, n) == Pow2(n)
  {
    if n > 0 {
      RowDoubles(n, n);
      TooMany(n - 1, n);
      WholeRow(n - 1);
    }
  }

  /** Smaller subsets come first, and those of the same size in lexicographic order. */
  ghost predicate Sooner(a: seq<int>, b: seq<int>) {
    |a| < |b| || Less(a, b)
  }

  ghost predicate InLoopOrder(v: seq<seq<int>>) {
    forall i, j :: 0 <= i < j < |v| ==> Sooner(v[i], v[j]) && v[i] != v[j]
  }

  lemma Continues(n: nat, r: nat, v: seq<seq<int>>, w: seq<seq<int>>)
    requires InLoopOrder(v) && (forall c :: c in v ==> |c| < r) && AllVisited(n, r, w)
    ensures InLoopOrder(v + w)
  {
    forall i, j | 0 <= i < j < |v + w|
      ensures Sooner((v + w)[i], (v + w)[j]) && (v + w)[i] != (v + w)[j]
    {
      var a, b := (v + w)[i], (v + w)[j];
      if i < |v| <= j {
        assert a in v && b in w;
      } else if |v| <= i {
        assert Less(w[i - |v|], w[j - |v|]);
        LessIrreflexive(a, b);
      }
    }
  }

  /**
    The whole loop over r: with at least two outlined functions every non-empty subset of
    them is visited exactly once, 2^n - 1 in all. A version is made of each but the last,
    which holds all functions.
   */
  method VisitAll(n: nat) returns (visited: seq<seq<int>>, versions: seq<seq<int>>)
    ensures n <= 1 ==> visited == versions == []
    ensures n > 1 ==> |visited| == Pow2(n) - 1 && |versions| == Pow2(n) - 2
    ensures n > 1 ==> forall c :: c in visited <==>
      |c| > 0 && (forall i :: 0 <= i < |c| ==> 0 <= c[i] < n) && (forall i, j :: 0 <= i < j < |c| ==> c[i] < c[j])
    ensures InLoopOrder(visited) && versions <= visited
    ensures forall c :: c in versions <==> c in visited && |c| < n
  {
    visited, versions := [], [];
    if n > 1 {
      var twk := 1;
      while twk <= n
        invariant 1 <= twk <= n + 1 && |visited| + 1 == RowSum(n, twk - 1)
        invariant forall c :: c in visited <==> 0 < |c| < twk && Combination(n, |c|, c)
        invariant InLoopOrder(visited)
        invariant if twk <= n then versions == visited else versions <= visited && |versions| + 1 == |visited|
        invariant forall c :: c in versions <==> c in visited && |c| < n
      {
        var v := Visit(n, twk);
        VisitedCount(n, twk, v);
        Continues(n, twk, visited, v);
        AllOfThem(n, twk);
        visited := visited + v;
        if twk < n {
          versions := versions + v;
        }
        twk := twk + 1;
      }
      WholeRow(n);
      forall c | Combination(n, |c|, c) ensures |c| <= n {
        if |c| > 0 { Room(n, |c|, c, 0); }
      }
    }
  }

  /** There is one combination of all n. */
  lemma {:induction false} AllOfThem(n: nat, r: nat)
    ensures r == n ==> Choose(n, r) == 1
    decreases n
  {
    if r == n && n > 0 {
      AllOfThem(n - 1, n - 1);
      TooMany(n - 1, n);
    }
  }
}
