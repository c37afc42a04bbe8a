/**
  lib/string_utils.c, lines 173-255: the merge sort of a list of C strings, whose fusion
  reverses the right half so that it can merge from both ends of one auxiliary list.
 */
module MergeSort {
  import opened CStrings

  // ---------- the order ----------

  /** C's strncmp over characters that both strings have. */
  function StrNCmp(a: seq<Char>, b: seq<Char>, n: nat): int
    requires n <= |a| && n <= |b|
    decreases n
  {
    if n == 0 then 0 else if a[0] != b[0] then a[0] - b[0] else StrNCmp(a[1..], b[1..], n - 1)
  }

  /** The test of the fusion, a strncmp over the shorter length and then the lengths, is exactly the order of strcmp. */
  lemma {:induction false} TestIsStrCmp(a: seq<Char>, b: seq<Char>)
    ensures var min := if |a| < |b| then |a| else |b|;
      var res := StrNCmp(a, b, min);
      && (res > 0 || (res == 0 && |b| < |a|) <==> StrCmp(a, b) > 0)
      && (res < 0 || (res == 0 && |b| > |a|) <==> StrCmp(a, b) < 0)
    decreases |a|
  {
    if |a| > 0 && |b| > 0 && a[0] == b[0] {
      TestIsStrCmp(a[1..], b[1..]);
    }
  }

  /** a may stand before b. */
  predicate Before(ascending: bool, a: Str, b: Str) {
    if ascending then StrCmp(a.chars, b.chars) <= 0 else StrCmp(a.chars, b.chars) >= 0
  }

  lemma BeforeOrder(ascending: bool, a: Str, b: Str)
    ensures Before(ascending, a, b) || Before(ascending, b, a)
    ensures Before(ascending, a, a)
  {
    Opposite(a.chars, b.chars);
    Equal(a.chars, a.chars);
  }

  lemma BeforeTransitive(ascending: bool, a: Str, b: Str, c: Str)
    requires Before(ascending, a, b) && Before(ascending, b, c)
    ensures Before(ascending, a, c)
  {
    Opposite(a.chars, b.chars);
    Opposite(b.chars, c.chars);
    Opposite(a.chars, c.chars);
    if ascending { Transitive(a.chars, b.chars, c.chars); } else { Transitive(c.chars, b.chars, a.chars); }
  }

  ghost predicate InOrder(ascending: bool, s: seq<Str>) {
    forall i, j :: 0 <= i <= j < |s| ==> Before(ascending, s[i], s[j])
  }

  /** Everything in s may stand before everything in t. */
  ghost predicate AllBefore(ascending: bool, s: seq<Str>, t: seq<Str>) {
    forall i, j :: 0 <= i < |s| && 0 <= j < |t| ==> Before(ascending, s[i], t[j])
  }

  // ---------- the two-ended fusion ----------

  /** In order up to m, in reverse order from m on. */
  ghost predicate Bitonic(ascending: bool, aux: seq<Str>, m: nat) {
    && m <= |aux|
    && (forall x, y :: 0 <= x <= y < m ==> Before(ascending, aux[x], aux[y]))
    && (forall x, y :: m <= x <= y < |aux| ==> Before(ascending, aux[y], aux[x]))
  }

  /** The one of the two ends that the fusion takes may stand before everything between them. */
  lemma EndIsFirst(ascending: bool, aux: seq<Str>, m: nat, i: nat, j: nat, x: nat)
    requires Bitonic(ascending, aux, m) && i <= x <= j < |aux|
    ensures Before(ascending, if !Before(ascending, aux[i], aux[j]) then aux[j] else aux[i], aux[x])
  {
    BeforeOrder(ascending, aux[i], aux[j]);
    if x < m {
      if !Before(ascending, aux[i], aux[j]) { BeforeTransitive(ascending, aux[j], aux[i], aux[x]); }
    } else {
      if Before(ascending, aux[i], aux[j]) { BeforeTransitive(ascending, aux[i], aux[j], aux[x]); }
    }
  }

  lemma EndIsFirstOf(ascending: bool, aux: seq<Str>, m: nat, i: nat, j: nat, e: Str)
    requires Bitonic(ascending, aux, m) && i <= j < |aux|
    requires e == if !Before(ascending, aux[i], aux[j]) then aux[j] else aux[i]
    ensures forall x :: i <= x <= j ==> Before(ascending, e, aux[x])
  {
    hide Before, Bitonic;
    forall x | i <= x <= j
      ensures Before(ascending, e, aux[x])
    {
      EndIsFirst(ascending, aux, m, i, j, x);
    }
  }

  /** Where the right half starts. */
  function Half(lower: nat, upper: nat): (m: nat)
    requires lower <= upper
    ensures lower < m <= upper + 1
  {
    lower + (upper - lower) / 2 + 1
  }

  /** The left half, and after it the right half reversed. */
  ghost function Aux(l: seq<Str>, lower: nat, upper: nat): (aux: seq<Str>)
    requires lower <= upper < |l|
    ensures |aux| == upper + 1 - lower
  {
    l[lower..Half(lower, upper)] + Reverse(l[Half(lower, upper)..upper + 1])
  }

  method Auxiliary(list: array<Str>, lower: nat, upper: nat) returns (aux: seq<Str>)
    requires lower <= upper < list.Length
    ensures aux == Aux(list[..], lower, upper)
  {
    hide Reverse;
    aux := [];
    ghost var l := list[..];
    var middle := lower + (upper - lower) / 2;
    var i := lower;
    while i <= middle
      invariant lower <= i <= middle + 1 && aux == l[lower..i]
    {
      aux := aux + [list[i]];
      i := i + 1;
    }
    ghost var left := aux;
    var j := middle + 1;
    while j <= upper
      invariant middle + 1 <= j <= upper + 1
      invariant aux == left + Reverse(l[upper + middle + 2 - j..upper + 1])
    {
      var x := upper - j + middle + 1;
      aux := aux + [list[x]];
      ReverseStep(l, x, upper);
      j := j + 1;
    }
  }

  lemma ReverseStep(l: seq<Str>, x: nat, upper: nat)
    requires x <= upper < |l|
    ensures Reverse(l[x..upper + 1]) == Reverse(l[x + 1..upper + 1]) + [l[x]]
  {
    assert l[x..upper + 1][1..] == l[x + 1..upper + 1];
  }

  ghost function Reverse(s: seq<Str>): (r: seq<Str>)
    ensures |r| == |s| && forall k :: 0 <= k < |s| ==> r[k] == s[|s| - 1 - k]
  {
    if |s| == 0 then [] else Reverse(s[1..]) + [s[0]]
  }

  lemma {:induction false} ReverseContents(s: seq<Str>)
    ensures multiset(Reverse(s)) == multiset(s)
  {
    if |s| > 0 {
      ReverseContents(s[1..]);
      assert s == [s[0]] + s[1..];
    }
  }

  /** Whether the fusion takes the right end: its comparison of the two ends. */
  function TakesRight(ascending: bool, a: Str, b: Str): (t: bool)
    ensures t <==> !Before(ascending, a, b)
  {
    var min := if |a.chars| < |b.chars| then |a.chars| else |b.chars|;
    var res := StrNCmp(a.chars, b.chars, min);
    TestIsStrCmp(a.chars, b.chars);
    if ascending then res > 0 || (res == 0 && |b.chars| < |a.chars|)
    else res < 0 || (res == 0 && |b.chars| > |a.chars|)
  }

  /** What has been written, and what is left between the two ends. */
  ghost predicate Merging(ascending: bool, aux: seq<Str>, done: seq<Str>, i: nat, j: int) {
    && i <= j + 1 <= |aux| && |done| == i + |aux| - 1 - j
    && InOrder(ascending, done) && AllBefore(ascending, done, aux[i..j + 1])
    && multiset(done) + multiset(aux[i..j + 1]) == multiset(aux)
  }

  lemma MergeStep(ascending: bool, aux: seq<Str>, m: nat, done: seq<Str>, i: nat, j: int, e: Str, i': nat, j': int)
    requires Bitonic(ascending, aux, m) && Merging(ascending, aux, done, i, j) && i <= j
    requires if TakesRight(ascending, aux[i], aux[j]) then e == aux[j] && i' == i && j' == j - 1
      else e == aux[i] && i' == i + 1 && j' == j
    ensures Merging(ascending, aux, done + [e], i', j')
  {
    hide TakesRight, Before, Bitonic, AllBefore, InOrder;
    var left, rest := aux[i..j + 1], aux[i'..j' + 1];
    TakesEnd(ascending, aux[i], aux[j]);
    EndIsFirstOf(ascending, aux, m, i, j, e);
    var at := if j' == j then 0 else j - i;
    assert left[at] == e;
    Appended(ascending, done, left, at);
    RestAfter(ascending, aux, done, i, j, e, i', j');
    EndMoved(done, left, rest, e, j' == j);
  }

  lemma EndMoved(done: seq<Str>, left: seq<Str>, rest: seq<Str>, e: Str, first: bool)
    requires left == if first then [e] + rest else rest + [e]
    ensures multiset(done + [e]) + multiset(rest) == multiset(done) + multiset(left)
  {
  }

  lemma RestAfter(ascending: bool, aux: seq<Str>, done: seq<Str>, i: nat, j: int, e: Str, i': nat, j': int)
    requires i <= i' <= j' + 1 <= j + 1 <= |aux| && AllBefore(ascending, done, aux[i..j + 1])
    requires forall x :: i <= x <= j ==> Before(ascending, e, aux[x])
    ensures AllBefore(ascending, done + [e], aux[i'..j' + 1])
  {
    hide Before;
    var left, rest := aux[i..j + 1], aux[i'..j' + 1];
    forall a, b | 0 <= a <= |done| && 0 <= b < |rest|
      ensures Before(ascending, (done + [e])[a], rest[b])
    {
      assert rest[b] == left[i' - i + b] == aux[i' + b];
    }
  }

  lemma TakesEnd(ascending: bool, a: Str, b: Str)
    ensures TakesRight(ascending, a, b) <==> !Before(ascending, a, b)
  {
  }

  /** What stands after everything done can be done next. */
  lemma Appended(ascending: bool, done: seq<Str>, left: seq<Str>, at: nat)
    requires InOrder(ascending, done) && AllBefore(ascending, done, left) && at < |left|
    ensures InOrder(ascending, done + [left[at]])
  {
    BeforeOrder(ascending, left[at], left[at]);
  }

  /** Outside lower..upper two lists agree. */
  ghost predicate SameOutside(a: seq<Str>, b: seq<Str>, lower: int, upper: int) {
    |a| == |b| && forall x :: (0 <= x < lower || upper < x) && 0 <= x < |a| ==> a[x] == b[x]
  }

  /** Merges the auxiliary list from its two ends into the list. */
  method MergeEnds(list: array<Str>, lower: nat, upper: nat, aux: seq<Str>, ghost m: nat, ascending: bool)
    requires lower <= upper < list.Length && |aux| == upper + 1 - lower && Bitonic(ascending, aux, m)
    modifies list
    ensures SameOutside(list[..], old(list[..]), lower, upper)
    ensures InOrder(ascending, list[..][lower..upper + 1]) && multiset(list[..][lower..upper + 1]) == multiset(aux)
  {
    hide Before, InOrder, AllBefore, TakesRight, Bitonic, Merging, SameOutside;
    var i, j := 0, upper - lower;
    var k := lower;
    ghost var l, l0 := list[..], list[..];
    StartMerging(ascending, aux);
    Unchanged(l0, lower, upper);
    assert l[lower..lower] == [];
    while k <= upper
      invariant lower <= k <= upper + 1 && 0 <= i && |l| == list.Length && l == list[..]
      invariant SameOutside(l, l0, lower, upper)
      invariant Merging(ascending, aux, l[lower..k], i, j)
    {
      Indices(ascending, aux, l[lower..k], i, j);
      var str;
      if TakesRight(ascending, aux[i], aux[j]) {
        str := aux[j];
        MergeStep(ascending, aux, m, l[lower..k], i, j, str, i, j - 1);
        j := j - 1;
      } else {
        str := aux[i];
        MergeStep(ascending, aux, m, l[lower..k], i, j, str, i + 1, j);
        i := i + 1;
      }
      Put(l, l0, lower, upper, k, str);
      list[k] := str;
      l := l[k := str];
      k := k + 1;
    }
    AllMerged(ascending, aux, l[lower..k], i, j);
  }

  method Fusion(list: array<Str>, lower: nat, upper: nat, ascending: bool)
    requires lower <= upper < list.Length
    requires HalvesInOrder(ascending, list[..], lower, upper)
    modifies list
    ensures SameOutside(list[..], old(list[..]), lower, upper)
    ensures InOrder(ascending, list[..][lower..upper + 1])
    ensures multiset(list[..][lower..upper + 1]) == old(multiset(list[..][lower..upper + 1]))
  {
    hide HalvesInOrder, InOrder, Bitonic, Aux, SameOutside, Half;
    ghost var l := list[..];
    var aux := Auxiliary(list, lower, upper);
    AuxiliaryBitonic(ascending, l, lower, upper);
    AuxiliaryContents(l, lower, upper);
    MergeEnds(list, lower, upper, aux, Half(lower, upper) - lower, ascending);
  }

  ghost predicate HalvesInOrder(ascending: bool, l: seq<Str>, lower: nat, upper: nat)
    requires lower <= upper < |l|
  {
    InOrder(ascending, l[lower..Half(lower, upper)]) && InOrder(ascending, l[Half(lower, upper)..upper + 1])
  }

  lemma Put(l: seq<Str>, l0: seq<Str>, lower: nat, upper: nat, k: nat, e: Str)
    requires SameOutside(l, l0, lower, upper) && lower <= k <= upper < |l|
    ensures SameOutside(l[k := e], l0, lower, upper) && l[k := e][lower..k + 1] == l[lower..k] + [e]
  {
  }

  lemma Unchanged(l: seq<Str>, lower: int, upper: int)
    ensures SameOutside(l, l, lower, upper)
  {
  }

  lemma Indices(ascending: bool, aux: seq<Str>, done: seq<Str>, i: nat, j: int)
    requires Merging(ascending, aux, done, i, j)
    ensures i <= j + 1 <= |aux| && |done| == i + |aux| - 1 - j
  {
  }

  lemma AllMerged(ascending: bool, aux: seq<Str>, done: seq<Str>, i: nat, j: int)
    requires Merging(ascending, aux, done, i, j) && |done| == |aux|
    ensures InOrder(ascending, done) && multiset(done) == multiset(aux)
  {
    assert aux[i..j + 1] == [];
  }

  lemma StartMerging(ascending: bool, aux: seq<Str>)
    ensures Merging(ascending, aux, [], 0, |aux| - 1)
  {
    assert aux[0..|aux|] == aux;
  }

  lemma AuxiliaryBitonic(ascending: bool, l: seq<Str>, lower: nat, upper: nat)
    requires lower <= upper < |l| && HalvesInOrder(ascending, l, lower, upper)
    ensures Bitonic(ascending, Aux(l, lower, upper), Half(lower, upper) - lower)
  {
    hide Before, Half, Reverse;
    var left, right := l[lower..Half(lower, upper)], l[Half(lower, upper)..upper + 1];
    BitonicParts(ascending, left, right);
  }

  lemma BitonicParts(ascending: bool, left: seq<Str>, right: seq<Str>)
    requires InOrder(ascending, left) && InOrder(ascending, right)
    ensures Bitonic(ascending, left + Reverse(right), |left|)
  {
    hide Before, Reverse;
  }

  lemma AuxiliaryContents(l: seq<Str>, lower: nat, upper: nat)
    requires lower <= upper < |l|
    ensures multiset(Aux(l, lower, upper)) == multiset(l[lower..upper + 1])
  {
    hide Reverse, Half;
    var left, right := l[lower..Half(lower, upper)], l[Half(lower, upper)..upper + 1];
    ReverseContents(right);
    assert l[lower..upper + 1] == left + right;
  }

  // ---------- the sort ----------

  method Sort(list: array<Str>, lower: int, upper: int, ascending: bool)
    requires 0 <= lower <= upper + 1 <= list.Length
    modifies list
    ensures SameOutside(list[..], old(list[..]), lower, upper)
    ensures InOrder(ascending, list[..][lower..upper + 1])
    ensures multiset(list[..][lower..upper + 1]) == old(multiset(list[..][lower..upper + 1]))
    decreases upper - lower + 1
  {
    hide InOrder;
    if upper - lower > 0 {
      var middle := lower + (upper - lower) / 2;
      ghost var l0 := list[..];
      Sort(list, lower, middle, ascending);
      ghost var l1 := list[..];
      Sort(list, middle + 1, upper, ascending);
      ghost var l2 := list[..];
      Halves(l0, l1, l2, lower, middle, upper);
      Fusion(list, lower, upper, ascending);
    } else {
      OneInOrder(ascending, list[..][lower..upper + 1]);
    }
  }

  /** Sorting one half after the other keeps what the whole holds and what the first half has become. */
  lemma Halves(l0: seq<Str>, l1: seq<Str>, l2: seq<Str>, lower: int, middle: int, upper: int)
    requires 0 <= lower <= middle < upper < |l0| && SameOutside(l1, l0, lower, middle)
    requires SameOutside(l2, l1, middle + 1, upper)
    requires multiset(l1[lower..middle + 1]) == multiset(l0[lower..middle + 1])
    requires multiset(l2[middle + 1..upper + 1]) == multiset(l1[middle + 1..upper + 1])
    ensures l2[lower..middle + 1] == l1[lower..middle + 1]
    ensures multiset(l2[lower..upper + 1]) == multiset(l0[lower..upper + 1])
  {
    assert l1[middle + 1..upper + 1] == l0[middle + 1..upper + 1];
    assert l2[lower..middle + 1] == l1[lower..middle + 1];
    assert l2[lower..upper + 1] == l2[lower..middle + 1] + l2[middle + 1..upper + 1];
    assert l0[lower..upper + 1] == l0[lower..middle + 1] + l0[middle + 1..upper + 1];
  }

  lemma OneInOrder(ascending: bool, s: seq<Str>)
    requires |s| <= 1
    ensures InOrder(ascending, s)
  {
    if |s| == 1 { BeforeOrder(ascending, s[0], s[0]); }
  }

  /** The whole list is put in order, and nothing is lost or added. */
  method MergeSortList(list: array<Str>, ascending: bool)
    modifies list
    ensures InOrder(ascending, list[..]) && multiset(list[..]) == old(multiset(list[..]))
    ensures forall i, j :: 0 <= i < j < list.Length ==>
      if ascending then !Less(list[j].chars, list[i].chars) else !Less(list[i].chars, list[j].chars)
  {
    assert list[..][0..list.Length] == list[..];
    Sort(list, 0, list.Length - 1, ascending);
    assert list[..][0..list.Length] == list[..];
    Alphabetical(ascending, list[..]);
  }

  /** In the order of strcmp no string stands after one that the alphabet puts later, or earlier when descending. */
  lemma Alphabetical(ascending: bool, s: seq<Str>)
    requires InOrder(ascending, s)
    ensures forall i, j :: 0 <= i < j < |s| ==>
      if ascending then !Less(s[j].chars, s[i].chars) else !Less(s[i].chars, s[j].chars)
  {
    hide Less;
    forall i, j | 0 <= i < j < |s|
      ensures if ascending then !Less(s[j].chars, s[i].chars) else !Less(s[i].chars, s[j].chars)
    {
      var a, b := s[i].chars, s[j].chars;
      assert Before(ascending, s[i], s[j]);
      Opposite(a, b);
      LessIff(a, b);
      LessIff(b, a);
    }
  }
}
