/** C strings, the pointers to them, and the order of strcmp. */
module CStrings {

  type Byte = b: int | 0 <= b < 256

  /** A character of a C string: any byte but the terminating zero. */
  type Char = b: int | 1 <= b < 256 witness 1

  /** A pointer to a string in memory. Two strings with the same characters can be different pointers. */
  class Str {
    const chars: seq<Char>

    constructor (c: seq<Char>)
      ensures chars == c
    {
      chars := c;
    }
  }

  /** The sign of C's strcmp: the order of the first character that differs, the end of a string being the smallest. */
  function StrCmp(a: seq<Char>, b: seq<Char>): int
  {
    if |a| == 0 || |b| == 0 then |a| - |b|
    else if a[0] != b[0] then a[0] - b[0]
    else StrCmp(a[1..], b[1..])
  }

  lemma {:induction false} Equal(a: seq<Char>, b: seq<Char>)
    ensures StrCmp(a, b) == 0 <==> a == b
    decreases |a|
  {
    if |a| > 0 && |b| > 0 && a[0] == b[0] {
      Equal(a[1..], b[1..]);
      assert a == [a[0]] + a[1..] && b == [b[0]] + b[1..];
    }
  }

  lemma {:induction false} Opposite(a: seq<Char>, b: seq<Char>)
    ensures StrCmp(a, b) == -StrCmp(b, a)
    decreases |a|
  {
    if |a| > 0 && |b| > 0 && a[0] == b[0] {
      Opposite(a[1..], b[1..]);
    }
  }

  lemma {:induction false} Transitive(a: seq<Char>, b: seq<Char>, c: seq<Char>)
    requires StrCmp(a, b) <= 0 && StrCmp(b, c) <= 0
    ensures StrCmp(a, c) <= 0
    decreases |a|
  {
    if |a| > 0 && |b| > 0 && |c| > 0 && a[0] == b[0] == c[0] {
      Transitive(a[1..], b[1..], c[1..]);
    }
  }

  /** Up to place k the strings are the same; there b goes on or has the greater byte. */
  ghost predicate LessAt(a: seq<Char>, b: seq<Char>, k: int) {
    0 <= k <= |a| && k <= |b| && a[..k] == b[..k] && (k == |a| < |b| || (k < |a| && k < |b| && a[k] < b[k]))
  }

  /** The alphabetical order of byte strings. */
  ghost predicate Less(a: seq<Char>, b: seq<Char>) {
    exists k :: LessAt(a, b, k)
  }

  lemma SameStart(a: seq<Char>, b: seq<Char>, k: int)
    requires LessAt(a, b, k) && k > 0
    ensures |a| > 0 && |b| > 0 && a[0] == b[0] && LessAt(a[1..], b[1..], k - 1)
  {
    assert a[..k][0] == b[..k][0];
    assert a[1..][..k - 1] == a[..k][1..] && b[1..][..k - 1] == b[..k][1..];
  }

  lemma {:induction false} LessIff(a: seq<Char>, b: seq<Char>)
    ensures StrCmp(a, b) < 0 <==> Less(a, b)
    decreases |a|
  {
    hide LessAt;
    forall k | LessAt(a, b, k) && k > 0
      ensures |a| > 0 && |b| > 0 && a[0] == b[0] && LessAt(a[1..], b[1..], k - 1)
    {
      SameStart(a, b, k);
    }
    FirstByte(a, b);
    if |a| > 0 && |b| > 0 && a[0] == b[0] {
      LessIff(a[1..], b[1..]);
      if k :| LessAt(a[1..], b[1..], k) {
        LessLater(a, b, k);
      }
    }
  }

  lemma FirstByte(a: seq<Char>, b: seq<Char>)
    ensures LessAt(a, b, 0) <==> |b| > 0 && (|a| == 0 || a[0] < b[0])
    ensures forall k :: LessAt(a, b, k) ==> k >= 0
  {
  }

  lemma LessLater(a: seq<Char>, b: seq<Char>, k: int)
    requires |a| > 0 && |b| > 0 && a[0] == b[0] && LessAt(a[1..], b[1..], k)
    ensures LessAt(a, b, k + 1)
  {
    assert a[..k + 1] == [a[0]] + a[1..][..k] && b[..k + 1] == [b[0]] + b[1..][..k];
  }

  /** strcmp is negative exactly when a proper prefix, or the smaller byte at the first difference, comes first. */
  lemma Lexicographic(a: seq<Char>, b: seq<Char>)
    ensures StrCmp(a, b) < 0 <==> (exists k ::
      0 <= k <= |a| && k <= |b| && a[..k] == b[..k] && (k == |a| < |b| || (k < |a| && k < |b| && a[k] < b[k])))
  {
    hide StrCmp;
    LessIff(a, b);
    assert forall k :: LessAt(a, b, k) <==>
      0 <= k <= |a| && k <= |b| && a[..k] == b[..k] && (k == |a| < |b| || (k < |a| && k < |b| && a[k] < b[k]));
  }
}
