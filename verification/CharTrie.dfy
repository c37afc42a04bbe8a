/**
  lib/char_trie.c: unique copies of strings, kept in a trie whose nodes hold sorted arrays
  of elements found by binary search.
 */
module CharTrie {
  import opened CStrings
  import opened Sequences

  /** `str` matters when elem is 0, the end of a string; `next` otherwise. */
  datatype Element = Element(elem: Byte, str: Str?, next: Trie?)

  ghost predicate Sorted(es: seq<Element>) {
    forall j, k :: 0 <= j < k < |es| ==> es[j].elem < es[k].elem
  }

  /** The position of the element for `entity` between lower and upper, by binary search; -1 when there is none. */
  function LookupElementRec(es: seq<Element>, entity: Byte, lower: int, upper: int): (r: int)
    requires Sorted(es) && 0 <= lower && upper < |es|
    ensures -1 <= r < |es|
    ensures r >= 0 ==> lower <= r <= upper && es[r].elem == entity
    ensures r == -1 ==> forall k :: lower <= k <= upper ==> es[k].elem != entity
    decreases upper - lower + 1
  {
    if lower > upper then -1
    else
      var middle := (lower + upper) / 2;
      if entity < es[middle].elem then LookupElementRec(es, entity, lower, middle - 1)
      else if es[middle].elem < entity then LookupElementRec(es, entity, middle + 1, upper)
      else middle
  }

  function LookupElement(es: seq<Element>, entity: Byte): (r: int)
    requires Sorted(es)
    ensures -1 <= r < |es|
    ensures r >= 0 ==> es[r].elem == entity
    ensures r == -1 ==> forall k :: 0 <= k < |es| ==> es[k].elem != entity
  {
    LookupElementRec(es, entity, 0, |es| - 1)
  }

  type Table = map<seq<Char>, Str>

  /** The table of the child of an element. */
  ghost function KidOf(e: Element): Table
    reads if e.next != null then {e.next} else {}
  {
    if e.next != null then e.next.table else map[]
  }

  /** The tables of the children. */
  ghost function Kids(es: seq<Element>): (kids: seq<Table>)
    reads set k | 0 <= k < |es| && es[k].next != null :: es[k].next
    ensures |kids| == |es| && forall k :: 0 <= k < |es| ==> kids[k] == KidOf(es[k])
  {
    if |es| == 0 then []
    else
      var n := |es| - 1;
      assert forall k :: 0 <= k < n ==> es[..n][k] == es[k];
      Kids(es[..n]) + [KidOf(es[n])]
  }

  /** One step of a lookup of s from a node with these elements, when its children have these tables. */
  ghost function Here(es: seq<Element>, kids: seq<Table>, s: seq<Char>): (p: Str?)
    requires Sorted(es) && |kids| == |es|
  {
    if |s| == 0 then
      if |es| > 0 && es[0].elem == 0 then es[0].str else null
    else
      var k := LookupElement(es, s[0]);
      if k >= 0 && es[k].next != null && s[1..] in kids[k] then kids[k][s[1..]] else null
  }

  /** The table agrees with the elements. */
  ghost predicate Tied(es: seq<Element>, kids: seq<Table>, table: Table)
    requires Sorted(es) && |kids| == |es|
  {
    forall s: seq<Char> :: (s in table <==> Here(es, kids, s) != null) && (s in table ==> Here(es, kids, s) == table[s])
  }

  /**
    The children in `es` hold strings; they and the nodes below them are apart from each other, and
    together are in `below`.
   */
  ghost predicate Apart(es: seq<Element>, below: set<Trie>)
    reads below
  {
    && (forall k :: 0 <= k < |es| && es[k].elem == 0 ==> es[k].str != null && es[k].next == null)
    && (forall k :: 0 <= k < |es| && es[k].elem != 0 ==>
          es[k].next != null && es[k].next in below && es[k].next.repr <= below && es[k].next in es[k].next.repr
            && es[k].next.table.Keys != {})
    && (forall j, k :: 0 <= j < k < |es| && es[j].elem != 0 && es[k].elem != 0 ==> es[j].next.repr !! es[k].next.repr)
  }

  class Trie {
    var elements: seq<Element>
    /** The nodes from this one down. */
    ghost var repr: set<Trie>
    /** The strings kept from this node down, without the characters that lead to it. */
    ghost var table: Table

    constructor ()
      ensures Valid() && elements == [] && repr == {this} && table == map[]
    {
      elements := [];
      repr := {this};
      table := map[];
    }

    ghost predicate Valid()
      reads this, repr
      decreases repr
    {
      && this in repr && Sorted(elements) && Apart(elements, repr - {this}) && Tied(elements, Kids(elements), table)
      && forall k :: 0 <= k < |elements| && elements[k].elem != 0 ==> elements[k].next.Valid()
    }

    /** The pointer kept for the string s below this node; null when there is none. */
    function LookupList(s: seq<Char>): (p: Str?)
      requires Valid()
      reads this, repr
      ensures p == if s in table then table[s] else null
      decreases |s|
    {
      if |s| == 0 then
        if |elements| > 0 && elements[0].elem == 0 then elements[0].str else null
      else
        var k := LookupElement(elements, s[0]);
        if k == -1 then null else elements[k].next.LookupList(s[1..])
    }
  }

  // ---------- inserting an element into a sorted array ----------

  ghost function Spread(es: seq<Element>, lower: nat, e: Element): (r: seq<Element>)
    requires lower <= |es|
  {
    es[..lower] + [e] + es[lower..]
  }

  ghost predicate Fits(es: seq<Element>, lower: nat, entity: Byte) {
    && lower <= |es|
    && (forall k :: 0 <= k < lower ==> es[k].elem < entity)
    && (forall k :: lower <= k < |es| ==> entity < es[k].elem)
  }

  /** Elements that were there are found as before, and the new one where it was put. */
  lemma SpreadLookup(es: seq<Element>, lower: nat, e: Element, b: Byte)
    requires Sorted(es) && Fits(es, lower, e.elem)
    ensures Sorted(Spread(es, lower, e))
    ensures var k := LookupElement(Spread(es, lower, e), b);
      if b == e.elem then k == lower && Spread(es, lower, e)[k] == e
      else var j := LookupElement(es, b); (k == -1 <==> j == -1) && (k >= 0 ==> Spread(es, lower, e)[k] == es[j])
  {
    var fs := Spread(es, lower, e);
    forall j, k | 0 <= j < k < |fs| ensures fs[j].elem < fs[k].elem {}
    var k, j := LookupElement(fs, b), LookupElement(es, b);
    if b == e.elem {
      assert fs[lower] == e;
    } else {
      if j >= 0 {
        assert fs[if j < lower then j else j + 1] == es[j];
      }
      if k >= 0 {
        assert fs[k] == es[if k < lower then k else k - 1];
      }
    }
  }

  lemma GapFilled(es: seq<Element>, gap: seq<Element>, lower: nat, e: Element)
    requires lower <= |es| && |gap| == |es| + 1 && gap[..lower] == es[..lower] && gap[lower + 1..] == es[lower..]
    ensures gap[lower := e] == Spread(es, lower, e)
  {
    assert gap[lower := e] == gap[..lower] + [e] + gap[lower + 1..];
  }

  /** sizeof(char_trie_t) on the machine at hand. */
  const NODE: nat := 16

  // ---------- memory ----------

  ghost predicate Distinct(log: seq<seq<Char>>) {
    forall i, j :: 0 <= i < j < |log| ==> log[i] != log[j]
  }

  /** The memory of the strings, their terminating zeros included. */
  ghost function Total(log: seq<seq<Char>>): nat {
    if |log| == 0 then 0 else Total(log[..|log| - 1]) + |log[|log| - 1]| + 1
  }

  lemma TotalGrows(log: seq<seq<Char>>, s: seq<Char>)
    ensures Total(log + [s]) == Total(log) + |s| + 1
  {
    assert (log + [s])[..|log|] == log;
  }

  /** The non-empty prefixes of some strings. */
  ghost function Prefixes(strings: set<seq<Char>>): set<seq<Char>> {
    set s, k | s in strings && 1 <= k <= |s| :: s[..k]
  }

  ghost function NewPrefixes(s: seq<Char>, depth: nat): set<seq<Char>>
    requires depth <= |s|
  {
    set k | depth < k <= |s| :: s[..k]
  }

  lemma {:induction false} NewPrefixCount(s: seq<Char>, depth: nat)
    requires depth <= |s|
    ensures |NewPrefixes(s, depth)| == |s| - depth
    decreases |s| - depth
  {
    if depth < |s| {
      NewPrefixCount(s, depth + 1);
      assert NewPrefixes(s, depth) == NewPrefixes(s, depth + 1) + {s[..depth + 1]};
      forall p | p in NewPrefixes(s, depth + 1) ensures |p| > depth + 1 {}
    } else {
      assert NewPrefixes(s, depth) == {};
    }
  }

  /** A new string of which `depth` characters were there adds one prefix for each of the others. */
  lemma MorePrefixes(table: Table, s: seq<Char>, depth: nat, r: Str)
    requires Depth(table, s, depth)
    ensures |Prefixes(table[s := r].Keys)| == |Prefixes(table.Keys)| + |s| - depth
  {
    var before, added, after := Prefixes(table.Keys), NewPrefixes(s, depth), Prefixes(table[s := r].Keys);
    NewPrefixCount(s, depth);
    assert table[s := r].Keys == table.Keys + {s};
    forall p
      ensures p in after <==> p in before || p in added
      ensures !(p in before && p in added)
    {
      PrefixCases(table, s, depth, p);
    }
    assert after == before + added && before !! added;
  }

  lemma PrefixCases(table: Table, s: seq<Char>, depth: nat, p: seq<Char>)
    requires Depth(table, s, depth)
    ensures p in Prefixes(table.Keys) <==> |p| > 0 && HasPrefix(table, p)
    ensures p in Prefixes(table.Keys + {s}) <==> p in Prefixes(table.Keys) || p in NewPrefixes(s, depth)
    ensures !(p in Prefixes(table.Keys) && p in NewPrefixes(s, depth))
  {
    if |p| > 0 && HasPrefix(table, p) {
      var t :| t in table && p <= t;
      assert t[..|p|] == p;
    }
    if |p| > 0 && p <= s {
      assert s[..|p|] == p;
    }
  }

  // ---------- inserting a string ----------

  /** The trie behind uniquestr, and the count of the memory it uses. */
  class Interner {
    const root: Trie
    var bytes: nat
    /** The strings interned so far, in order. */
    ghost var log: seq<seq<Char>>

    constructor ()
      ensures Valid() && fresh(root) && fresh(root.repr) && root.table == map[]
    {
      root := new Trie();
      bytes := 0;
      log := [];
    }

    /**
      Each string is kept under its own characters, and the memory counted is that of the
      distinct strings interned and of one node for every distinct non-empty prefix of them.
     */
    ghost predicate Valid()
      reads this, root, root.repr
    {
      && root.Valid() && (forall s :: s in root.table ==> root.table[s].chars == s)
      && Distinct(log) && (forall s :: s in log <==> s in root.table)
      && bytes == Total(log) + NODE * |Prefixes(root.table.Keys)|
    }

    /** The unique copy of a string: the one kept, or a new one that is kept from now on. */
    method UniqueStr(c: Str?) returns (r: Str?)
      requires Valid()
      modifies this`bytes, this`log, root, root.repr
      ensures Valid() && fresh(root.repr - old(root.repr))
      ensures c == null ==> r == null && root.table == old(root.table)
      ensures c != null ==> r != null && r.chars == c.chars && root.table == old(root.table)[c.chars := r]
      ensures c != null ==> if c.chars in old(root.table) then r == old(root.table)[c.chars] else fresh(r)
    {
      hide Trie.Valid, Prefixes, Total, Depth, Trie.LookupList;
      if c == null {
        return null;
      }
      r := root.LookupList(c.chars);
      if r == null {
        ghost var depth;
        r, depth := InsertListRec(root, c.chars, c.chars);
        MorePrefixes(old(root.table), c.chars, depth, r);
        TotalGrows(log, c.chars);
        log := log + [c.chars];
      } else {
        assert root.table == root.table[c.chars := r];
      }
    }

    /**
      Over any number of calls, NULL gives NULL, and two other results are the same pointer
      exactly when the inputs have the same characters.
     */
    method UniqueStrs(cs: seq<Str?>) returns (rs: seq<Str?>)
      requires Valid()
      modifies this`bytes, this`log, root, root.repr
      ensures Valid() && fresh(root.repr - old(root.repr)) && |rs| == |cs|
      ensures forall i :: 0 <= i < |cs| ==>
        if cs[i] == null then rs[i] == null else rs[i] != null && rs[i].chars == cs[i].chars
      ensures forall i, j :: 0 <= i < |cs| && 0 <= j < |cs| && cs[i] != null && cs[j] != null ==>
        (rs[i] == rs[j] <==> cs[i].chars == cs[j].chars)
      ensures forall s :: s in old(root.table) ==> s in root.table && root.table[s] == old(root.table)[s]
    {
      hide Trie.Valid, Prefixes, Total, Distinct;
      rs := [];
      while |rs| < |cs|
        invariant Valid() && |rs| <= |cs| && fresh(root.repr - old(root.repr))
        invariant forall i :: 0 <= i < |rs| ==>
          if cs[i] == null then rs[i] == null else cs[i].chars in root.table && root.table[cs[i].chars] == rs[i]
        invariant forall s :: s in old(root.table) ==> s in root.table && root.table[s] == old(root.table)[s]
      {
        var r := UniqueStr(cs[|rs|]);
        rs := rs + [r];
      }
    }

    method CreateElements(t: Trie, orig: seq<Char>, str: seq<Char>) returns (r: Str)
      requires t.Valid()
      requires (forall k :: 0 <= k < |t.elements| ==> t.elements[k].elem != if |str| == 0 then 0 else str[0])
      modifies t, this`bytes
      ensures t.Valid() && fresh(t.repr - old(t.repr)) && old(t.repr) <= t.repr
      ensures fresh(r) && r.chars == orig && t.table == old(t.table)[str := r]
      ensures bytes == old(bytes) + NODE * |str| + |orig| + 1
      decreases |str|
    {
      hide LookupElement, Here, Spread, Kept, Kids, Apart, Tied, Sorted, Fits, Trie.Valid;
      var entity: Byte := if |str| == 0 then 0 else str[0];
      Unravel(t);
      ghost var es, below, table := t.elements, t.repr - {t}, t.table;
      var lower := Place(t.elements, entity);
      var gap := OpenGap(t.elements, lower);
      if |str| == 0 {
        r := new Str(orig);
        t.elements := gap[lower := Element(0, r, null)];
        bytes := bytes + |orig| + 1;
        GapFilled(es, gap, lower, Element(0, r, null));
        t.table := t.table[str := r];
        Rebuilt(t, es, below, table, lower, Element(0, r, null), str, r);
      } else {
        var child := new Trie();
        t.elements := gap[lower := Element(str[0], null, child)];
        bytes := bytes + NODE;
        GapFilled(es, gap, lower, Element(str[0], null, child));
        r := CreateElements(child, orig, str[1..]);
        assert str[1..] in child.table;
        t.repr := t.repr + child.repr;
        t.table := t.table[str := r];
        Rebuilt(t, es, below, table, lower, Element(str[0], null, child), str, r);
      }
    }

    /**
      Inserts `str`, which is not there yet, and never gives up: `depth` of its characters
      were there already.
     */
    method InsertListRec(t: Trie, orig: seq<Char>, str: seq<Char>) returns (r: Str?, ghost depth: nat)
      requires t.Valid() && str !in t.table
      modifies t.repr, this`bytes
      ensures t.Valid() && fresh(t.repr - old(t.repr)) && old(t.repr) <= t.repr
      ensures r != null && fresh(r) && r.chars == orig && t.table == old(t.table)[str := r]
      ensures Depth(old(t.table), str, depth)
      ensures bytes == old(bytes) + NODE * (|str| - depth) + |orig| + 1
      decreases |str|
    {
      hide LookupElement, Spread, Kept, Joins, Shape, Kids;
      Unravel(t);
      if |str| == 0 {
        depth := 0;
        Terminator(t);
        if |t.elements| == 0 || t.elements[0].elem != 0 {
          r := CreateElements(t, orig, str);
        } else {
          r := null;
        }
      } else {
        var k := LookupElement(t.elements, str[0]);
        if k == -1 {
          depth := 0;
          NoChild(t, str);
          r := CreateElements(t, orig, str);
        } else {
          r, depth := InsertBelow(t, k, orig, str);
        }
      }
    }

    /** The string goes on below the child at k. */
    method InsertBelow(t: Trie, k: nat, orig: seq<Char>, str: seq<Char>) returns (r: Str?, ghost depth: nat)
      requires t.Valid() && str !in t.table && |str| > 0 && k < |t.elements| && t.elements[k].elem == str[0]
      modifies t.repr, this`bytes
      ensures t.Valid() && fresh(t.repr - old(t.repr)) && old(t.repr) <= t.repr
      ensures r != null && fresh(r) && r.chars == orig && t.table == old(t.table)[str := r]
      ensures Depth(old(t.table), str, depth)
      ensures bytes == old(bytes) + NODE * (|str| - depth) + |orig| + 1
      decreases |str|, 0
    {
      hide LookupElement, Spread, Kept, Shape, Here, Apart, Tied, Depth, HasPrefix, Sorted, Leads, Without, Fits, Kids,
        Trie.Valid;
      ghost var es, e, kids := t.elements, t.elements[k], Kids(t.elements);
      ghost var others, rest := Around(t, k);
      NotBelow(t.table, str, e.next.table);
      var child := t.elements[k].next;
      r, depth := InsertListRec(child, orig, str[1..]);
      DepthBelow(old(t.table), old(child.table), str, depth);
      depth := depth + 1;
      t.repr := t.repr + child.repr;
      t.table := t.table[str := r];
      assert str[1..] in child.table;
      Grown(es, kids, old(t.table), k, str, r);
      assert Kids(es) == kids[k := child.table];
      Regrown(t, k, others, rest, e);
    }

    /** Where the element for `entity`, which is not there yet, belongs. The abort of the search is never reached. */
    method Place(es: seq<Element>, entity: Byte) returns (lower: nat)
      requires Sorted(es) && forall k :: 0 <= k < |es| ==> es[k].elem != entity
      ensures Fits(es, lower, entity)
    {
      lower := 0;
      var upper := |es| - 1;
      while lower <= upper
        invariant 0 <= lower <= upper + 1 <= |es|
        invariant forall k :: 0 <= k < lower ==> es[k].elem < entity
        invariant forall k :: upper < k < |es| ==> entity < es[k].elem
      {
        var middle := (lower + upper) / 2;
        var here := es[middle].elem;
        if entity < here {
          upper := middle - 1;
        } else if here < entity {
          lower := middle + 1;
        } else {
          assert false;
        }
      }
    }

    /** One more element, with those from `lower` on shifted right; what is left at `lower` does not matter. */
    method OpenGap(es: seq<Element>, lower: nat) returns (gap: seq<Element>)
      requires lower <= |es|
      ensures |gap| == |es| + 1 && gap[..lower] == es[..lower] && gap[lower + 1..] == es[lower..]
    {
      gap := es + [Element(0, null, null)];
      var i := |gap| - 1;
      while i > lower
        invariant lower <= i < |gap| == |es| + 1
        invariant forall k :: 0 <= k < i ==> gap[k] == es[k]
        invariant forall k :: i < k < |gap| ==> gap[k] == es[k - 1]
      {
        gap := gap[i := gap[i - 1]];
        i := i - 1;
      }
    }
  }

  /** The array of a node and the nodes below it are well formed. */
  ghost predicate Shape(es: seq<Element>, below: set<Trie>)
    reads below
  {
    Sorted(es) && Apart(es, below) && forall k :: 0 <= k < |es| && es[k].elem != 0 ==> es[k].next.Valid()
  }

  /** What a node keeps about its elements and the nodes below it, which no change of the node itself affects. */
  ghost predicate Kept(es: seq<Element>, below: set<Trie>, table: Table)
    reads below
  {
    Shape(es, below) && Tied(es, Kids(es), table)
  }

  lemma Unravel(t: Trie)
    requires t.Valid()
    ensures t in t.repr && Sorted(t.elements) && Kept(t.elements, t.repr - {t}, t.table)
  {
  }

  /** A child that can take its place in a node whose other children are in `below`. */
  ghost predicate Joins(e: Element, below: set<Trie>)
    reads if e.next != null then {e.next} + e.next.repr else {}
  {
    if e.elem == 0 then e.str != null && e.next == null else
      e.next != null && e.next in e.next.repr && e.next.repr !! below && e.next.Valid() && e.next.table.Keys != {}
  }

  lemma ShapeSpread(es: seq<Element>, below: set<Trie>, lower: nat, e: Element, below': set<Trie>)
    requires Shape(es, below) && Fits(es, lower, e.elem) && Joins(e, below)
    requires below' == if e.elem == 0 then below else below + e.next.repr
    ensures Shape(Spread(es, lower, e), below')
  {
    ApartSpread(es, below, lower, e, below');
    KidsSpread(es, lower, e);
    SpreadLookup(es, lower, e, e.elem);
  }

  lemma Rebuilt(t: Trie, es: seq<Element>, below: set<Trie>, table: Table, lower: nat, e: Element,
          str: seq<Char>, r: Str)
    requires Kept(es, below, table) && t !in below && Fits(es, lower, e.elem) && Joins(e, below)
    requires t.elements == Spread(es, lower, e) && t.table == table[str := r]
    requires e.elem == if |str| == 0 then 0 else str[0]
    requires if |str| == 0 then e.str == r && t.repr == below + {t} else
      t !in e.next.repr && t.repr == below + {t} + e.next.repr && e.next.table == map[str[1..] := r]
    ensures t.Valid()
  {
    ShapeSpread(es, below, lower, e, t.repr - {t});
    KidsOfSpread(es, lower, e);
    Added(es, Kids(es), lower, e, KidOf(e), table, str, r);
    hide Here, LookupElement, Sorted, Apart, Fits, Spread, Tied, Kids;
  }

  /** The first `depth` characters of s, and no more, lead to strings of the table. */
  ghost predicate Depth(table: Table, s: seq<Char>, depth: nat) {
    depth <= |s| && forall k :: 1 <= k <= |s| ==> (HasPrefix(table, s[..k]) <==> k <= depth)
  }

  ghost predicate HasPrefix(table: Table, p: seq<Char>) {
    exists s :: s in table && p <= s
  }

  /** The empty string is in the table exactly when the first element is the end of a string. */
  lemma Terminator(t: Trie)
    requires t.Valid()
    ensures [] in t.table <==> |t.elements| > 0 && t.elements[0].elem == 0
    ensures [] !in t.table ==> forall k :: 0 <= k < |t.elements| ==> t.elements[k].elem != 0
  {
    assert [] in t.table <==> Here(t.elements, Kids(t.elements), []) != null;
  }

  /** No string of the table starts with a character that has no element. */
  lemma NoChild(t: Trie, str: seq<Char>)
    requires t.Valid() && |str| > 0 && LookupElement(t.elements, str[0]) == -1
    ensures Depth(t.table, str, 0)
  {
    forall k, s | 1 <= k <= |str| && s in t.table
      ensures !(str[..k] <= s)
    {
      assert Here(t.elements, Kids(t.elements), s) != null;
      assert |s| > 0 ==> s[0] != str[0];
      assert str[..k][0] == str[0];
    }
  }

  /** The strings of `table` that start with c are those of `below`, without that character. */
  ghost predicate Leads(table: Table, c: int, below: Table) {
    forall s: seq<Char> :: |s| > 0 && s[0] == c ==> (s in table <==> s[1..] in below)
  }

  lemma NotBelow(table: Table, str: seq<Char>, below: Table)
    requires |str| > 0 && Leads(table, str[0], below) && str !in table
    ensures str[1..] !in below
  {
  }

  lemma ChildLeads(t: Trie, k: nat)
    requires t.Valid() && k < |t.elements| && t.elements[k].elem != 0
    ensures Leads(t.table, t.elements[k].elem, t.elements[k].next.table)
  {
    var es, e := t.elements, t.elements[k];
    forall s: seq<Char> | |s| > 0 && s[0] == e.elem
      ensures s in t.table <==> s[1..] in e.next.table
    {
      assert LookupElement(es, s[0]) == k;
      assert s in t.table <==> Here(es, Kids(es), s) != null;
    }
  }

  /** Around the child at k: the other children, and the nodes below those. */
  lemma Around(t: Trie, k: nat) returns (others: seq<Element>, rest: set<Trie>)
    requires t.Valid() && k < |t.elements| && t.elements[k].elem != 0
    ensures t in t.repr
    ensures var es, e := t.elements, t.elements[k];
      && others == Without(es, k) && e.next != null && e.next.Valid()
      && e.next.repr <= t.repr - {t} && e.next.table.Keys != {}
      && rest == t.repr - {t} - e.next.repr && Sorted(es)
      && Tied(es, Kids(es), t.table) && Leads(t.table, e.elem, e.next.table)
      && Shape(others, rest) && Fits(others, k, e.elem) && es == Spread(others, k, e)
      && forall j :: 0 <= j < |es| && j != k && es[j].next != null ==> es[j].next in rest
  {
    var es, e := t.elements, t.elements[k];
    others, rest := Without(es, k), t.repr - {t} - e.next.repr;
    TakenOut(es, k, t.repr - {t});
    ChildLeads(t, k);
    forall j | 0 <= j < |es| && j != k && es[j].next != null
      ensures es[j].next in rest
    {
      assert es[j].next in es[j].next.repr;
      assert es[j].next.repr !! e.next.repr;
    }
  }

  lemma DepthBelow(table: Table, below: Table, str: seq<Char>, depth: nat)
    requires |str| > 0 && Leads(table, str[0], below) && below.Keys != {} && Depth(below, str[1..], depth)
    ensures Depth(table, str, depth + 1)
  {
    forall k | 1 <= k <= |str|
      ensures HasPrefix(table, str[..k]) <==> k <= depth + 1
    {
      PrefixBelow(table, below, str, k);
    }
  }

  lemma PrefixBelow(table: Table, below: Table, str: seq<Char>, k: nat)
    requires 1 <= k <= |str| && Leads(table, str[0], below) && below.Keys != {}
    ensures HasPrefix(table, str[..k]) <==> k == 1 || HasPrefix(below, str[1..][..k - 1])
  {
    var p, q := str[..k], str[1..][..k - 1];
    assert p == [str[0]] + q;
    if s :| s in table && p <= s {
      assert s[0] == p[0] && q <= s[1..];
      assert s[1..] in below;
    }
    if s :| s in below && q <= s {
      var s' := [str[0]] + s;
      assert s'[1..] == s && s' in table && p <= s';
    }
    if k == 1 {
      var s :| s in below;
      var s' := [str[0]] + s;
      assert s'[1..] == s && s' in table && p <= s';
    }
  }

  /** When one child gains one string, so does the table of its parent. */
  lemma Grown(es: seq<Element>, kids: seq<Table>, table: Table, k: nat, str: seq<Char>, r: Str)
    requires Sorted(es) && |kids| == |es| && k < |es| && |str| > 0 && es[k].elem == str[0] && es[k].next != null
    requires Tied(es, kids, table)
    ensures Tied(es, kids[k := kids[k][str[1..] := r]], table[str := r])
  {
    var kids', table' := kids[k := kids[k][str[1..] := r]], table[str := r];
    forall s: seq<Char>
      ensures (s in table' <==> Here(es, kids', s) != null) && (s in table' ==> Here(es, kids', s) == table'[s])
    {
      assert (s in table <==> Here(es, kids, s) != null) && (s in table ==> Here(es, kids, s) == table[s]);
      if |s| > 0 && s[0] == str[0] {
        assert LookupElement(es, s[0]) == k;
        assert s == [s[0]] + s[1..] && str == [str[0]] + str[1..];
        assert s[1..] == str[1..] <==> s == str;
      }
    }
  }

  lemma Regrown(t: Trie, k: nat, others: seq<Element>, rest: set<Trie>, e: Element)
    requires Shape(others, rest) && Fits(others, k, e.elem) && Joins(e, rest) && e.elem != 0
    requires t.elements == Spread(others, k, e) && t.repr == rest + {t} + e.next.repr && t !in rest && t !in e.next.repr
    requires Sorted(t.elements) && Tied(t.elements, Kids(t.elements), t.table)
    ensures t.Valid()
  {
    ShapeSpread(others, rest, k, e, rest + e.next.repr);
    assert t.repr - {t} == rest + e.next.repr;
    hide Spread, Tied, Sorted, Fits, Apart, Joins, Kids;
  }

  /** Taking one child out leaves a well-formed array of the others. */
  lemma TakenOut(es: seq<Element>, k: nat, below: set<Trie>)
    requires Shape(es, below) && k < |es| && es[k].elem != 0
    ensures Shape(Without(es, k), below - es[k].next.repr) && Fits(Without(es, k), k, es[k].elem)
    ensures es == Spread(Without(es, k), k, es[k])
  {
    hide Kids, Tied, LookupElement;
    var fs := Without(es, k);
    forall j | 0 <= j < |fs|
      ensures fs[j] == es[if j < k then j else j + 1]
    {
    }
  }

  lemma KidsSpread(es: seq<Element>, lower: nat, e: Element)
    requires (forall k :: 0 <= k < |es| && es[k].elem != 0 ==> es[k].next != null && es[k].next.Valid())
    requires lower <= |es| && (e.elem != 0 ==> e.next != null && e.next.Valid())
    ensures var fs := Spread(es, lower, e); forall k :: 0 <= k < |fs| && fs[k].elem != 0 ==>
      fs[k].next != null && fs[k].next.Valid()
  {
    var fs := Spread(es, lower, e);
    forall k | 0 <= k < |fs| && fs[k].elem != 0
      ensures fs[k].next != null && fs[k].next.Valid()
    {
      assert fs[k] == if k < lower then es[k] else if k == lower then e else es[k - 1];
    }
  }

  lemma ApartSpread(es: seq<Element>, below: set<Trie>, lower: nat, e: Element, below': set<Trie>)
    requires below <= below' && Fits(es, lower, e.elem) && Apart(es, below)
    requires if e.elem == 0 then e.str != null && e.next == null else
      e.next != null && e.next in below' && e.next.repr <= below' && e.next in e.next.repr && e.next.table.Keys != {}
        && e.next.repr !! below
    ensures Apart(Spread(es, lower, e), below')
  {
    var fs := Spread(es, lower, e);
    forall k | 0 <= k < |fs|
      ensures fs[k] == if k < lower then es[k] else if k == lower then e else es[k - 1]
    {
    }
  }

  lemma KidsConcat(a: seq<Element>, b: seq<Element>)
    ensures Kids(a + b) == Kids(a) + Kids(b)
  {
    hide Kids, KidOf;
    var c, left, right := a + b, Kids(a + b), Kids(a) + Kids(b);
    forall k | 0 <= k < |c|
      ensures left[k] == right[k]
    {
      assert left[k] == KidOf(c[k]);
      assert c[k] == if k < |a| then a[k] else b[k - |a|];
    }
  }

  lemma KidsOfSpread(es: seq<Element>, lower: nat, e: Element)
    requires lower <= |es|
    ensures Kids(Spread(es, lower, e)) == Kids(es)[..lower] + [KidOf(e)] + Kids(es)[lower..]
  {
    hide Kids, KidOf;
    var a, b := es[..lower], es[lower..];
    KidsConcat(a + [e], b);
    KidsConcat(a, [e]);
    KidsConcat(a, b);
    assert Kids([e]) == [KidOf(e)];
    assert a + b == es;
    assert Kids(es)[..lower] == Kids(a) && Kids(es)[lower..] == Kids(b);
  }

  /**
    Adding one element, for a string that ends here or with a child that holds one string, adds
    that string to the table.
   */
  lemma Added(es: seq<Element>, kids: seq<Table>, lower: nat, e: Element, kid: Table, table: Table,
          str: seq<Char>, r: Str)
    requires Sorted(es) && |kids| == |es| && Fits(es, lower, e.elem) && Tied(es, kids, table)
    requires e.elem == if |str| == 0 then 0 else str[0]
    requires if |str| == 0 then e.str == r else e.next != null && kid == map[str[1..] := r]
    ensures Sorted(Spread(es, lower, e))
    ensures Tied(Spread(es, lower, e), kids[..lower] + [kid] + kids[lower..], table[str := r])
  {
    SpreadLookup(es, lower, e, e.elem);
    var fs, kids', table' := Spread(es, lower, e), kids[..lower] + [kid] + kids[lower..], table[str := r];
    forall s: seq<Char>
      ensures (s in table' <==> Here(fs, kids', s) != null) && (s in table' ==> Here(fs, kids', s) == table'[s])
    {
      assert (s in table <==> Here(es, kids, s) != null) && (s in table ==> Here(es, kids, s) == table[s]);
      if |s| > 0 {
        AddedHere(es, kids, lower, e, kid, s);
        if s[0] == e.elem {
          assert LookupElement(es, s[0]) == -1;
          assert s == [s[0]] + s[1..] && str == [str[0]] + str[1..];
          assert s[1..] == str[1..] <==> s == str;
        }
      } else {
        assert fs[0] == if lower == 0 then e else es[0];
      }
    }
  }

  lemma AddedHere(es: seq<Element>, kids: seq<Table>, lower: nat, e: Element, kid: Table, s: seq<Char>)
    requires Sorted(es) && |kids| == |es| && Fits(es, lower, e.elem) && |s| > 0
    ensures Sorted(Spread(es, lower, e))
    ensures var h := Here(Spread(es, lower, e), kids[..lower] + [kid] + kids[lower..], s);
      h == if s[0] != e.elem then Here(es, kids, s) else if e.next != null && s[1..] in kid then kid[s[1..]] else null
  {
    SpreadLookup(es, lower, e, s[0]);
    var fs, kids' := Spread(es, lower, e), kids[..lower] + [kid] + kids[lower..];
    var k, j := LookupElement(fs, s[0]), LookupElement(es, s[0]);
    if k >= 0 && k != lower {
      assert fs[k] == es[if k < lower then k else k - 1] && kids'[k] == kids[if k < lower then k else k - 1];
    }
  }
}
