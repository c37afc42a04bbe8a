/**
  lib/extstruct.c: an extensible struct, a table from field names to data built from a
  red-black tree whose keys are the unique copies of the names that uniquestr keeps.
 */
module ExtStruct {
  import opened Options
  import opened CStrings
  import opened RbShape
  import opened RedBlackTree
  import CharTrie

  /**
    Where the unique strings lie in memory: `unique` is the address of the unique copy of
    a string, `text` what an address holds. There is one copy per contents, so its
    address depends on the contents only (`SamePointer`).
   */
  datatype Strings = Strings(text: int -> seq<Char>, unique: seq<Char> -> int)
  {
    ghost predicate Valid() { forall s {:trigger unique(s)} :: text(unique(s)) == s }

    /** The comparison function of the tree: strcmp on what two addresses hold. */
    function Compare(): (int, int) -> int { (a, b) => StrCmp(text(a), text(b)) }
  }

  lemma CompareIsComparator(m: Strings)
    ensures Comparator(m.Compare())
  {
    var comp := m.Compare();
    forall a, b
      ensures comp(a, b) > 0 <==> comp(b, a) < 0
    {
      Opposite(m.text(a), m.text(b));
    }
    forall a, b, c | comp(a, b) <= 0 && comp(b, c) <= 0
      ensures comp(a, c) <= 0
    {
      Transitive(m.text(a), m.text(b), m.text(c));
    }
  }

  type Table = map<seq<Char>, int>

  /** The nodes, in order, hold exactly the fields of the table. */
  ghost predicate Holds(m: Strings, s: seq<Node>, table: Table)
    reads s
  {
    && (forall i :: 0 <= i < |s| ==> m.text(s[i].key) in table && table[m.text(s[i].key)] == s[i].info)
    && (forall name :: name in table ==> HasName(m, s, name))
  }

  ghost predicate HasName(m: Strings, s: seq<Node>, name: seq<Char>) {
    exists i :: 0 <= i < |s| && m.text(s[i].key) == name
  }

  /** Names in increasing order of strcmp, which is the alphabetical order of their bytes, without repetition. */
  ghost predicate Increasing(names: seq<seq<Char>>) {
    forall i, j :: 0 <= i < j < |names| ==> Less(names[i], names[j])
  }

  /** A unique copy of every field's name is kept. */
  ghost predicate Kept(unique: CharTrie.Table, fields: Table) {
    forall name :: name in fields ==> name in unique
  }

  /** What was kept is kept where it was. */
  ghost predicate StillKept(before: CharTrie.Table, after: CharTrie.Table) {
    forall s :: s in before ==> s in after && after[s] == before[s]
  }

  lemma KeptOn(a: CharTrie.Table, b: CharTrie.Table, c: CharTrie.Table)
    requires StillKept(a, b) && StillKept(b, c)
    ensures StillKept(a, c)
  {
  }

  ghost function Texts(keys: seq<Str>): seq<seq<Char>> {
    seq(|keys|, i requires 0 <= i < |keys| => keys[i].chars)
  }

  /** These names and data are the fields, each once, in strcmp order. */
  ghost predicate Lists(keys: seq<Str>, data: seq<int>, fields: Table) {
    && |keys| == |data| && Increasing(Texts(keys))
    && (forall i :: 0 <= i < |keys| ==> keys[i].chars in fields && fields[keys[i].chars] == data[i])
    && (forall name :: name in fields ==> name in Texts(keys))
  }

  /** Every one of these is the unique copy of its characters. */
  ghost predicate Unique(unique: CharTrie.Table, keys: seq<Str>) {
    forall i :: 0 <= i < |keys| ==> keys[i].chars in unique && unique[keys[i].chars] == keys[i]
  }

  class ExtensibleStruct {
    const m: Strings
    /** The strings that uniquestr keeps, which other structs may share. */
    const names: CharTrie.Interner
    const hash: RbTree
    /** The last data set for every field name. */
    ghost var fields: Table

    ghost predicate Valid()
      reads this, hash, hash.nodes, hash.root, names, names.root, names.root.repr
      ensures Valid() ==> hash.root in hash.nodes && names.Valid()
    {
      HoldsFields() && names.Valid() && Kept(names.root.table, fields)
    }

    /** The tree holds the fields. */
    ghost predicate HoldsFields()
      reads this, hash, hash.nodes, hash.root
      ensures HoldsFields() ==> hash.root in hash.nodes
    {
      && m.Valid() && hash.comp == m.Compare() && hash.Valid() && Strict(hash.comp, InOrder(hash.shape))
      && InOrderIn(hash.shape, hash.nodes) && Holds(m, InOrder(hash.shape), fields)
    }

    constructor (m: Strings, names: CharTrie.Interner)
      requires m.Valid() && names.Valid()
      ensures Valid() && fresh(hash) && fresh(hash.nodes) && fields == map[]
      ensures this.m == m && this.names == names
    {
      hide RbTree.Valid, InOrder, Comparator, Strings.Compare, CharTrie.Interner.Valid;
      CompareIsComparator(m);
      this.m, this.names := m, names;
      hash := new RbTree(m.Compare());
      fields := map[];
    }

    method SetField(name: Str, data: int)
      requires Valid()
      modifies this`fields, hash`nodes, hash`shape, hash.nodes
      modifies names`bytes, names`log, names.root, names.root.repr
      ensures Valid() && fields == old(fields)[name.chars := data]
      ensures fresh(hash.nodes - old(hash.nodes)) && fresh(names.root.repr - old(names.root.repr))
      ensures StillKept(old(names.root.table), names.root.table)
    {
      hide HoldsFields, CharTrie.Interner.Valid;
      var r := names.UniqueStr(name);
      Put(r.chars, data);
    }

    /** rb_tree_insert with the address of the unique copy of a name. */
    method Put(name: seq<Char>, data: int)
      requires HoldsFields()
      modifies this`fields, hash`nodes, hash`shape, hash.nodes
      ensures HoldsFields() && fields == old(fields)[name := data] && fresh(hash.nodes - old(hash.nodes))
    {
      hide RbTree.Valid, InOrder, Comparator, Strict, Holds, HoldsSeq, Inserted, Strings.Compare, Strings.Valid;
      ghost var s, infos := InOrder(hash.shape), Infos(InOrder(hash.shape));
      HoldsValues(m, s, fields);
      var node := hash.Insert(m.unique(name), data);
      fields := fields[name := data];
      Members(hash);
      FieldSet(m, s, infos, InOrder(hash.shape), old(fields), node, name, data);
    }

    /** The name asked for is kept from now on too. */
    method GetField(name: Str) returns (data: Option<int>)
      requires Valid()
      modifies names`bytes, names`log, names.root, names.root.repr
      ensures Valid() && fresh(names.root.repr - old(names.root.repr))
      ensures StillKept(old(names.root.table), names.root.table)
      ensures data == if name.chars in fields then Some(fields[name.chars]) else None
    {
      hide HoldsFields, CharTrie.Interner.Valid;
      var r := names.UniqueStr(name);
      data := Find(r.chars);
    }

    /** rb_tree_query with the address of the unique copy of a name. */
    method Find(name: seq<Char>) returns (data: Option<int>)
      requires HoldsFields()
      ensures data == if name in fields then Some(fields[name]) else None
    {
      hide RbTree.Valid, InOrder, Comparator, Strict, Strings.Compare;
      ghost var cmps;
      var n: Node?;
      assert Holds(m, InOrder(hash.shape), fields);
      n, cmps := hash.Query(m.unique(name));
      if n != null {
        SameName(m, n.key, name);
        data := Some(n.info);
      } else {
        Missing(m, InOrder(hash.shape), fields, name);
        data := None;
      }
    }

    /** All fields and their data, in strcmp order of their names; the names are the unique copies. */
    method GetAllData() returns (keys: seq<Str>, data: seq<int>)
      requires Valid()
      ensures |keys| == |data| == |fields| && Lists(keys, data, fields) && Unique(names.root.table, keys)
    {
      hide HoldsFields, CharTrie.Interner.Valid, Increasing;
      var places;
      places, data := WalkFields();
      keys := [];
      while |keys| < |places|
        invariant |keys| <= |places| && Unique(names.root.table, keys)
        invariant forall i :: 0 <= i < |keys| ==> keys[i].chars == m.text(places[i])
      {
        var key := At(places[|keys|]);
        keys := keys + [key];
      }
      assert Texts(keys) == Names(m, places);
    }

    /** The string at an address, which is that of a field's name. */
    method At(place: int) returns (key: Str)
      requires Valid() && m.text(place) in fields
      ensures key.chars == m.text(place) && m.text(place) in names.root.table
      ensures names.root.table[m.text(place)] == key
    {
      var p := names.root.LookupList(m.text(place));
      key := p;
    }

    /** rb_tree_walk with a callback that collects keys and data. */
    method WalkFields() returns (keys: seq<int>, data: seq<int>)
      requires HoldsFields()
      ensures |keys| == |data| == |fields|
      ensures Increasing(Names(m, keys))
      ensures forall i :: 0 <= i < |keys| ==> m.text(keys[i]) in fields && fields[m.text(keys[i])] == data[i]
      ensures forall name :: name in fields ==> name in Names(m, keys)
    {
      hide RbTree.Valid, InOrder, Comparator, Strict, Strings.Compare, Increasing;
      assert Holds(m, InOrder(hash.shape), fields);
      keys, data := hash.Walk();
      WalkNames(m, InOrder(hash.shape), fields);
    }
  }

  /** Two strings kept are at the same address exactly when they are the same pointer. */
  lemma SamePointer(m: Strings, names: CharTrie.Interner, a: seq<Char>, b: seq<Char>)
    requires m.Valid() && names.Valid() && a in names.root.table && b in names.root.table
    ensures m.unique(a) == m.unique(b) <==> names.root.table[a] == names.root.table[b]
  {
    assert m.text(m.unique(a)) == a && m.text(m.unique(b)) == b;
    assert names.root.table[a].chars == a && names.root.table[b].chars == b;
  }

  /** A struct does not mind what others put among the strings they share. */
  twostate lemma SharedNames(e: ExtensibleStruct)
    requires old(e.Valid()) && e.names.Valid() && StillKept(old(e.names.root.table), e.names.root.table)
    requires unchanged(e) && unchanged(e.hash) && unchanged(e.hash.nodes)
    ensures e.Valid()
  {
    hide ExtensibleStruct.HoldsFields, CharTrie.Interner.Valid;
  }

  lemma Members(hash: RbTree)
    requires hash.Valid()
    ensures InOrderIn(hash.shape, hash.nodes)
  {
    InOrderNodes(hash.shape);
  }

  lemma SameName(m: Strings, key: int, name: seq<Char>)
    requires m.Valid() && m.Compare()(key, m.unique(name)) == 0
    ensures m.text(key) == name
  {
    Equal(m.text(key), name);
  }

  /** `Holds`, with the data apart from the nodes. */
  ghost predicate HoldsSeq(m: Strings, s: seq<Node>, infos: seq<int>, table: Table) {
    && |infos| == |s|
    && (forall i :: 0 <= i < |s| ==> m.text(s[i].key) in table && table[m.text(s[i].key)] == infos[i])
    && (forall name :: name in table ==> HasName(m, s, name))
  }

  lemma HoldsValues(m: Strings, s: seq<Node>, table: Table)
    ensures Holds(m, s, table) <==> HoldsSeq(m, s, Infos(s), table)
  {
    if Holds(m, s, table) {
      forall i | 0 <= i < |s| ensures table[m.text(s[i].key)] == Infos(s)[i] {}
    }
    if HoldsSeq(m, s, Infos(s), table) {
      forall i | 0 <= i < |s| ensures table[m.text(s[i].key)] == s[i].info {
        assert Infos(s)[i] == s[i].info;
      }
    }
  }

  lemma OnlyOne(m: Strings, s: seq<Node>, node: Node, name: seq<Char>)
    requires Strict(m.Compare(), s) && node in s && m.text(node.key) == name
    ensures forall i :: 0 <= i < |s| && s[i] != node ==> m.text(s[i].key) != name
  {
    var k :| 0 <= k < |s| && s[k] == node;
    forall i | 0 <= i < |s| && s[i] != node
      ensures m.text(s[i].key) != name
    {
      Equal(name, name);
      assert if i < k then m.Compare()(s[i].key, s[k].key) < 0 else m.Compare()(s[k].key, s[i].key) < 0;
    }
  }

  /** After a node for `name` was updated or put in, the nodes hold the table with that field set. */
  lemma SetHolds(m: Strings, s: seq<Node>, infos: seq<int>, s': seq<Node>, table: Table, node: Node,
          name: seq<Char>, data: int)
    requires m.Valid() && HoldsSeq(m, s, infos, table) && m.text(node.key) == name && node.info == data && node in s'
    requires if node in s then s' == s else Inserted(m.Compare(), s, s', node)
    requires forall i :: 0 <= i < |s| && s[i] != node ==> s[i].info == infos[i]
    requires forall i :: 0 <= i < |s'| && s'[i] != node ==> m.text(s'[i].key) != name
    ensures Holds(m, s', table[name := data])
  {
    forall i | 0 <= i < |s'|
      ensures m.text(s'[i].key) in table[name := data] && table[name := data][m.text(s'[i].key)] == s'[i].info
    {
      if s'[i] != node {
        var j := Origin(m, s, s', node, i);
      }
    }
    forall x | x in table[name := data]
      ensures HasName(m, s', x)
    {
      if x == name {
        var i :| 0 <= i < |s'| && s'[i] == node;
      } else {
        var j :| 0 <= j < |s| && m.text(s[j].key) == x;
        var i := Image(m, s, s', node, j);
      }
    }
  }

  /** The same of a node whose key stands for `name`, in a tree without two equal keys. */
  lemma FieldSet(m: Strings, s: seq<Node>, infos: seq<int>, s': seq<Node>, table: Table, node: Node,
          name: seq<Char>, data: int)
    requires m.Valid() && HoldsSeq(m, s, infos, table) && node.info == data && node in s'
    requires Strict(m.Compare(), s') && m.Compare()(node.key, m.unique(name)) == 0
    requires if node in s then s' == s else Inserted(m.Compare(), s, s', node)
    requires forall i :: 0 <= i < |s| && s[i] != node ==> s[i].info == infos[i]
    ensures Holds(m, s', table[name := data])
  {
    hide Strict, Holds, HoldsSeq, Inserted;
    SameName(m, node.key, name);
    OnlyOne(m, s', node, name);
    SetHolds(m, s, infos, s', table, node, name, data);
  }

  lemma Origin(m: Strings, s: seq<Node>, s': seq<Node>, node: Node, i: nat) returns (j: nat)
    requires i < |s'| && s'[i] != node && (if node in s then s' == s else Inserted(m.Compare(), s, s', node))
    ensures j < |s| && s[j] == s'[i]
  {
    if node in s {
      j := i;
    } else {
      var k :| InsertedAt(m.Compare(), s, s', node, k);
      j := if i < k then i else i - 1;
    }
  }

  lemma Image(m: Strings, s: seq<Node>, s': seq<Node>, node: Node, j: nat) returns (i: nat)
    requires j < |s| && (if node in s then s' == s else Inserted(m.Compare(), s, s', node))
    ensures i < |s'| && s'[i] == s[j]
  {
    if node in s {
      i := j;
    } else {
      var k :| InsertedAt(m.Compare(), s, s', node, k);
      i := if j < k then j else j + 1;
    }
  }

  ghost function Names(m: Strings, keys: seq<int>): seq<seq<Char>> {
    seq(|keys|, i requires 0 <= i < |keys| => m.text(keys[i]))
  }

  lemma Missing(m: Strings, s: seq<Node>, table: Table, name: seq<Char>)
    requires m.Valid() && Holds(m, s, table) && forall i :: 0 <= i < |s| ==> m.Compare()(s[i].key, m.unique(name)) != 0
    ensures name !in table
  {
    if i :| 0 <= i < |s| && m.text(s[i].key) == name {
      Equal(name, name);
    }
  }

  lemma WalkNames(m: Strings, s: seq<Node>, table: Table)
    requires Holds(m, s, table) && Strict(m.Compare(), s)
    ensures Increasing(Names(m, Keys(s))) && |s| == |table|
    ensures forall name :: name in table ==> name in Names(m, Keys(s))
  {
    hide Less;
    var names := Names(m, Keys(s));
    forall i, j | 0 <= i < j < |names|
      ensures Less(names[i], names[j])
    {
      assert m.Compare()(s[i].key, s[j].key) < 0;
      LessIff(names[i], names[j]);
    }
    forall name | name in table
      ensures name in names
    {
      var i :| 0 <= i < |s| && m.text(s[i].key) == name;
      assert names[i] == name;
    }
    IncreasingCount(names, table.Keys);
  }

  lemma {:induction false} IncreasingCount(names: seq<seq<Char>>, keys: set<seq<Char>>)
    requires Increasing(names) && forall name :: name in keys <==> name in names
    ensures |names| == |keys|
  {
    hide Less;
    if |names| == 0 {
      assert keys == {};
    } else {
      var n := |names| - 1;
      Equal(names[n], names[n]);
      LessIff(names[n], names[n]);
      forall i | 0 <= i < n ensures names[i] != names[n] {}
      assert names == names[..n] + [names[n]];
      IncreasingCount(names[..n], keys - {names[n]});
    }
  }

  ghost predicate InOrderIn(t: Tree, ns: set<Node>) {
    forall n :: n in InOrder(t) ==> n in ns
  }

  // ---------- any sequence of calls ----------

  datatype Call = SetCall(name: Str, data: int) | GetCall(name: Str)

  /** The last data set for every name. */
  ghost function Meaning(calls: seq<Call>): Table {
    if |calls| == 0 then map[]
    else
      var n := |calls| - 1;
      var before := Meaning(calls[..n]);
      if calls[n].SetCall? then before[calls[n].name.chars := calls[n].data] else before
  }

  /** The answers so far are the last data set before each question, if any. */
  ghost predicate Answered(calls: seq<Call>, answers: seq<Option<int>>) {
    && |answers| <= |calls|
    && forall i :: 0 <= i < |answers| && calls[i].GetCall? ==>
      answers[i] == Asked(Meaning(calls[..i]), calls[i].name.chars)
  }

  ghost function Asked(fields: Table, name: seq<Char>): Option<int> {
    if name in fields then Some(fields[name]) else None
  }

  /** One call; the answer to a question is what it found. */
  method Perform(e: ExtensibleStruct, call: Call) returns (answer: Option<int>)
    requires e.Valid()
    modifies e`fields, e.hash`nodes, e.hash`shape, e.hash.nodes
    modifies e.names`bytes, e.names`log, e.names.root, e.names.root.repr
    ensures e.Valid() && fresh(e.hash.nodes - old(e.hash.nodes)) && fresh(e.names.root.repr - old(e.names.root.repr))
    ensures StillKept(old(e.names.root.table), e.names.root.table)
    ensures e.fields == if call.SetCall? then old(e.fields)[call.name.chars := call.data] else old(e.fields)
    ensures call.GetCall? ==> answer == Asked(e.fields, call.name.chars)
  {
    hide ExtensibleStruct.Valid, CharTrie.Interner.Valid, StillKept;
    answer := None;
    match call
    case SetCall(name, data) => e.SetField(name, data);
    case GetCall(name) => answer := e.GetField(name);
  }

  lemma MeaningStep(calls: seq<Call>, n: nat)
    requires n < |calls|
    ensures Meaning(calls[..n + 1]) == var before := Meaning(calls[..n]);
      if calls[n].SetCall? then before[calls[n].name.chars := calls[n].data] else before
  {
    assert calls[..n + 1][..n] == calls[..n];
  }

  lemma OneMore(calls: seq<Call>, answers: seq<Option<int>>, answer: Option<int>)
    requires Answered(calls, answers) && |answers| < |calls|
    requires var call := calls[|answers|];
      call.GetCall? ==> answer == Asked(Meaning(calls[..|answers|]), call.name.chars)
    ensures Answered(calls, answers + [answer])
  {
    hide Meaning, Asked;
  }

  /** The next call of a session. */
  method Continue(e: ExtensibleStruct, calls: seq<Call>, answers: seq<Option<int>>) returns (answers': seq<Option<int>>)
    requires |answers| < |calls| && e.Valid() && e.fields == Meaning(calls[..|answers|]) && Answered(calls, answers)
    modifies e`fields, e.hash`nodes, e.hash`shape, e.hash.nodes
    modifies e.names`bytes, e.names`log, e.names.root, e.names.root.repr
    ensures e.Valid() && fresh(e.hash.nodes - old(e.hash.nodes)) && fresh(e.names.root.repr - old(e.names.root.repr))
    ensures StillKept(old(e.names.root.table), e.names.root.table) && |answers'| == |answers| + 1
    ensures e.fields == Meaning(calls[..|answers'|]) && Answered(calls, answers')
  {
    hide ExtensibleStruct.Valid, Meaning, StillKept, Answered, Asked;
    MeaningStep(calls, |answers|);
    var answer := Perform(e, calls[|answers|]);
    answers' := answers + [answer];
    OneMore(calls, answers, answer);
  }

  /**
    Over any sequence of calls on a new struct, every question is answered with the last
    data set for the name, and the listing at the end has exactly the last data set, each
    name once, in strcmp order, as the pointers that uniquestr keeps.
   */
  method Session(m: Strings, names: CharTrie.Interner, calls: seq<Call>)
      returns (answers: seq<Option<int>>, keys: seq<Str>, data: seq<int>)
    requires m.Valid() && names.Valid()
    modifies names`bytes, names`log, names.root, names.root.repr
    ensures names.Valid() && fresh(names.root.repr - old(names.root.repr))
    ensures StillKept(old(names.root.table), names.root.table)
    ensures |answers| == |calls| && Answered(calls, answers)
    ensures |keys| == |Meaning(calls)| && Lists(keys, data, Meaning(calls)) && Unique(names.root.table, keys)
  {
    hide ExtensibleStruct.Valid, CharTrie.Interner.Valid, Meaning, Lists, Unique, StillKept, Answered;
    var e := new ExtensibleStruct(m, names);
    answers := [];
    AtFirst(calls, names.root.table);
    while |answers| < |calls|
      invariant fresh(e) && fresh(e.hash) && fresh(e.hash.nodes) && e.names == names && e.Valid()
      invariant fresh(names.root.repr - old(names.root.repr)) && StillKept(old(names.root.table), names.root.table)
      invariant |answers| <= |calls| && e.fields == Meaning(calls[..|answers|]) && Answered(calls, answers)
    {
      ghost var kept := names.root.table;
      answers := Continue(e, calls, answers);
      KeptOn(old(names.root.table), kept, names.root.table);
    }
    assert calls[..|calls|] == calls;
    keys, data := e.GetAllData();
  }

  lemma AtFirst(calls: seq<Call>, kept: CharTrie.Table)
    ensures Meaning(calls[..0]) == map[] && Answered(calls, []) && StillKept(kept, kept)
  {
  }
}
