/**
  The red-black tree as a finite map. Keys that compare equal are one key; the map is read
  off the in-order sequence, and every operation of the tree is an operation of the map.
 */
module RbMap {
  import opened Options
  import opened RbShape
  import opened RbDelete
  import opened RedBlackTree
  import opened Sequences

  ghost predicate HasKey(comp: (int, int) -> int, s: seq<Node>, q: int) {
    exists i :: 0 <= i < |s| && comp(s[i].key, q) == 0
  }

  /** What the map holds for key q, when `infos` are the data of the nodes. */
  ghost function Lookup(comp: (int, int) -> int, s: seq<Node>, infos: seq<int>, q: int): Option<int>
    requires |infos| == |s|
  {
    if HasKey(comp, s, q) then
      var i :| 0 <= i < |s| && comp(s[i].key, q) == 0;
      Some(infos[i])
    else None
  }

  lemma EqualKeys(comp: (int, int) -> int, a: int, b: int, q: int)
    requires Comparator(comp) && comp(a, q) == 0
    ensures comp(b, q) == 0 <==> comp(a, b) == 0
    ensures comp(a, b) < 0 ==> comp(b, q) != 0
  {
    assert comp(q, a) == 0;
    if comp(b, q) == 0 {
      assert comp(q, b) == 0;
      assert comp(a, b) <= 0 && comp(b, a) <= 0;
    }
    if comp(a, b) == 0 {
      assert comp(b, a) == 0;
      assert comp(b, q) <= 0 && comp(q, b) <= 0;
    }
  }

  /** Two nodes at different places have different keys, and so are different. */
  lemma Apart(comp: (int, int) -> int, s: seq<Node>, i: nat, j: nat, q: int)
    requires Comparator(comp) && Strict(comp, s) && i < |s| && j < |s| && i != j
    ensures s[i] != s[j] && (comp(s[i].key, q) == 0 ==> comp(s[j].key, q) != 0)
  {
    var a, b := s[i].key, s[j].key;
    assert if i < j then comp(a, b) < 0 else comp(b, a) < 0;
    hide Strict;
    if comp(a, q) == 0 { EqualKeys(comp, a, b, q); }
    assert comp(a, a) == 0;
    if comp(b, q) == 0 { EqualKeys(comp, b, a, q); }
  }

  /** At most one node has a given key, so the lookup finds that one. */
  lemma LookupAt(comp: (int, int) -> int, s: seq<Node>, infos: seq<int>, q: int, i: nat)
    requires Comparator(comp) && Strict(comp, s) && |infos| == |s| && i < |s| && comp(s[i].key, q) == 0
    ensures Lookup(comp, s, infos, q) == Some(infos[i])
  {
    hide Comparator, Strict;
    assert HasKey(comp, s, q);
    forall j | 0 <= j < |s| && j != i
      ensures comp(s[j].key, q) != 0
    {
      Apart(comp, s, i, j, q);
    }
  }

  lemma InfoOf(s: seq<Node>, i: nat)
    requires i < |s|
    ensures |Infos(s)| == |s| && Infos(s)[i] == s[i].info
  {
  }

  /** rb_tree_query answers with the map. */
  lemma QueryIsLookup(comp: (int, int) -> int, s: seq<Node>, q: int, x: Node?)
    requires Comparator(comp) && Strict(comp, s)
    requires x == null ==> forall i :: 0 <= i < |s| ==> comp(s[i].key, q) != 0
    requires x != null ==> x in s && comp(x.key, q) == 0
    ensures Lookup(comp, s, Infos(s), q) == if x == null then None else Some(x.info)
  {
    if x != null {
      var i :| 0 <= i < |s| && s[i] == x;
      LookupAt(comp, s, Infos(s), q, i);
      InfoOf(s, i);
    }
  }

  /** Each node of s' other than z is a node of s with the same data, and the other way round. */
  ghost predicate OthersKept(s: seq<Node>, infos: seq<int>, s': seq<Node>, infos': seq<int>, z: Node)
    requires |infos| == |s| && |infos'| == |s'|
  {
    && (forall i :: 0 <= i < |s'| && s'[i] != z ==> exists j :: 0 <= j < |s| && s[j] == s'[i] && infos[j] == infos'[i])
    && (forall j :: 0 <= j < |s| && s[j] != z ==> exists i :: 0 <= i < |s'| && s'[i] == s[j] && infos'[i] == infos[j])
  }

  /** For a key other than that of z, the lookup stays the same. */
  lemma OtherKey(comp: (int, int) -> int, s: seq<Node>, infos: seq<int>, s': seq<Node>, infos': seq<int>,
          z: Node, q: int)
    requires Comparator(comp) && Strict(comp, s) && Strict(comp, s') && |infos| == |s| && |infos'| == |s'|
    requires OthersKept(s, infos, s', infos', z) && comp(z.key, q) != 0
    ensures Lookup(comp, s', infos', q) == Lookup(comp, s, infos, q)
  {
    hide Comparator, Strict;
    if HasKey(comp, s, q) {
      var j :| 0 <= j < |s| && comp(s[j].key, q) == 0;
      var i :| 0 <= i < |s'| && s'[i] == s[j] && infos'[i] == infos[j];
      LookupAt(comp, s, infos, q, j);
      LookupAt(comp, s', infos', q, i);
    } else {
      forall i | 0 <= i < |s'|
        ensures comp(s'[i].key, q) != 0
      {
        if s'[i] != z {
          var j :| 0 <= j < |s| && s[j] == s'[i] && infos[j] == infos'[i];
        }
      }
    }
  }

  /** rb_tree_insert sets the data of one key and leaves every other key alone. */
  lemma InsertIsUpdate(comp: (int, int) -> int, s: seq<Node>, infos: seq<int>, s': seq<Node>, z: Node, key: int,
          info: int, q: int)
    requires Comparator(comp) && Strict(comp, s) && Strict(comp, s') && |infos| == |s|
    requires z in s' && z.info == info && comp(z.key, key) == 0
    requires if z in s then s' == s else z.key == key && Inserted(comp, s, s', z)
    requires forall i :: 0 <= i < |s| && s[i] != z ==> s[i].info == infos[i]
    ensures Lookup(comp, s', Infos(s'), q) == if comp(key, q) == 0 then Some(info) else Lookup(comp, s, infos, q)
  {
    hide Strict, Infos, OthersKept;
    assert comp(key, z.key) == 0;
    assert comp(key, q) == 0 <==> comp(z.key, q) == 0 by {
      if comp(key, q) == 0 { EqualKeys(comp, key, z.key, q); }
      if comp(z.key, q) == 0 { EqualKeys(comp, z.key, key, q); }
    }
    if comp(z.key, q) == 0 {
      var i :| 0 <= i < |s'| && s'[i] == z;
      LookupAt(comp, s', Infos(s'), q, i);
      InfoOf(s', i);
    } else {
      InsertKeeps(comp, s, infos, s', z);
      OtherKey(comp, s, infos, s', Infos(s'), z, q);
    }
  }

  lemma InsertKeeps(comp: (int, int) -> int, s: seq<Node>, infos: seq<int>, s': seq<Node>, z: Node)
    requires |infos| == |s| && if z in s then s' == s else Inserted(comp, s, s', z)
    requires forall i :: 0 <= i < |s| && s[i] != z ==> s[i].info == infos[i]
    ensures OthersKept(s, infos, s', Infos(s'), z)
  {
    var k: int := |s|;
    if z !in s {
      k :| InsertedAt(comp, s, s', z, k);
    }
    forall i | 0 <= i < |s'| && s'[i] != z
      ensures exists j :: 0 <= j < |s| && s[j] == s'[i] && infos[j] == Infos(s')[i]
    {
      var j := if i < k then i else i - 1;
      assert s[j] == s'[i] && infos[j] == Infos(s')[i];
    }
    forall j | 0 <= j < |s| && s[j] != z
      ensures exists i :: 0 <= i < |s'| && s'[i] == s[j] && Infos(s')[i] == infos[j]
    {
      var i := if j < k then j else j + 1;
      assert s'[i] == s[j] && Infos(s')[i] == infos[j];
    }
  }

  lemma StillStrict(comp: (int, int) -> int, s: seq<Node>, k: nat)
    requires Strict(comp, s) && k < |s|
    ensures Strict(comp, Without(s, k))
  {
    var s' := Without(s, k);
    forall i | 0 <= i < |s'|
      ensures s'[i] == s[if i < k then i else i + 1]
    {
    }
  }

  /** rb_tree_delete removes the key of one node and leaves every other key alone. */
  lemma DeleteIsRemoval(comp: (int, int) -> int, s: seq<Node>, infos: seq<int>, s': seq<Node>, z: Node, q: int)
    requires Comparator(comp) && Strict(comp, s) && |infos| == |s| && Removed(s, s', z)
    requires forall i :: 0 <= i < |s| && s[i] != z ==> s[i].info == infos[i]
    ensures Strict(comp, s')
    ensures Lookup(comp, s', Infos(s'), q) == if comp(z.key, q) == 0 then None else Lookup(comp, s, infos, q)
  {
    hide Comparator, Strict, Infos, OthersKept;
    var k :| RemovedAt(s, s', z, k);
    StillStrict(comp, s, k);
    forall i | 0 <= i < |s'|
      ensures s'[i] != z && (comp(z.key, q) == 0 ==> comp(s'[i].key, q) != 0)
    {
      var j := if i < k then i else i + 1;
      assert s'[i] == s[j];
      Apart(comp, s, k, j, q);
    }
    if comp(z.key, q) != 0 {
      DeleteKeeps(s, infos, s', z, k);
      OtherKey(comp, s, infos, s', Infos(s'), z, q);
    }
  }

  lemma DeleteKeeps(s: seq<Node>, infos: seq<int>, s': seq<Node>, z: Node, k: int)
    requires |infos| == |s| && RemovedAt(s, s', z, k) && forall i :: 0 <= i < |s| && s[i] != z ==> s[i].info == infos[i]
    requires z !in s'
    ensures OthersKept(s, infos, s', Infos(s'), z)
  {
    forall i | 0 <= i < |s'| && s'[i] != z
      ensures exists j :: 0 <= j < |s| && s[j] == s'[i] && infos[j] == Infos(s')[i]
    {
      var j := if i < k then i else i + 1;
      assert s[j] == s'[i] && infos[j] == Infos(s')[i];
    }
    forall j | 0 <= j < |s| && s[j] != z
      ensures exists i :: 0 <= i < |s'| && s'[i] == s[j] && Infos(s')[i] == infos[j]
    {
      var i := if j < k then j else j - 1;
      assert s'[i] == s[j] && Infos(s')[i] == infos[j];
    }
  }

  // ---------- the operations of the tree on the map ----------

  ghost predicate IsMap(t: RbTree)
    reads t, t.nodes, t.root
  {
    t.Valid() && Strict(t.comp, InOrder(t.shape)) && Members(t)
  }

  /** The nodes in order are nodes of the tree, and not its sentinels. */
  ghost predicate Members(t: RbTree)
    reads t
  {
    forall n :: n in InOrder(t.shape) ==> n in t.nodes && n != t.root && n != t.nil
  }

  lemma ValidMembers(t: RbTree)
    requires t.Valid()
    ensures Members(t)
  {
    InOrderNodes(t.shape);
  }

  /** What the map holds for key q. */
  ghost function Get(t: RbTree, q: int): Option<int>
    requires IsMap(t)
    reads t, t.nodes, t.root
  {
    Lookup(t.comp, InOrder(t.shape), Infos(InOrder(t.shape)), q)
  }

  method Query(t: RbTree, q: int) returns (r: Option<int>)
    requires IsMap(t)
    ensures r == Get(t, q)
  {
    hide RbTree.Valid, InOrder, Comparator, Strict, Infos, Lookup;
    TreeComparator(t);
    var x, cmps := t.Query(q);
    QueryIsLookup(t.comp, InOrder(t.shape), q, x);
    r := if x == null then None else Some(x.info);
  }

  method Insert(t: RbTree, key: int, info: int)
    requires IsMap(t)
    modifies t`nodes, t`shape, t.nodes
    ensures IsMap(t) && fresh(t.nodes - old(t.nodes))
    ensures forall q :: Get(t, q) == if t.comp(key, q) == 0 then Some(info) else old(Get(t, q))
  {
    hide RbTree.Valid, InOrder, Comparator, Strict, Infos, Lookup, Inserted;
    TreeComparator(t);
    ghost var s, infos := InOrder(t.shape), Infos(InOrder(t.shape));
    InfosAre(s);
    var z := t.Insert(key, info);
    ValidMembers(t);
    forall q
      ensures Get(t, q) == if t.comp(key, q) == 0 then Some(info) else old(Get(t, q))
    {
      InsertIsUpdate(t.comp, s, infos, InOrder(t.shape), z, key, info, q);
    }
  }

  /** rb_tree_query and, when there is a node, rb_tree_delete. */
  method Delete(t: RbTree, key: int)
    requires IsMap(t)
    modifies t`nodes, t`shape, t.nodes
    ensures IsMap(t) && t.nodes <= old(t.nodes)
    ensures forall q :: Get(t, q) == if t.comp(key, q) == 0 then None else old(Get(t, q))
  {
    hide RbTree.Valid, InOrder, Comparator, Strict, Infos, Lookup, Removed;
    TreeComparator(t);
    ghost var s, infos := InOrder(t.shape), Infos(InOrder(t.shape));
    InfosAre(s);
    var z, cmps := t.Query(key);
    if z != null {
      t.Delete(z);
      ValidMembers(t);
      DeleteIsRemoval(t.comp, s, infos, InOrder(t.shape), z, key);
      forall q
        ensures Get(t, q) == if t.comp(key, q) == 0 then None else old(Get(t, q))
      {
        DeleteIsRemoval(t.comp, s, infos, InOrder(t.shape), z, q);
        SameKey(t.comp, z.key, key, q);
      }
    } else {
      forall q | t.comp(key, q) == 0
        ensures Get(t, q) == None
      {
        NoKey(t.comp, s, infos, key, q);
      }
    }
  }

  /** rb_tree_walk lists the map in strictly increasing key order. */
  method Walk(t: RbTree) returns (keys: seq<int>, data: seq<int>)
    requires IsMap(t)
    ensures |keys| == |data| && Increasing(t.comp, keys)
    ensures forall i :: 0 <= i < |keys| ==> Get(t, keys[i]) == Some(data[i])
    ensures forall q :: Get(t, q) != None ==> HasEqual(t.comp, keys, q)
  {
    hide RbTree.Valid, InOrder, Comparator;
    TreeComparator(t);
    keys, data := t.Walk();
    ghost var s := InOrder(t.shape);
    forall i | 0 <= i < |keys|
      ensures Get(t, keys[i]) == Some(data[i])
    {
      SelfEqual(t.comp, keys[i]);
      LookupAt(t.comp, s, Infos(s), keys[i], i);
    }
    forall q | Get(t, q) != None
      ensures HasEqual(t.comp, keys, q)
    {
      var i :| 0 <= i < |s| && t.comp(s[i].key, q) == 0;
      assert keys[i] == s[i].key;
    }
  }

  ghost predicate Increasing(comp: (int, int) -> int, keys: seq<int>) {
    forall i, j :: 0 <= i < j < |keys| ==> comp(keys[i], keys[j]) < 0
  }

  ghost predicate HasEqual(comp: (int, int) -> int, keys: seq<int>, q: int) {
    exists i :: 0 <= i < |keys| && comp(keys[i], q) == 0
  }

  lemma TreeComparator(t: RbTree)
    requires t.Valid()
    ensures Comparator(t.comp)
  {
  }

  lemma SelfEqual(comp: (int, int) -> int, a: int)
    requires Comparator(comp)
    ensures comp(a, a) == 0
  {
  }

  lemma InfosAre(s: seq<Node>)
    ensures |Infos(s)| == |s| && forall i :: 0 <= i < |s| ==> Infos(s)[i] == s[i].info
  {
  }

  lemma SameKey(comp: (int, int) -> int, a: int, b: int, q: int)
    requires Comparator(comp) && comp(a, b) == 0
    ensures comp(a, q) == 0 <==> comp(b, q) == 0
  {
    assert comp(b, a) == 0;
    if comp(a, q) == 0 { EqualKeys(comp, a, b, q); }
    if comp(b, q) == 0 { EqualKeys(comp, b, a, q); }
  }

  lemma NoKey(comp: (int, int) -> int, s: seq<Node>, infos: seq<int>, key: int, q: int)
    requires Comparator(comp) && |infos| == |s| && comp(key, q) == 0
    requires forall i :: 0 <= i < |s| ==> comp(s[i].key, key) != 0
    ensures Lookup(comp, s, infos, q) == None
  {
    hide Comparator;
    forall i | 0 <= i < |s|
      ensures comp(s[i].key, q) != 0
    {
      SameKey(comp, key, q, s[i].key);
      Turned(comp, q, s[i].key);
      Turned(comp, key, s[i].key);
    }
  }

  lemma Turned(comp: (int, int) -> int, a: int, b: int)
    requires Comparator(comp)
    ensures comp(a, b) == 0 <==> comp(b, a) == 0
  {
  }

  // ---------- any sequence of calls ----------

  datatype Call = QueryCall(key: int) | InsertCall(key: int, info: int) | DeleteCall(key: int)

  /** What a finite map holds for key q after a call, when it held `before`. */
  ghost function Effect(comp: (int, int) -> int, call: Call, q: int, before: Option<int>): Option<int> {
    if comp(call.key, q) != 0 || call.QueryCall? then before
    else if call.InsertCall? then Some(call.info)
    else None
  }

  /** What a finite map, empty at first, holds for key q after these calls. */
  ghost function Meaning(comp: (int, int) -> int, calls: seq<Call>, q: int): Option<int> {
    if |calls| == 0 then None
    else Effect(comp, calls[|calls| - 1], q, Meaning(comp, calls[..|calls| - 1], q))
  }

  /** One call; the answer of a query is what it found. */
  method Perform(t: RbTree, call: Call) returns (answer: Option<int>)
    requires IsMap(t)
    modifies t`nodes, t`shape, t.nodes
    ensures IsMap(t) && fresh(t.nodes - old(t.nodes))
    ensures forall q :: Get(t, q) == Effect(t.comp, call, q, old(Get(t, q)))
    ensures answer == if call.QueryCall? then old(Get(t, call.key)) else None
  {
    hide IsMap, Get;
    answer := None;
    match call
    case QueryCall(key) => answer := Query(t, key);
    case InsertCall(key, info) => Insert(t, key, info);
    case DeleteCall(key) => Delete(t, key);
  }

  /** The tree holds what the map holds after these calls. */
  ghost predicate Agrees(t: RbTree, calls: seq<Call>)
    reads t, t.nodes, t.root
  {
    IsMap(t) && forall q :: Get(t, q) == Meaning(t.comp, calls, q)
  }

  /** The answers so far are what the map held at the time of each query. */
  ghost predicate Answered(comp: (int, int) -> int, calls: seq<Call>, answers: seq<Option<int>>) {
    && |answers| <= |calls|
    && forall i :: 0 <= i < |answers| && calls[i].QueryCall? ==> answers[i] == Meaning(comp, calls[..i], calls[i].key)
  }

  lemma MeaningStep(comp: (int, int) -> int, calls: seq<Call>, n: nat, q: int)
    requires n < |calls|
    ensures Meaning(comp, calls[..n + 1], q) == Effect(comp, calls[n], q, Meaning(comp, calls[..n], q))
  {
    assert calls[..n + 1][..n] == calls[..n];
  }

  /** The next call of a session. */
  method Continue(t: RbTree, calls: seq<Call>, answers: seq<Option<int>>) returns (answers': seq<Option<int>>)
    requires |answers| < |calls| && Agrees(t, calls[..|answers|]) && Answered(t.comp, calls, answers)
    modifies t`nodes, t`shape, t.nodes
    ensures |answers'| == |answers| + 1 && fresh(t.nodes - old(t.nodes))
    ensures Agrees(t, calls[..|answers'|]) && Answered(t.comp, calls, answers')
  {
    hide IsMap, Get, Meaning, Effect;
    var n := |answers|;
    var answer := Perform(t, calls[n]);
    answers' := answers + [answer];
    forall q
      ensures Get(t, q) == Meaning(t.comp, calls[..n + 1], q)
    {
      MeaningStep(t.comp, calls, n, q);
    }
  }

  /**
    Over any sequence of calls on a new tree, every query answers what the finite map
    holds at that time, and a final walk lists the map in strictly increasing key order.
   */
  method Session(comp: (int, int) -> int, calls: seq<Call>)
      returns (answers: seq<Option<int>>, keys: seq<int>, data: seq<int>)
    requires Comparator(comp)
    ensures |answers| == |calls| && Answered(comp, calls, answers)
    ensures |keys| == |data| && forall i, j :: 0 <= i < j < |keys| ==> comp(keys[i], keys[j]) < 0
    ensures forall i :: 0 <= i < |keys| ==> Meaning(comp, calls, keys[i]) == Some(data[i])
    ensures forall q :: Meaning(comp, calls, q) != None ==> HasEqual(comp, keys, q)
  {
    hide RbTree.Valid, Comparator, Agrees, Answered, InOrder, HasEqual;
    var t := new RbTree(comp);
    answers := [];
    NewMap(t, calls);
    while |answers| < |calls|
      invariant fresh(t) && fresh(t.nodes) && t.comp == comp && |answers| <= |calls|
      invariant Agrees(t, calls[..|answers|]) && Answered(comp, calls, answers)
    {
      answers := Continue(t, calls, answers);
    }
    assert calls[..|calls|] == calls;
    keys, data := FinalWalk(t, calls);
  }

  /** The walk lists what the calls mean. */
  method FinalWalk(t: RbTree, calls: seq<Call>) returns (keys: seq<int>, data: seq<int>)
    requires Agrees(t, calls)
    ensures |keys| == |data| && Increasing(t.comp, keys)
    ensures forall i :: 0 <= i < |keys| ==> Meaning(t.comp, calls, keys[i]) == Some(data[i])
    ensures forall q :: Meaning(t.comp, calls, q) != None ==> HasEqual(t.comp, keys, q)
  {
    hide IsMap, Get, Meaning, Increasing, HasEqual;
    keys, data := Walk(t);
    assert forall q :: Get(t, q) == Meaning(t.comp, calls, q);
  }

  lemma NewMap(t: RbTree, calls: seq<Call>)
    requires t.Valid() && InOrder(t.shape) == []
    ensures Agrees(t, calls[..0]) && Answered(t.comp, calls, [])
  {
  }
}
