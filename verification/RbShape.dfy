/**
  The vocabulary of the red-black tree proofs (lib/red_black_tree.c).

  A tree is a graph of mutable nodes with left, right and parent pointers and two
  sentinels. The proofs look at it through three values:
    - a `Heap`, a snapshot of the link and colour fields of a set of nodes;
    - a `Tree`, the shape the pointers are meant to spell out;
    - a `Ctx`, the shape around a hole, for code that works in the middle of a tree.
  `At` says that a snapshot spells out a given tree inside a given context.
  Everything that exists in a left and a right version is stated once, for a `Side`.
 */
module RbShape {

  class Node {
    const key: int
    var info: int
    var red: bool
    var left: Node
    var right: Node
    var parent: Node

    /** A node whose links all point to itself, as rb_tree_create builds nil. */
    constructor Loop()
      ensures left == right == parent == this && !red
    {
      key, info, red := 0, 0, false;
      left, right, parent := this, this, this;
    }

    constructor (key: int, info: int, link: Node)
      ensures this.key == key && this.info == info
      ensures left == right == parent == link && !red
    {
      this.key, this.info, red := key, info, false;
      left, right, parent := link, link, link;
    }
  }

  datatype Side = L | R {
    function Opp(): Side { if L? then R else L }
  }

  datatype Cell = Cell(left: Node, right: Node, parent: Node, red: bool) {
    function Child(d: Side): Node { if d.L? then left else right }
    function WithChild(d: Side, n: Node): Cell { if d.L? then this.(left := n) else this.(right := n) }
  }

  type Heap = map<Node, Cell>

  ghost function Snap(s: set<Node>): Heap
    reads s
  {
    map n | n in s :: Cell(n.left, n.right, n.parent, n.red)
  }

  datatype Tree = Nil | T(l: Tree, n: Node, red: bool, r: Tree)

  /** The node `n` with `near` on side `d` and `far` on the other side. */
  ghost function Mk(d: Side, near: Tree, n: Node, red: bool, far: Tree): Tree {
    if d.L? then T(near, n, red, far) else T(far, n, red, near)
  }

  /** A context: the hole is the child on side `d` of node `n`, whose other child is `sib`. */
  datatype Ctx = Top | Step(up: Ctx, d: Side, n: Node, red: bool, sib: Tree)

  ghost function Plug(c: Ctx, t: Tree): Tree {
    match c
    case Top => t
    case Step(up, d, n, red, sib) => Plug(up, Mk(d, t, n, red, sib))
  }

  ghost function Depth(c: Ctx): nat {
    match c case Top => 0 case Step(up, _, _, _, _) => 1 + Depth(up)
  }

  // ---------- nodes and in-order sequences ----------

  ghost function Nodes(t: Tree): set<Node> {
    match t case Nil => {} case T(l, n, _, r) => Nodes(l) + {n} + Nodes(r)
  }

  ghost function CtxNodes(c: Ctx): set<Node> {
    match c case Top => {} case Step(up, _, n, _, sib) => CtxNodes(up) + {n} + Nodes(sib)
  }

  ghost predicate Distinct(t: Tree) {
    t.T? ==> t.n !in Nodes(t.l) && t.n !in Nodes(t.r) && Nodes(t.l) !! Nodes(t.r) && Distinct(t.l) && Distinct(t.r)
  }

  ghost predicate CtxDistinct(c: Ctx) {
    c.Step? ==>
      && c.n !in Nodes(c.sib) && c.n !in CtxNodes(c.up) && Nodes(c.sib) !! CtxNodes(c.up)
      && Distinct(c.sib) && CtxDistinct(c.up)
  }

  ghost function InOrder(t: Tree): seq<Node> {
    match t case Nil => [] case T(l, n, _, r) => InOrder(l) + [n] + InOrder(r)
  }

  ghost function Before(c: Ctx): seq<Node> {
    match c
    case Top => []
    case Step(up, d, n, _, sib) => if d.L? then Before(up) else Before(up) + InOrder(sib) + [n]
  }

  ghost function After(c: Ctx): seq<Node> {
    match c
    case Top => []
    case Step(up, d, n, _, sib) => if d.L? then [n] + InOrder(sib) + After(up) else After(up)
  }

  lemma SeqRotate<X>(a: seq<X>, x: X, b: seq<X>, y: X, e: seq<X>)
    ensures (a + [x] + b) + [y] + e == a + [x] + (b + [y] + e)
  {
  }

  lemma SeqHole<X>(a: seq<X>, b: seq<X>, x: X, c: seq<X>, e: seq<X>)
    ensures a + (b + [x] + c) + e == a + b + ([x] + c + e)
    ensures a + (b + [x] + c) + e == a + b + [x] + c + e
  {
  }

  /** Plugging concatenates in-order sequences. */
  lemma {:induction false} PlugInOrder(c: Ctx, t: Tree)
    ensures InOrder(Plug(c, t)) == Before(c) + InOrder(t) + After(c)
    decreases c
  {
    match c
    case Top =>
    case Step(up, d, n, red, sib) =>
      PlugInOrder(up, Mk(d, t, n, red, sib));
      if d.L? {
        SeqHole(Before(up), InOrder(t), n, InOrder(sib), After(up));
      } else {
        SeqHole(Before(up), InOrder(sib), n, InOrder(t), After(up));
      }
  }

  /** Plugging adds up nodes. */
  lemma {:induction false} PlugNodes(c: Ctx, t: Tree)
    ensures Nodes(Plug(c, t)) == Nodes(t) + CtxNodes(c)
    decreases c
  {
    if c.Step? {
      PlugNodes(c.up, Mk(c.d, t, c.n, c.red, c.sib));
    }
  }

  lemma {:induction false} InOrderNodes(t: Tree)
    ensures forall n: Node :: n in InOrder(t) <==> n in Nodes(t)
    ensures forall i :: 0 <= i < |InOrder(t)| ==> InOrder(t)[i] in Nodes(t)
  {
    if t.T? {
      InOrderNodes(t.l);
      InOrderNodes(t.r);
    }
  }

  lemma {:induction false} CtxInOrderNodes(c: Ctx)
    ensures forall n: Node :: n in Before(c) + After(c) <==> n in CtxNodes(c)
  {
    if c.Step? {
      CtxInOrderNodes(c.up);
      InOrderNodes(c.sib);
    }
  }

  // ---------- the pointers spell out the shape ----------

  /** The pointer `x`, whose node has parent `p`, is the root of `t`. */
  ghost predicate Rep(h: Heap, nil: Node, t: Tree, x: Node, p: Node) {
    match t
    case Nil => x == nil
    case T(l, n, red, r) =>
      && x == n && n != nil && n in h && h[n].parent == p && h[n].red == red
      && Rep(h, nil, l, h[n].left, n) && Rep(h, nil, r, h[n].right, n)
  }

  /** The pointer in the hole of `c` is `x`, and the node it hangs from is `p`. */
  ghost predicate RepCtx(h: Heap, root: Node, nil: Node, c: Ctx, x: Node, p: Node) {
    match c
    case Top => p == root && root in h && h[root].left == x && h[root].right == nil && !h[root].red
    case Step(up, d, n, red, sib) =>
      && p == n && n != nil && n != root && n in h && h[n].red == red && h[n].Child(d) == x
      && Rep(h, nil, sib, h[n].Child(d.Opp()), n)
      && RepCtx(h, root, nil, up, n, h[n].parent)
  }

  ghost predicate Separate(root: Node, nil: Node, c: Ctx, t: Tree) {
    && Distinct(t) && CtxDistinct(c) && Nodes(t) !! CtxNodes(c)
    && nil !in Nodes(t) && nil !in CtxNodes(c) && root !in Nodes(t) && root !in CtxNodes(c) && root != nil
  }

  ghost predicate At(h: Heap, root: Node, nil: Node, c: Ctx, t: Tree, x: Node, p: Node) {
    && RepCtx(h, root, nil, c, x, p) && Rep(h, nil, t, x, p)
    && Separate(root, nil, c, t)
    && nil in h && !h[nil].red
  }

  /** `At`, for a snapshot of exactly the nodes of the tree and its two sentinels. */
  ghost predicate Focused(ns: set<Node>, h: Heap, root: Node, nil: Node, c: Ctx, t: Tree, x: Node, p: Node) {
    ns == Nodes(t) + CtxNodes(c) + {root, nil} && At(h, root, nil, c, t, x, p)
  }

  /** The two heaps agree on `s`. */
  ghost predicate Same(h: Heap, h': Heap, s: set<Node>) {
    forall n :: n in s && n in h ==> n in h' && h'[n] == h[n]
  }

  lemma {:induction false} RepFrame(h: Heap, h': Heap, nil: Node, t: Tree, x: Node, p: Node)
    requires Rep(h, nil, t, x, p) && Same(h, h', Nodes(t))
    ensures Rep(h', nil, t, x, p)
    decreases t
  {
    match t
    case Nil =>
    case T(l, n, red, r) =>
      RepFrame(h, h', nil, l, h[n].left, n);
      RepFrame(h, h', nil, r, h[n].right, n);
  }

  lemma {:induction false} CtxFrame(h: Heap, h': Heap, root: Node, nil: Node, c: Ctx, x: Node, p: Node)
    requires RepCtx(h, root, nil, c, x, p) && Same(h, h', CtxNodes(c) + {root})
    ensures RepCtx(h', root, nil, c, x, p)
    decreases c
  {
    match c
    case Top =>
    case Step(up, d, n, red, sib) =>
      RepFrame(h, h', nil, sib, h[n].Child(d.Opp()), n);
      CtxFrame(h, h', root, nil, up, n, h[n].parent);
  }

  /** Which child pointer of `p` the hole is. */
  ghost function HoleSide(c: Ctx): Side { if c.Top? then L else c.d }

  /** Hang another pointer in the hole, changing nothing else in the context. */
  lemma {:induction false} CtxRefill(h: Heap, h': Heap, root: Node, nil: Node, c: Ctx, x: Node, p: Node, y: Node)
    requires RepCtx(h, root, nil, c, x, p) && CtxDistinct(c) && root !in CtxNodes(c)
    requires p in h && p in h' && h'[p] == h[p].WithChild(HoleSide(c), y)
    requires Same(h, h', CtxNodes(c) + {root} - {p})
    ensures RepCtx(h', root, nil, c, y, p)
  {
    if c.Step? {
      RepFrame(h, h', nil, c.sib, h[c.n].Child(c.d.Opp()), c.n);
      CtxFrame(h, h', root, nil, c.up, c.n, h[c.n].parent);
    }
  }

  /** Give the root of a subtree another parent, changing nothing else in it. */
  lemma {:induction false} RepReparent(h: Heap, h': Heap, nil: Node, t: Tree, x: Node, p: Node, q: Node)
    requires Rep(h, nil, t, x, p) && Distinct(t)
    requires Same(h, h', Nodes(t) - {x})
    requires t.T? ==> x in h' && h'[x] == h[x].(parent := q)
    ensures Rep(h', nil, t, x, q)
  {
    if t.T? {
      RepFrame(h, h', nil, t.l, h[t.n].left, t.n);
      RepFrame(h, h', nil, t.r, h[t.n].right, t.n);
    }
  }

  /** The node below the hole sits on exactly one side of the node above it. */
  lemma HoleIsOneSide(h: Heap, root: Node, nil: Node, c: Ctx, t: Tree, x: Node, p: Node)
    requires At(h, root, nil, c, t, x, p)
    requires t.T? || (c.Step? && c.sib.T?)
    ensures p in h && ((x == h[p].left) <==> HoleSide(c).L?) && ((x == h[p].right) <==> HoleSide(c).R?)
  {
    if c.Step? && c.sib.T? {
      assert c.sib.n in Nodes(c.sib);
    }
    if t.T? {
      assert x in Nodes(t);
    }
  }

  // ---------- moving the focus ----------

  lemma Down(h: Heap, root: Node, nil: Node, c: Ctx, t: Tree, x: Node, p: Node, d: Side)
    requires At(h, root, nil, c, t, x, p) && t.T?
    ensures d.L? ==> At(h, root, nil, Step(c, L, t.n, t.red, t.r), t.l, h[x].left, x)
    ensures d.R? ==> At(h, root, nil, Step(c, R, t.n, t.red, t.l), t.r, h[x].right, x)
  {
  }

  lemma Up(h: Heap, root: Node, nil: Node, c: Ctx, t: Tree, x: Node, p: Node)
    requires At(h, root, nil, c, t, x, p) && c.Step?
    ensures At(h, root, nil, c.up, Mk(c.d, t, c.n, c.red, c.sib), p, h[p].parent)
  {
  }

  lemma {:induction false} ToTop(h: Heap, root: Node, nil: Node, c: Ctx, t: Tree, x: Node, p: Node)
    requires At(h, root, nil, c, t, x, p)
    ensures root in h && At(h, root, nil, Top, Plug(c, t), h[root].left, root)
    decreases c
  {
    if c.Step? {
      Up(h, root, nil, c, t, x, p);
      ToTop(h, root, nil, c.up, Mk(c.d, t, c.n, c.red, c.sib), p, h[p].parent);
    }
  }

  /** Every node of a tree can be brought into focus. */
  lemma {:induction false} Locate(h: Heap, root: Node, nil: Node, c: Ctx, t: Tree, x: Node, p: Node, z: Node)
    returns (c': Ctx, t': Tree)
    requires At(h, root, nil, c, t, x, p) && z in Nodes(t)
    ensures t'.T? && t'.n == z && z in h && At(h, root, nil, c', t', z, h[z].parent)
    ensures Plug(c', t') == Plug(c, t)
    decreases t
  {
    if t.n == z {
      c', t' := c, t;
    } else if z in Nodes(t.l) {
      Down(h, root, nil, c, t, x, p, L);
      c', t' := Locate(h, root, nil, Step(c, L, t.n, t.red, t.r), t.l, h[x].left, x, z);
    } else {
      Down(h, root, nil, c, t, x, p, R);
      c', t' := Locate(h, root, nil, Step(c, R, t.n, t.red, t.l), t.r, h[x].right, x, z);
    }
  }

  // ---------- the same for a snapshot of exactly the nodes of the tree ----------

  ghost function Sub(t: Tree, d: Side): Tree
    requires t.T?
  {
    if d.L? then t.l else t.r
  }

  lemma FocusLinks(ns: set<Node>, h: Heap, root: Node, nil: Node, c: Ctx, t: Tree, x: Node, p: Node)
    requires Focused(ns, h, root, nil, c, t, x, p)
    ensures x in h && p in h && root in h && nil in h && x != root && p != nil && (p == root <==> c.Top?)
    ensures if t.T? then x == t.n && x != nil && h[x].parent == p && h[x].red == t.red else x == nil
    ensures c.Step? ==> p == c.n && h[p].red == c.red
    ensures !h[root].red && !h[nil].red
  {
    ToTop(h, root, nil, c, t, x, p);
  }

  lemma ToTopFocused(ns: set<Node>, h: Heap, root: Node, nil: Node, c: Ctx, t: Tree, x: Node, p: Node)
    requires Focused(ns, h, root, nil, c, t, x, p)
    ensures root in h && Focused(ns, h, root, nil, Top, Plug(c, t), h[root].left, root)
  {
    ToTop(h, root, nil, c, t, x, p);
    PlugNodes(c, t);
  }

  ghost function DownCtx(c: Ctx, t: Tree, d: Side): Ctx
    requires t.T?
  {
    Step(c, d, t.n, t.red, Sub(t, d.Opp()))
  }

  lemma DownFocused(ns: set<Node>, h: Heap, root: Node, nil: Node, c: Ctx, t: Tree, x: Node, p: Node, d: Side)
    requires Focused(ns, h, root, nil, c, t, x, p) && t.T?
    ensures x in h && h[x].Child(d) in h && Focused(ns, h, root, nil, DownCtx(c, t, d), Sub(t, d), h[x].Child(d), x)
    ensures Plug(DownCtx(c, t, d), Sub(t, d)) == Plug(c, t)
    ensures d.L? ==> Before(DownCtx(c, t, d)) == Before(c)
    ensures Sub(t, d).T? ==> h[h[x].Child(d)].parent == x && h[x].Child(d) != nil
    ensures Sub(t, d).Nil? ==> h[x].Child(d) == nil
  {
    Down(h, root, nil, c, t, x, p, d);
    InHeap(h, root, nil, DownCtx(c, t, d), Sub(t, d), h[x].Child(d), x);
    assert Sub(t, d).T? ==> h[x].Child(d) in Nodes(t);
  }

  /** Every node of a tree can be brought into focus. */
  lemma LocateFocused(ns: set<Node>, h: Heap, root: Node, nil: Node, t: Tree, x: Node, z: Node)
    returns (c': Ctx, t': Tree)
    requires Focused(ns, h, root, nil, Top, t, x, root) && z in ns && z != root && z != nil
    ensures z in h && t'.T? && t'.n == z && Plug(c', t') == t && Focused(ns, h, root, nil, c', t', z, h[z].parent)
  {
    c', t' := Locate(h, root, nil, Top, t, x, root, z);
    PlugNodes(c', t');
  }

  // ---------- rotations ----------

  /** What LeftRotate (side L) and RightRotate (side R) need of the nodes around `x`. */
  ghost predicate Rotatable(h: Heap, nil: Node, d: Side, x: Node) {
    && x in h && h[x].parent in h && h[x].Child(d.Opp()) in h && h[h[x].Child(d.Opp())].Child(d) in h
    && Apart(nil, x, h[x].Child(d.Opp()), h[x].parent, h[h[x].Child(d.Opp())].Child(d))
  }

  ghost predicate Apart(nil: Node, x: Node, y: Node, p: Node, b: Node) {
    && x != y && x != p && y != p && nil != x && nil != y && nil != p && b != x && b != y && b != p
  }

  /**
    What LeftRotate (side L) and RightRotate (side R) do to a snapshot: `x` sinks towards
    side `d`, its other child `y` takes its place below `p`, and the subtree between
    them changes parent.
   */
  ghost predicate Rotated(h: Heap, h': Heap, nil: Node, d: Side, x: Node)
    requires Rotatable(h, nil, d, x)
  {
    RotatedCells(h, h', nil, d, x, h[x].Child(d.Opp()), h[x].parent, h[h[x].Child(d.Opp())].Child(d))
  }

  ghost predicate RotatedCells(h: Heap, h': Heap, nil: Node, d: Side, x: Node, y: Node, p: Node, b: Node)
    requires x in h && y in h && p in h && b in h
  {
    && h'.Keys == h.Keys
    && h'[x] == h[x].WithChild(d.Opp(), b).(parent := y)
    && h'[y] == h[y].WithChild(d, x).(parent := p)
    && h'[p] == h[p].WithChild(if x == h[p].left then L else R, y)
    && h'[b] == (if b != nil then h[b].(parent := x) else h[b])
    && forall n :: n in h && n != x && n != y && n != p && n != b ==> h'[n] == h[n]
  }

  lemma InHeap(h: Heap, root: Node, nil: Node, c: Ctx, t: Tree, x: Node, p: Node)
    requires At(h, root, nil, c, t, x, p)
    ensures x in h && p in h
  {
  }

  /** A rotation is well defined on a node in focus that has a child on the rising side. */
  lemma RotateDefined(h: Heap, root: Node, nil: Node, c: Ctx, d: Side,
                      a: Tree, x: Node, xr: bool, b: Tree, y: Node, yr: bool, e: Tree, p: Node)
    requires At(h, root, nil, c, Mk(d, a, x, xr, Mk(d, b, y, yr, e)), x, p)
    ensures Rotatable(h, nil, d, x) && h[x].Child(d.Opp()) == y && h[x].parent == p && p in CtxNodes(c) + {root}
    ensures h[x].red == xr && h[y].red == yr
    ensures Rep(h, nil, a, h[x].Child(d), x) && Rep(h, nil, b, h[y].Child(d), y)
    ensures Rep(h, nil, e, h[y].Child(d.Opp()), y)
  {
    var t2 := Mk(d, b, y, yr, e);
    assert Rep(h, nil, t2, h[x].Child(d.Opp()), x);
    assert y in Nodes(t2);
    assert Rep(h, nil, b, h[y].Child(d), y);
    assert b.T? ==> h[y].Child(d) in h;
    var bx := h[y].Child(d);
    assert p in CtxNodes(c) + {root};
    assert Distinct(t2) && y !in Nodes(b);
    assert b.T? ==> bx in Nodes(b);
    assert bx != x && bx != y && bx != p && x != y && x != p && y != p;
  }

  ghost function Single(t: Tree): set<Node> { if t.T? then {t.n} else {} }

  /** What a rotation does to a shape: the two nodes change places and nothing else moves. */
  lemma RotateShape(h: Heap, h': Heap, root: Node, nil: Node, c: Ctx, d: Side,
                    a: Tree, x: Node, xr: bool, b: Tree, y: Node, yr: bool, e: Tree, p: Node)
    requires At(h, root, nil, c, Mk(d, a, x, xr, Mk(d, b, y, yr, e)), x, p)
    requires Rotatable(h, nil, d, x) && Rotated(h, h', nil, d, x)
    ensures At(h', root, nil, c, Mk(d, Mk(d, a, x, xr, b), y, yr, e), y, p)
  {
    RotateDefined(h, root, nil, c, d, a, x, xr, b, y, yr, e, p);
    HoleIsOneSide(h, root, nil, c, Mk(d, a, x, xr, Mk(d, b, y, yr, e)), x, p);
    RotateApart(root, nil, c, d, a, x, xr, b, y, yr, e, p);
    RotateFrames(h, h', root, nil, c, d, a, x, b, y, e, p);
    RepMk(h', nil, d, a, x, b, y);
    RepMk(h', nil, d, Mk(d, a, x, xr, b), y, e, p);
    RotateSeparate(root, nil, c, d, a, x, xr, b, y, yr, e);
  }

  lemma RotateApart(root: Node, nil: Node, c: Ctx, d: Side, a: Tree, x: Node, xr: bool, b: Tree, y: Node,
          yr: bool, e: Tree, p: Node)
    requires Separate(root, nil, c, Mk(d, a, x, xr, Mk(d, b, y, yr, e))) && p in CtxNodes(c) + {root}
    ensures Clear(a, x, y, p) && Clear(b, x, y, p) && Clear(e, x, y, p)
    ensures Parted(a, b) && Parted(b, e) && OffCtx(c, root, b) && OutsideCtx(c, root, x) && OutsideCtx(c, root, y)
    ensures Distinct(b)
  {
    var t := Mk(d, b, y, yr, e);
    assert Distinct(t) && Nodes(t) == Nodes(b) + {y} + Nodes(e);
    assert Nodes(Mk(d, a, x, xr, t)) == Nodes(a) + {x} + Nodes(t);
  }

  ghost predicate Clear(t: Tree, x: Node, y: Node, p: Node) { x !in Nodes(t) && y !in Nodes(t) && p !in Nodes(t) }

  ghost predicate Parted(s: Tree, t: Tree) { Nodes(s) !! Nodes(t) }

  ghost predicate OffCtx(c: Ctx, root: Node, t: Tree) { CtxNodes(c) !! Nodes(t) && root !in Nodes(t) }

  ghost predicate OutsideCtx(c: Ctx, root: Node, x: Node) { x !in CtxNodes(c) && x != root }

  lemma RotateFrames(h: Heap, h': Heap, root: Node, nil: Node, c: Ctx, d: Side,
                     a: Tree, x: Node, b: Tree, y: Node, e: Tree, p: Node)
    requires Rotatable(h, nil, d, x) && Rotated(h, h', nil, d, x)
    requires y == h[x].Child(d.Opp()) && p == h[x].parent
    requires Rep(h, nil, a, h[x].Child(d), x) && Rep(h, nil, b, h[y].Child(d), y)
    requires Rep(h, nil, e, h[y].Child(d.Opp()), y)
    requires RepCtx(h, root, nil, c, x, p) && CtxDistinct(c) && root !in CtxNodes(c) && Distinct(b)
    requires (x == h[p].left) == HoleSide(c).L?
    requires Clear(a, x, y, p) && Clear(b, x, y, p) && Clear(e, x, y, p)
    requires Parted(a, b) && Parted(b, e) && OffCtx(c, root, b) && OutsideCtx(c, root, x) && OutsideCtx(c, root, y)
    ensures Rep(h', nil, a, h[x].Child(d), x) && Rep(h', nil, b, h[y].Child(d), x)
    ensures Rep(h', nil, e, h[y].Child(d.Opp()), y)
    ensures RepCtx(h', root, nil, c, y, p)
  {
    var bx := h[y].Child(d);
    assert b.T? ==> bx in Nodes(b);
    assert b.Nil? ==> bx == nil;
    RepFrame(h, h', nil, a, h[x].Child(d), x);
    RepReparent(h, h', nil, b, bx, y, x);
    RepFrame(h, h', nil, e, h[y].Child(d.Opp()), y);
    CtxRefill(h, h', root, nil, c, x, p, y);
  }

  lemma RepMk(h: Heap, nil: Node, d: Side, near: Tree, x: Node, far: Tree, p: Node)
    requires x in h && x != nil && h[x].parent == p
    requires Rep(h, nil, near, h[x].Child(d), x) && Rep(h, nil, far, h[x].Child(d.Opp()), x)
    ensures Rep(h, nil, Mk(d, near, x, h[x].red, far), x, p)
  {
  }

  lemma RotateSeparate(root: Node, nil: Node, c: Ctx, d: Side, a: Tree, x: Node, xr: bool, b: Tree, y: Node,
          yr: bool, e: Tree)
    requires Separate(root, nil, c, Mk(d, a, x, xr, Mk(d, b, y, yr, e)))
    ensures Separate(root, nil, c, Mk(d, Mk(d, a, x, xr, b), y, yr, e))
  {
    SetRotate(Nodes(a), x, Nodes(b), y, Nodes(e));
    var t, t' := Mk(d, b, y, yr, e), Mk(d, a, x, xr, b);
    if d.L? {
      assert t == T(b, y, yr, e) && t' == T(a, x, xr, b);
    } else {
      assert t == T(e, y, yr, b) && t' == T(b, x, xr, a);
    }
    assert Distinct(t) && Nodes(t) == Nodes(b) + {y} + Nodes(e);
    assert Distinct(t') && Nodes(t') == Nodes(a) + {x} + Nodes(b);
    assert Distinct(Mk(d, t', y, yr, e));
    assert Nodes(Mk(d, t', y, yr, e)) == Nodes(t') + {y} + Nodes(e)
        == Nodes(a) + {x} + Nodes(t) == Nodes(Mk(d, a, x, xr, t));
  }

  lemma SetRotate(a: set<Node>, x: Node, b: set<Node>, y: Node, e: set<Node>)
    ensures x !in a && x !in b + {y} + e && a !! (b + {y} + e) && y !in b && y !in e && b !! e
        ==> x !in b && a !! b && y !in a + {x} + b && (a + {x} + b) !! e && y !in e
    ensures (a + {x} + b) + {y} + e == a + {x} + (b + {y} + e)
  {
  }

  lemma RotateNodes(d: Side, a: Tree, x: Node, xr: bool, b: Tree, y: Node, yr: bool, e: Tree)
    ensures Nodes(Mk(d, Mk(d, a, x, xr, b), y, yr, e)) == Nodes(Mk(d, a, x, xr, Mk(d, b, y, yr, e)))
  {
    SetRotate(Nodes(a), x, Nodes(b), y, Nodes(e));
    assert Nodes(Mk(d, b, y, yr, e)) == Nodes(b) + {y} + Nodes(e);
    assert Nodes(Mk(d, a, x, xr, b)) == Nodes(a) + {x} + Nodes(b);
  }

  /** Rotations keep the in-order sequence. */
  lemma RotateInOrder(d: Side, a: Tree, x: Node, xr: bool, b: Tree, y: Node, yr: bool, e: Tree)
    ensures InOrder(Mk(d, Mk(d, a, x, xr, b), y, yr, e)) == InOrder(Mk(d, a, x, xr, Mk(d, b, y, yr, e)))
  {
    if d.L? {
      SeqRotate(InOrder(a), x, InOrder(b), y, InOrder(e));
    } else {
      SeqRotate(InOrder(e), y, InOrder(b), x, InOrder(a));
    }
  }

  lemma RotateReady(ns: set<Node>, h: Heap, root: Node, nil: Node, c: Ctx, d: Side,
                    a: Tree, x: Node, xr: bool, b: Tree, y: Node, yr: bool, e: Tree, p: Node)
    requires Focused(ns, h, root, nil, c, Mk(d, a, x, xr, Mk(d, b, y, yr, e)), x, p)
    ensures Rotatable(h, nil, d, x) && h[x].Child(d.Opp()) == y && h[x].parent == p && nil in h
  {
    RotateDefined(h, root, nil, c, d, a, x, xr, b, y, yr, e, p);
  }

  lemma RotateDone(ns: set<Node>, h: Heap, h': Heap, root: Node, nil: Node, c: Ctx, d: Side,
                   a: Tree, x: Node, xr: bool, b: Tree, y: Node, yr: bool, e: Tree, p: Node)
    requires Focused(ns, h, root, nil, c, Mk(d, a, x, xr, Mk(d, b, y, yr, e)), x, p)
    requires Rotatable(h, nil, d, x) && Rotated(h, h', nil, d, x)
    ensures Focused(ns, h', root, nil, c, Mk(d, Mk(d, a, x, xr, b), y, yr, e), y, p)
    ensures y in h' && x in h' && nil in h' && h'[y].Child(d) == x && h'[x].parent == y && h'[y].parent == p
    ensures nil in h && h'[nil].parent == h[nil].parent
  {
    RotateDefined(h, root, nil, c, d, a, x, xr, b, y, yr, e, p);
    RotateShape(h, h', root, nil, c, d, a, x, xr, b, y, yr, e, p);
    RotateNodes(d, a, x, xr, b, y, yr, e);
  }

  // ---------- colours ----------

  ghost function Paint(h: Heap, n: Node, red: bool): Heap
    requires n in h
  {
    h[n := h[n].(red := red)]
  }

  ghost function Painted(t: Tree, red: bool): Tree { if t.Nil? then Nil else t.(red := red) }

  lemma PaintFocus(h: Heap, root: Node, nil: Node, c: Ctx, t: Tree, x: Node, p: Node, red: bool)
    requires At(h, root, nil, c, t, x, p) && (t.T? || !red)
    ensures x in h && At(Paint(h, x, red), root, nil, c, Painted(t, red), x, p)
  {
    var h' := Paint(h, x, red);
    CtxFrame(h, h', root, nil, c, x, p);
    if t.T? {
      RepFrame(h, h', nil, t.l, h[x].left, x);
      RepFrame(h, h', nil, t.r, h[x].right, x);
    }
  }

  lemma PaintAbove(h: Heap, root: Node, nil: Node, c: Ctx, t: Tree, x: Node, p: Node, red: bool)
    requires At(h, root, nil, c, t, x, p) && c.Step?
    ensures p in h && At(Paint(h, p, red), root, nil, c.(red := red), t, x, p)
  {
    var h' := Paint(h, p, red);
    RepFrame(h, h', nil, t, x, p);
    RepFrame(h, h', nil, c.sib, h[p].Child(c.d.Opp()), p);
    CtxFrame(h, h', root, nil, c.up, p, h[p].parent);
  }

  lemma PaintSibling(h: Heap, root: Node, nil: Node, c: Ctx, t: Tree, x: Node, p: Node, red: bool)
    requires At(h, root, nil, c, t, x, p) && c.Step? && c.sib.T?
    ensures p in h && h[p].Child(c.d.Opp()) == c.sib.n && c.sib.n in h
    ensures At(Paint(h, c.sib.n, red), root, nil, c.(sib := Painted(c.sib, red)), t, x, p)
  {
    var w := c.sib.n;
    assert w in Nodes(c.sib);
    var h' := Paint(h, w, red);
    RepFrame(h, h', nil, t, x, p);
    RepFrame(h, h', nil, c.sib.l, h[w].left, w);
    RepFrame(h, h', nil, c.sib.r, h[w].right, w);
    CtxFrame(h, h', root, nil, c.up, p, h[p].parent);
  }

  // ---------- the red-black conditions ----------

  ghost predicate IsRed(t: Tree) { t.T? && t.red }

  ghost function Black(red: bool): nat { if red then 0 else 1 }

  /** Black height, read along the left spine. */
  ghost function BlackHeight(t: Tree): nat {
    if t.Nil? then 0 else BlackHeight(t.l) + Black(t.red)
  }

  /** Equal black heights everywhere and no red node with a red child. */
  ghost predicate RedBlack(t: Tree) {
    t.T? ==>
      && RedBlack(t.l) && RedBlack(t.r) && BlackHeight(t.l) == BlackHeight(t.r)
      && (t.red ==> !IsRed(t.l) && !IsRed(t.r))
  }

  /** The context is red-black when the hole is filled by a tree of black height `k`; its outermost node is black. */
  ghost predicate RedBlackCtx(c: Ctx, k: nat) {
    c.Step? ==>
      && RedBlack(c.sib) && BlackHeight(c.sib) == k
      && (c.red ==> !IsRed(c.sib) && c.up.Step? && !c.up.red)
      && RedBlackCtx(c.up, k + Black(c.red))
  }

  lemma {:induction false} PlugRedBlack(c: Ctx, t: Tree)
    requires RedBlack(t) && RedBlackCtx(c, BlackHeight(t))
    requires IsRed(t) ==> c.Step? && !c.red
    ensures RedBlack(Plug(c, t)) && !IsRed(Plug(c, t))
    decreases c
  {
    if c.Step? {
      PlugRedBlack(c.up, Mk(c.d, t, c.n, c.red, c.sib));
    }
  }

  lemma {:induction false} UnplugRedBlack(c: Ctx, t: Tree)
    requires RedBlack(Plug(c, t)) && !IsRed(Plug(c, t))
    ensures RedBlack(t) && RedBlackCtx(c, BlackHeight(t))
    ensures IsRed(t) ==> c.Step? && !c.red
    decreases c
  {
    if c.Step? {
      UnplugRedBlack(c.up, Mk(c.d, t, c.n, c.red, c.sib));
    }
  }
}
