/** lib/red_black_tree.c: a red-black tree with parent pointers and two sentinels. */
module RedBlackTree {
  import opened RbShape
  import opened RbRepair
  import opened RbDelete
  import opened Multiples
  import opened RbHeight
  import opened Sequences

  /** What the C comment asks of comp_func: positive, negative or zero, as a total preorder on keys. */
  ghost predicate Comparator(comp: (int, int) -> int) {
    && (forall a, b {:trigger comp(a, b)} :: comp(a, b) > 0 <==> comp(b, a) < 0)
    && (forall a, b, c {:trigger comp(a, b), comp(b, c)} :: comp(a, b) <= 0 && comp(b, c) <= 0 ==> comp(a, c) <= 0)
  }

  /** Every key compares less than or equal to each later one. */
  ghost predicate Sorted(comp: (int, int) -> int, s: seq<Node>) {
    forall i, j :: 0 <= i < j < |s| ==> comp(s[i].key, s[j].key) <= 0
  }

  class RbTree {
    const comp: (int, int) -> int
    const root: Node
    const nil: Node
    ghost var nodes: set<Node>
    ghost var shape: Tree

    ghost predicate Valid()
      reads this, nodes, root
    {
      && Comparator(comp)
      && Focus(Top, shape, root.left, root)
      && RedBlack(shape) && !IsRed(shape)
      && Sorted(comp, InOrder(shape))
    }

    constructor (comp: (int, int) -> int)
      requires Comparator(comp)
      ensures Valid() && fresh(nodes) && InOrder(shape) == [] && this.comp == comp
    {
      var sentinel := new Node.Loop();
      var top := new Node(0, 0, sentinel);
      this.comp := comp;
      nil, root := sentinel, top;
      nodes, shape := {top, sentinel}, Nil;
    }

    /** The pointers spell out tree `t` below `x`, inside context `c`. */
    ghost predicate Focus(c: Ctx, t: Tree, x: Node, p: Node)
      reads this, nodes
    {
      Focused(nodes, Snap(nodes), root, nil, c, t, x, p)
    }

    method LeftRotate(x: Node)
      requires Rotatable(Snap(nodes), nil, L, x)
      modifies nodes`left, nodes`right, nodes`parent
      ensures Rotated(old(Snap(nodes)), Snap(nodes), nil, L, x)
    {
      ghost var h, p, b := Snap(nodes), x.parent, x.right.left;
      var y := x.right;
      assert h[x].right == y && h[x].parent == p && h[y].left == b;
      assert {x, y, p, b} <= nodes && b !in {x, y, p} && x != y && y != p && x != p;
      x.right := y.left;
      if y.left != nil { y.left.parent := x; }
      y.parent := x.parent;
      if x == x.parent.left {
        x.parent.left := y;
      } else {
        x.parent.right := y;
      }
      y.left := x;
      x.parent := y;
    }

    method RightRotate(y: Node)
      requires Rotatable(Snap(nodes), nil, R, y)
      modifies nodes`left, nodes`right, nodes`parent
      ensures Rotated(old(Snap(nodes)), Snap(nodes), nil, R, y)
    {
      ghost var h, p, b := Snap(nodes), y.parent, y.left.right;
      var x := y.left;
      assert h[y].left == x && h[y].parent == p && h[x].right == b;
      assert {x, y, p, b} <= nodes && b !in {x, y, p} && x != y && y != p && x != p;
      y.left := x.right;
      if nil != x.right { x.right.parent := y; }
      x.parent := y.parent;
      if y == y.parent.left {
        y.parent.left := x;
      } else {
        y.parent.right := x;
      }
      x.right := y;
      y.parent := x;
    }

    /** Both rotations, with what they do to the shape in focus. */
    method Rotate(d: Side, x: Node, ghost c: Ctx, ghost a: Tree, ghost b: Tree, ghost y: Node, ghost yr: bool,
            ghost e: Tree)
      requires Focus(c, Mk(d, a, x, x.red, Mk(d, b, y, yr, e)), x, x.parent)
      modifies nodes`left, nodes`right, nodes`parent
      ensures Focus(c, Mk(d, Mk(d, a, x, x.red, b), y, yr, e), y, old(x.parent)) && y.parent == old(x.parent)
      ensures (if d.L? then y.left else y.right) == x && x.parent == y
      ensures nil.parent == old(nil.parent)
    {
      hide Focused, Rotatable, Rotated, Mk;
      ghost var h, p := Snap(nodes), x.parent;
      assert h[x].parent == p by {
        FocusLinks(nodes, h, root, nil, c, Mk(d, a, x, x.red, Mk(d, b, y, yr, e)), x, p);
      }
      RotateReady(nodes, h, root, nil, c, d, a, x, x.red, b, y, yr, e, p);
      if d.L? {
        LeftRotate(x);
      } else {
        RightRotate(x);
      }
      RotateDone(nodes, h, Snap(nodes), root, nil, c, d, a, x, x.red, b, y, yr, e, p);
      assert Snap(nodes)[x].parent == x.parent && Snap(nodes)[y] == Cell(y.left, y.right, y.parent, y.red);
      assert Snap(nodes)[nil].parent == nil.parent && h[nil].parent == old(nil.parent);
    }

    /** `x.red := red` on the node in focus. */
    method PaintNode(x: Node, red: bool)
      requires x in nodes
      modifies x`red
      ensures Snap(nodes) == Paint(old(Snap(nodes)), x, red)
    {
      x.red := red;
    }

    /** The child of `n` on side `d`; the source writes each use out for both sides. */
    function Child(n: Node, d: Side): Node
      reads n
    {
      if d.L? then n.left else n.right
    }

    // ---------- insertion ----------

    /** The descent of TreeInsertHelp to the empty place where `z` belongs. */
    method FindPlace(z: Node) returns (y: Node, ghost c: Ctx)
      requires root in nodes && Descent(comp, Snap(nodes), root, nil, shape, Top, shape, root.left, root, z)
      requires Comparator(comp) && Sorted(comp, InOrder(shape))
      ensures Descent(comp, Snap(nodes), root, nil, shape, c, Nil, nil, y, z)
    {
      y := root;
      var x := root.left;
      c := Top;
      ghost var t := shape;
      while x != nil
        invariant Descent(comp, Snap(nodes), root, nil, shape, c, t, x, y, z)
        decreases t
      {
        assert Snap(nodes)[x] == Cell(x.left, x.right, x.parent, x.red) && t.T? && x.parent == y;
        y := x;
        if comp(x.key, z.key) > 0 {
          DescentStep(comp, Snap(nodes), root, nil, shape, c, t, x, z, L);
          c, t := Step(c, L, t.n, t.red, t.r), t.l;
          x := x.left;
        } else {
          DescentStep(comp, Snap(nodes), root, nil, shape, c, t, x, z, R);
          c, t := Step(c, R, t.n, t.red, t.l), t.r;
          x := x.right;
        }
      }
    }

    /** TreeInsertHelp: hang `z` below the leaf position that plain search-tree descent finds. */
    method TreeInsertHelp(z: Node) returns (ghost c: Ctx)
      requires Valid() && z !in nodes && !z.red
      modifies z`left, z`right, z`parent, nodes`left, nodes`right, this`nodes
      ensures nodes == old(nodes) + {z}
      ensures Focus(c, T(Nil, z, false, Nil), z, z.parent)
      ensures Plug(c, Nil) == shape
      ensures Fits(comp, Before(c), After(c), z)
    {
      hide Focused, Descent, RedBlack, IsRed, InOrder, Sorted, Comparator, Fits, Plug, Before, After, HoleSide;
      DescentStarts(comp, nodes, Snap(nodes), root, nil, shape, root.left, z);
      z.left, z.right := nil, nil;
      assert Snap(nodes) == old(Snap(nodes));
      var y;
      y, c := FindPlace(z);
      DescentEnds(comp, nodes, Snap(nodes), root, nil, shape, c, y, z);
      Hang(z, y, y == root || comp(y.key, z.key) > 0, c);
    }

    /** The end of TreeInsertHelp: link `z` into the empty place below `y`. */
    method Hang(z: Node, y: Node, onLeft: bool, ghost c: Ctx)
      requires Focus(c, Nil, nil, y) && z !in nodes && z.left == z.right == nil && !z.red
      requires onLeft <==> HoleSide(c).L?
      modifies z`parent, nodes`left, nodes`right, this`nodes
      ensures nodes == old(nodes) + {z} && Focus(c, T(Nil, z, false, Nil), z, z.parent)
    {
      hide Rep, RepCtx, Separate, Nodes, CtxNodes, Distinct, CtxDistinct, InOrder, Plug, RedBlack, RedBlackCtx;
      ghost var h := Snap(nodes);
      FocusLinks(nodes, h, root, nil, c, Nil, nil, y);
      assert h[y] == Cell(y.left, y.right, y.parent, y.red);
      z.parent := y;
      if onLeft { y.left := z; } else { y.right := z; }
      nodes := nodes + {z};
      Attach(old(nodes), h, Snap(nodes), root, nil, c, y, z);
    }

    // ---------- insertion: the repair loop ----------

    /** The recolouring assignments of rb_tree_add, shared by its two mirrored branches. */
    method PaintFamily(x: Node, y: Node) returns (g: Node)
      requires {x, x.parent, x.parent.parent, y} <= nodes
      modifies nodes`red
      ensures g == x.parent.parent
      ensures Snap(nodes) == Paint(Paint(Paint(old(Snap(nodes)), x.parent, false), y, false), g, true)
    {
      PaintNode(x.parent, false);
      PaintNode(y, false);
      PaintNode(x.parent.parent, true);
      g := x.parent.parent;
    }

    /** The uncle `y` is red: recolour and move two levels up. */
    method AddRecolour(x: Node, y: Node, ghost c: Ctx, ghost t: Tree) returns (g: Node, ghost t': Tree)
      requires Focus(c, t, x, x.parent) && AddInv(c, t) && RedParent(c)
      requires c.up.Step? && IsRed(c.up.sib) && y == c.up.sib.n
      modifies nodes`red
      ensures Focus(c.up.up, t', g, g.parent) && AddInv(c.up.up, t')
      ensures InOrder(Plug(c.up.up, t')) == InOrder(Plug(c, t))
    {
      ghost var h, p := Snap(nodes), x.parent;
      RecolourLinks(h, root, nil, c, t, x, p);
      assert h[p] == Cell(p.left, p.right, p.parent, p.red) && x in nodes;
      g := PaintFamily(x, y);
      t' := Mk(c.up.d, Mk(c.d, t, c.n, false, c.sib), c.up.n, true, Painted(c.up.sib, false));
      assert Snap(nodes)[g].parent == g.parent;
      RbRepair.AddRecolour(c, t);
      RecolourSame(c, t);
    }

    /** `x` is on the inner side: one rotation makes it an outer grandchild. */
    method AddTurn(d: Side, x: Node, ghost c: Ctx, ghost t: Tree) returns (x': Node, ghost c': Ctx, ghost t': Tree)
      requires Focus(c, t, x, x.parent) && AddInv(c, t) && RedParent(c) && c.up.Step? && c.d == d.Opp()
      modifies nodes`left, nodes`right, nodes`parent
      ensures Focus(c', t', x', x'.parent) && AddInv(c', t') && RedParent(c') && c'.d == d && c'.up == c.up
      ensures InOrder(Plug(c', t')) == InOrder(Plug(c, t))
    {
      ghost var p := x.parent;
      FocusLinks(nodes, Snap(nodes), root, nil, c, t, x, p);
      ghost var near, far := if d.L? then t.l else t.r, if d.L? then t.r else t.l;
      assert t == Mk(d, near, x, true, far);
      Up(Snap(nodes), root, nil, c, t, x, p);
      InHeap(Snap(nodes), root, nil, c, t, x, p);
      assert Snap(nodes)[p] == Cell(p.left, p.right, p.parent, p.red) && p.red;
      RbRepair.AddInner(c, d, near, x, far);
      x' := x.parent;
      TurnNodes(c, d, near, x, far);
      Rotate(d, x', c.up, c.sib, near, x, true, far);
      c', t' := Step(c.up, d, x, true, far), Mk(d, c.sib, c.n, true, near);
      DownFocused(nodes, Snap(nodes), root, nil, c.up, Mk(d, t', x, true, far), x, x.parent, d);
    }

    method PaintParents(x: Node) returns (g: Node)
      requires {x, x.parent, x.parent.parent} <= nodes
      modifies nodes`red
      ensures g == x.parent.parent
      ensures Snap(nodes) == Paint(Paint(old(Snap(nodes)), x.parent, false), g, true)
    {
      PaintNode(x.parent, false);
      PaintNode(x.parent.parent, true);
      g := x.parent.parent;
    }

    /** `x` is on the outer side and its uncle is black: recolour, and rotate the grandparent down. */
    method AddLift(d: Side, x: Node, ghost c: Ctx, ghost t: Tree) returns (ghost c': Ctx)
      requires Focus(c, t, x, x.parent) && AddInv(c, t) && RedParent(c)
      requires c.up.Step? && c.d == d && c.up.d == d && !IsRed(c.up.sib)
      modifies nodes`left, nodes`right, nodes`parent, nodes`red
      ensures Focus(c', t, x, x.parent) && AddInv(c', t) && !RedParent(c') && Depth(c') < Depth(c)
      ensures InOrder(Plug(c', t)) == InOrder(Plug(c, t))
    {
      hide Rep, RepCtx, Separate, Nodes, CtxNodes, Distinct, CtxDistinct, InOrder, Plug, RedBlack, RedBlackCtx;
      ghost var h, p, o := Snap(nodes), x.parent, d.Opp();
      ghost var g, u := c.up.n, c.up.sib;
      LiftLinks(h, root, nil, c, t, x, p);
      FocusLinks(nodes, h, root, nil, c, t, x, p);
      assert h[p] == Cell(p.left, p.right, p.parent, p.red) && h[x].parent == x.parent;
      var grand := PaintParents(x);
      RbRepair.AddOuter(c, t);
      LiftNodes(c, t);
      LiftOrder(c, t);
      Rotate(d.Opp(), grand, c.up.up, u, c.sib, p, false, t);
      DownFocused(nodes, Snap(nodes), root, nil, c.up.up, Mk(o, Mk(o, u, g, true, c.sib), p, false, t), p, p.parent, d);
      c' := Step(c.up.up, d, p, false, Mk(o, u, g, true, c.sib));
      assert c' == DownCtx(c.up.up, Mk(o, Mk(o, u, g, true, c.sib), p, false, t), d);
      FocusLinks(nodes, Snap(nodes), root, nil, c', t, Snap(nodes)[p].Child(d), p);
      assert Snap(nodes)[x].parent == x.parent;
    }

    /** One round of the while loop of rb_tree_add. */
    method AddRound(x: Node, ghost c: Ctx, ghost t: Tree) returns (x': Node, ghost c': Ctx, ghost t': Tree)
      requires Focus(c, t, x, x.parent) && AddInv(c, t) && RedParent(c)
      modifies nodes`left, nodes`right, nodes`parent, nodes`red
      ensures Focus(c', t', x', x'.parent) && AddInv(c', t') && Depth(c') < Depth(c)
      ensures InOrder(Plug(c', t')) == InOrder(Plug(c, t))
    {
      AddSides(Snap(nodes), root, nil, c, t, x, x.parent);
      assert Snap(nodes)[x.parent] == Cell(x.parent.left, x.parent.right, x.parent.parent, x.parent.red);
      var g := x.parent.parent;
      assert Snap(nodes)[g] == Cell(g.left, g.right, g.parent, g.red);
      var d := if x.parent == g.left then L else R;
      var y := Child(g, d.Opp());
      assert Snap(nodes)[y].red == y.red;
      if y.red {
        x', t' := AddRecolour(x, y, c, t);
        c' := c.up.up;
      } else {
        x', c', t' := x, c, t;
        if x == Child(x.parent, d.Opp()) {
          x', c', t' := AddTurn(d, x, c, t);
        }
        c' := AddLift(d, x', c', t');
      }
    }

    /**
      rb_tree_add: the new node goes after every node that compares less or equal and
      before every node that compares greater; nothing else moves or changes.
     */
    method Add(key: int, info: int) returns (newNode: Node)
      requires Valid()
      modifies this`nodes, this`shape, nodes`left, nodes`right, nodes`parent, nodes`red
      ensures Valid() && fresh(newNode) && nodes == old(nodes) + {newNode}
      ensures newNode.key == key && newNode.info == info
      ensures Inserted(comp, old(InOrder(shape)), InOrder(shape), newNode)
    {
      hide Focused, InOrder, Plug, RedBlack, Fits, Inserted, Sorted, Comparator, Before, After, Nodes, CtxNodes;
      var x := new Node(key, info, nil);
      ghost var c := TreeInsertHelp(x);
      newNode := x;
      SortedInsert(comp, c, shape, x);
      AddLinked(x, c);
    }

    method AddLinked(x: Node, ghost c: Ctx)
      requires Focus(c, T(Nil, x, false, Nil), x, x.parent)
      requires Plug(c, Nil) == shape && RedBlack(shape) && !IsRed(shape)
      modifies this`shape, nodes`left, nodes`right, nodes`parent, nodes`red
      ensures Focus(Top, shape, root.left, root) && RedBlack(shape) && !IsRed(shape)
      ensures InOrder(shape) == Before(c) + [x] + After(c)
    {
      AddStart(Snap(nodes), root, nil, c, shape, x);
      PaintNode(x, true);
      AddRepair(x, c, T(Nil, x, true, Nil));
    }

    /** The while loop of rb_tree_add and the assignment after it. */
    method AddRepair(x: Node, ghost c: Ctx, ghost t: Tree)
      requires Focus(c, t, x, x.parent) && AddInv(c, t)
      modifies this`shape, nodes`left, nodes`right, nodes`parent, nodes`red
      ensures Focus(Top, shape, root.left, root) && RedBlack(shape) && !IsRed(shape)
      ensures InOrder(shape) == InOrder(Plug(c, t))
    {
      var x', c', t' := x, c, t;
      ParentColour(Snap(nodes), root, nil, c', t', x', x'.parent);
      while x'.parent.red
        invariant Focus(c', t', x', x'.parent) && AddInv(c', t') && (x'.parent.red <==> RedParent(c'))
        invariant InOrder(Plug(c', t')) == InOrder(Plug(c, t))
        decreases Depth(c')
      {
        x', c', t' := AddRound(x', c', t');
        ParentColour(Snap(nodes), root, nil, c', t', x', x'.parent);
      }
      BlackenRoot(x', c', t');
    }

    /** The last assignment of rb_tree_add. */
    method BlackenRoot(ghost x: Node, ghost c: Ctx, ghost t: Tree)
      requires Focus(c, t, x, x.parent) && AddInv(c, t) && !RedParent(c)
      modifies this`shape, nodes`red
      ensures Focus(Top, shape, root.left, root) && RedBlack(shape) && !IsRed(shape)
      ensures InOrder(shape) == InOrder(Plug(c, t))
    {
      hide Rep, RepCtx, Separate, Nodes, CtxNodes, Distinct, CtxDistinct, InOrder, Plug, RedBlack, RedBlackCtx;
      ghost var h := Snap(nodes);
      ToTopFocused(nodes, h, root, nil, c, t, x, x.parent);
      shape := Painted(Plug(c, t), false);
      assert h[root].left == root.left;
      FocusLinks(nodes, h, root, nil, Top, Plug(c, t), root.left, root);
      PaintFocused(nodes, h, root, nil, Top, Plug(c, t), root.left, root, false);
      AddDone(c, t);
      PaintNode(root.left, false);
    }

    // ---------- deletion: RBDeleteFixUp ----------

    /** A red sibling: make it the grandparent of `x`. */
    method FixRedSibling(d: Side, x: Node, w: Node, ghost c: Ctx, ghost t: Tree)
      requires Focus(c, t, x, x.parent) && c.Step? && c.d == d && c.sib.T? && w == c.sib.n
      modifies nodes`left, nodes`right, nodes`parent, nodes`red
      ensures Focus(Case1Ctx(c), t, x, x.parent)
      ensures x.parent == old(x.parent)
    {
      hide Focused, Nodes, CtxNodes, InOrder, Plug, RedBlack, Mk;
      ghost var h, p := Snap(nodes), x.parent;
      FixUpLinks(nodes, h, root, nil, c, t, x, p);
      FocusLinks(nodes, h, root, nil, c, t, x, p);
      Case1Links(nodes, h, root, nil, c, t, x, p);
      assert h[p].parent == p.parent;
      PaintNode(w, false);
      PaintNode(x.parent, true);
      Rotate(d, x.parent, c.up, t, Sub(c.sib, d), w, false, Sub(c.sib, d.Opp()));
      Case1Back(nodes, Snap(nodes), root, nil, c, t, x, p, w.parent);
      FocusLinks(nodes, Snap(nodes), root, nil, Case1Ctx(c), t, x, p);
      assert t.T? ==> Snap(nodes)[x].parent == x.parent;
    }

    /** A black sibling with two black children: paint it red and move up. */
    method FixBlackNieces(x: Node, w: Node, ghost c: Ctx, ghost t: Tree)
      requires Focus(c, t, x, x.parent) && c.Step? && c.sib.T? && w == c.sib.n
      modifies nodes`red
      ensures Focus(c.up, Case2Tree(c, t), x.parent, x.parent.parent)
    {
      ghost var h, p := Snap(nodes), x.parent;
      FixUpLinks(nodes, h, root, nil, c, t, x, p);
      Case2Links(nodes, h, root, nil, c, t, x, p);
      assert h[p].parent == p.parent;
      PaintNode(w, true);
    }

    /** A black sibling whose near child is red and far child black: the near child becomes the sibling. */
    method FixNearNiece(d: Side, x: Node, w: Node, ghost c: Ctx, ghost t: Tree)
      requires Focus(c, t, x, x.parent) && c.Step? && c.d == d && c.sib.T? && w == c.sib.n && Sub(c.sib, d).T?
      modifies nodes`left, nodes`right, nodes`parent, nodes`red
      ensures Focus(c.(sib := Case3Sib(c)), t, x, x.parent)
      ensures x.parent == old(x.parent)
    {
      hide Focused, Nodes, CtxNodes, InOrder, Plug, RedBlack, Painted;
      ghost var h, p, z := Snap(nodes), x.parent, Sub(c.sib, d);
      FixUpLinks(nodes, h, root, nil, c, t, x, p);
      FocusLinks(nodes, h, root, nil, c, t, x, p);
      Case3Links(nodes, h, root, nil, c, t, x, p);
      assert h[w] == Cell(w.left, w.right, w.parent, w.red);
      PaintNode(Child(w, d), false);
      PaintNode(w, true);
      assert Snap(nodes)[w].parent == w.parent && Snap(nodes)[w].red == w.red;
      Rotate(d.Opp(), w, Step(c.up, d.Opp(), c.n, c.red, t),
             Sub(c.sib, d.Opp()), Sub(z, d.Opp()), z.n, false, Sub(z, d));
      Case3Back(nodes, Snap(nodes), root, nil, c, t, x, p);
      FocusLinks(nodes, Snap(nodes), root, nil, c.(sib := Case3Sib(c)), t, x, p);
      assert t.T? ==> Snap(nodes)[x].parent == x.parent;
    }

    /** A black sibling with a red far child: one rotation at the parent makes up for the missing black node. */
    method FixFarNiece(d: Side, x: Node, w: Node, ghost c: Ctx, ghost t: Tree)
      requires Focus(c, t, x, x.parent) && c.Step? && c.d == d && c.sib.T? && w == c.sib.n && Sub(c.sib, d.Opp()).T?
      modifies nodes`left, nodes`right, nodes`parent, nodes`red
      ensures Focus(c.up, Case4Tree(c, t), w, w.parent)
    {
      hide Focused, Mk;
      ghost var h, p := Snap(nodes), x.parent;
      FixUpLinks(nodes, h, root, nil, c, t, x, p);
      Case4Links(nodes, h, root, nil, c, t, x, p);
      assert h[w] == Cell(w.left, w.right, w.parent, w.red) && h[p] == Cell(p.left, p.right, p.parent, p.red);
      PaintNode(w, x.parent.red);
      PaintNode(x.parent, false);
      PaintNode(Child(w, d.Opp()), false);
      assert Snap(nodes)[p].parent == p.parent;
      Rotate(d, x.parent, c.up, t, Sub(c.sib, d), w, c.red, Painted(Sub(c.sib, d.Opp()), false));
    }

    /** One round of the loop once the sibling `w` is black. */
    method FixBlackSibling(d: Side, x: Node, w: Node, stale: Node, ghost c: Ctx, ghost t: Tree)
      returns (x': Node, ghost c': Ctx, ghost t': Tree, ghost closed: bool)
      requires Focus(c, t, x, x.parent) && Short(c, t) && !IsRed(t) && c.Step? && c.d == d
      requires c.sib.T? && w == c.sib.n && !c.sib.red && StaleRoot(c, stale) && (c.red || stale == OuterNode(c))
      modifies nodes`left, nodes`right, nodes`parent, nodes`red
      ensures Alike(c, t, c', t')
      ensures if closed then FixClosed(Snap(nodes), nodes, root, nil, c', t', x', stale)
                        else FixOpen(Snap(nodes), nodes, root, nil, c', t', x', stale)
      ensures !closed ==> c' == c.up && (IsRed(t') <==> c.red)
    {
      FixUpLinks(nodes, Snap(nodes), root, nil, c, t, x, x.parent);
      assert Snap(nodes)[w] == Cell(w.left, w.right, w.parent, w.red);
      if !w.right.red && !w.left.red {
        Case2(c, t);
        Case2Alike(c, t);
        FixBlackNieces(x, w, c, t);
        x', c', t', closed := x.parent, c.up, Case2Tree(c, t), false;
        ReopenFix(Snap(nodes), nodes, root, nil, c, t, x.parent, stale);
      } else {
        x', c', t' := FixRedNiece(d, x, w, stale, c, t);
        closed := true;
      }
    }

    method FixRedNiece(d: Side, x: Node, w: Node, stale: Node, ghost c: Ctx, ghost t: Tree)
      returns (x': Node, ghost c': Ctx, ghost t': Tree)
      requires Focus(c, t, x, x.parent) && Short(c, t) && !IsRed(t) && c.Step? && c.d == d
      requires c.sib.T? && w == c.sib.n && !c.sib.red && StaleRoot(c, stale)
      requires IsRed(c.sib.l) || IsRed(c.sib.r)
      modifies nodes`left, nodes`right, nodes`parent, nodes`red
      ensures Alike(c, t, c', t')
      ensures FixClosed(Snap(nodes), nodes, root, nil, c', t', x', stale)
    {
      FixUpLinks(nodes, Snap(nodes), root, nil, c, t, x, x.parent);
      assert Snap(nodes)[w] == Cell(w.left, w.right, w.parent, w.red);
      var w' := w;
      ghost var c1 := c;
      if !Child(w, d.Opp()).red {
        Case3(c, t);
        Case3Alike(c, t);
        FixNearNiece(d, x, w, c, t);
        c1 := c.(sib := Case3Sib(c));
        FixUpLinks(nodes, Snap(nodes), root, nil, c1, t, x, x.parent);
        assert Snap(nodes)[x.parent] == Cell(x.parent.left, x.parent.right, x.parent.parent, x.parent.red);
        w' := Child(x.parent, d.Opp());
      }
      Case4Alike(c1, t);
      FixFarNiece(d, x, w', c1, t);
      x', c', t' := stale, c1.up, Case4Tree(c1, t);
      CloseFix(Snap(nodes), nodes, root, nil, c1, t, w', w'.parent, stale);
    }

    /** One round of the while loop of RBDeleteFixUp; `stale` is its variable root. */
    method FixRound(x: Node, stale: Node, ghost c: Ctx, ghost t: Tree)
      returns (x': Node, ghost c': Ctx, ghost t': Tree, ghost closed: bool)
      requires FixOpen(Snap(nodes), nodes, root, nil, c, t, x, stale) && !IsRed(t) && c.Step?
      modifies nodes`left, nodes`right, nodes`parent, nodes`red
      ensures Alike(c, t, c', t')
      ensures if closed then FixClosed(Snap(nodes), nodes, root, nil, c', t', x', stale)
                        else FixOpen(Snap(nodes), nodes, root, nil, c', t', x', stale)
      ensures closed || IsRed(t') || Depth(c') < Depth(c)
    {
      ShortSibling(c, t);
      assert Snap(nodes)[x].parent == x.parent;
      FixUpLinks(nodes, Snap(nodes), root, nil, c, t, x, x.parent);
      assert Snap(nodes)[x.parent] == Cell(x.parent.left, x.parent.right, x.parent.parent, x.parent.red);
      var d := if x == x.parent.left then L else R;
      var w := Child(x.parent, d.Opp());
      ghost var c1 := c;
      if w.red {
        Case1(c, t);
        Case1Alike(c, t);
        FixRedSibling(d, x, w, c, t);
        c1 := Case1Ctx(c);
        ShortSibling(c1, t);
        FixUpLinks(nodes, Snap(nodes), root, nil, c1, t, x, x.parent);
        assert Snap(nodes)[x.parent] == Cell(x.parent.left, x.parent.right, x.parent.parent, x.parent.red);
        w := Child(x.parent, d.Opp());
      }
      x', c', t', closed := FixBlackSibling(d, x, w, stale, c1, t);
    }

    /** RBDeleteFixUp. */
    method DeleteFixUp(x: Node, ghost c: Ctx, ghost t: Tree)
      requires Focus(c, t, x, x.parent) && Short(c, t)
      modifies this`shape, nodes`left, nodes`right, nodes`parent, nodes`red
      ensures Focus(Top, shape, root.left, root) && RedBlack(shape) && !IsRed(shape)
      ensures InOrder(shape) == InOrder(Plug(c, t))
    {
      hide Focused, InOrder, Plug, RedBlack;
      var stale := root.left;
      ghost var closed := false;
      var x', c', t' := x, c, t;
      FocusLinks(nodes, Snap(nodes), root, nil, c, t, x, x.parent);
      assert Snap(nodes)[x].parent == x.parent && Snap(nodes)[root].left == root.left;
      OpenFix(Snap(nodes), nodes, root, nil, c, t, x);
      FixGuard(Snap(nodes), nodes, root, nil, c, t, x, stale);
      while !x'.red && stale != x'
        invariant if closed then FixClosed(Snap(nodes), nodes, root, nil, c', t', x', stale)
                            else FixOpen(Snap(nodes), nodes, root, nil, c', t', x', stale)
        invariant !closed ==> x' in nodes && (x'.red <==> IsRed(t')) && (!IsRed(t') ==> (stale == x' <==> c'.Top?))
        invariant InOrder(Plug(c', t')) == InOrder(Plug(c, t))
        decreases if closed || IsRed(t') then 0 else 1 + Depth(c')
      {
        x', c', t', closed := FixRound(x', stale, c', t');
        if !closed {
          FixGuard(Snap(nodes), nodes, root, nil, c', t', x', stale);
        }
      }
      PaintLast(x', stale, c', t', closed);
    }

    /** The last line of RBDeleteFixUp. */
    method PaintLast(x: Node, stale: Node, ghost c: Ctx, ghost t: Tree, ghost closed: bool)
      requires if closed then FixClosed(Snap(nodes), nodes, root, nil, c, t, x, stale)
        else FixOpen(Snap(nodes), nodes, root, nil, c, t, x, stale) && (IsRed(t) || x == stale)
      modifies this`shape, nodes`red
      ensures Focus(Top, shape, root.left, root) && RedBlack(shape) && !IsRed(shape)
      ensures InOrder(shape) == InOrder(Plug(c, t))
    {
      hide Focused, InOrder, Plug, RedBlack, FixClosed, FixOpen;
      ghost var h := Snap(nodes);
      ghost var s := EndFix(h, nodes, root, nil, c, t, x, stale, closed);
      assert h[root].left == root.left;
      PaintNode(x, false);
      shape := s;
    }

    // ---------- rb_tree_successor ----------

    /** The least node of the subtree `t`, reached along left pointers. */
    method LeftMost(x: Node, ghost c: Ctx, ghost t: Tree) returns (y: Node, ghost c': Ctx, ghost t': Tree)
      requires Focus(c, t, x, x.parent) && t.T?
      ensures Focus(c', t', y, y.parent) && t'.T? && t'.l.Nil?
      ensures Plug(c', t') == Plug(c, t) && Before(c') == Before(c)
    {
      hide Rep, RepCtx, Separate, Nodes, CtxNodes, Distinct, CtxDistinct, InOrder, Plug, RedBlack, RedBlackCtx;
      y, c', t' := x, c, t;
      NodeLinks(nodes, Snap(nodes), root, nil, c', t', y, y.parent);
      assert Snap(nodes)[y].left == y.left;
      while y.left != nil
        invariant Focus(c', t', y, y.parent) && t'.T? && (y.left == nil <==> t'.l.Nil?)
        invariant Plug(c', t') == Plug(c, t) && Before(c') == Before(c)
        decreases t'
      {
        ghost var h := Snap(nodes);
        FocusLinks(nodes, h, root, nil, c', t', y, y.parent);
        assert h[y] == Cell(y.left, y.right, y.parent, y.red);
        DownFocused(nodes, h, root, nil, c', t', y, y.parent, L);
        c', t' := DownCtx(c', t', L), t'.l;
        y := y.left;
        assert h[y].parent == y.parent;
        NodeLinks(nodes, h, root, nil, c', t', y, y.parent);
        assert h[y].left == y.left;
      }
    }

    /**
      rb_tree_successor: the node after `x` in the in-order sequence, or nil after the last one.
      In both branches everything up to `x` comes before the result.
     */
    method Successor(x: Node, ghost c: Ctx, ghost t: Tree) returns (y: Node, ghost c': Ctx, ghost t': Tree)
      requires Focus(c, t, x, x.parent) && t.T?
      ensures y == nil ==> InOrder(Plug(c, t)) == Before(c) + InOrder(t.l) + [x]
      ensures y != nil ==> Focus(c', t', y, y.parent) && t'.T? && Plug(c', t') == Plug(c, t)
      ensures y != nil ==> Before(c') + InOrder(t'.l) == Before(c) + InOrder(t.l) + [x]
      ensures t.r.T? ==> y != nil && t'.l.Nil?
    {
      ghost var h := Snap(nodes);
      NodeLinks(nodes, h, root, nil, c, t, x, x.parent);
      assert h[x] == Cell(x.left, x.right, x.parent, x.red);
      if nil != x.right {
        Down(h, root, nil, c, t, x, x.parent, R);
        assert h[x.right].parent == x.right.parent;
        y, c', t' := LeftMost(x.right, Step(c, R, t.n, t.red, t.l), t.r);
        NodeLinks(nodes, h, root, nil, c', t', y, y.parent);
      } else {
        PlugInOrder(c, t);
        y, c', t' := Climb(x, c, t);
      }
    }

    /** The else branch of rb_tree_successor: climb while coming from the right. */
    method Climb(x: Node, ghost c: Ctx, ghost t: Tree) returns (y: Node, ghost c': Ctx, ghost t': Tree)
      requires Focus(c, t, x, x.parent) && t.T? && t.r.Nil?
      ensures y == nil ==> InOrder(Plug(c, t)) == Before(c) + InOrder(t.l) + [x]
      ensures y != nil ==> Focus(c', t', y, y.parent) && t'.T? && Plug(c', t') == Plug(c, t)
      ensures y != nil ==> Before(c') + InOrder(t'.l) == Before(c) + InOrder(t.l) + [x]
    {
      ghost var h := Snap(nodes);
      ghost var target := Before(c) + InOrder(t.l) + [x];
      var x' := x;
      c', t' := c, t;
      y := x.parent;
      assert InOrder(t) == InOrder(t.l) + [x];
      assert Before(c) + InOrder(t) == target;
      NodeLinks(nodes, h, root, nil, c, t, x, y);
      ClimbSide(h, root, nil, c, t, x, y);
      assert h[y].right == y.right;
      while x' == y.right
        invariant Focus(c', t', x', y) && t'.T? && y in nodes
        invariant x' == y.right <==> (c'.Step? && c'.d.R?)
        invariant Plug(c', t') == Plug(c, t) && Before(c') + InOrder(t') == target
        decreases Depth(c')
      {
        Up(h, root, nil, c', t', x', y);
        StepNodes(c', t');
        ClimbOrder(c', t');
        assert h[y].parent == y.parent;
        c', t' := c'.up, Mk(c'.d, t', c'.n, c'.red, c'.sib);
        x' := y;
        y := y.parent;
        NodeLinks(nodes, h, root, nil, c', t', x', y);
        ClimbSide(h, root, nil, c', t', x', y);
        assert h[y].right == y.right;
      }
      NodeLinks(nodes, h, root, nil, c', t', x', y);
      PlugInOrder(c', t');
      if y == root {
        y := nil;
        assert Before(c') + InOrder(t') + After(c') == Before(c') + InOrder(t');
      } else {
        Up(h, root, nil, c', t', x', y);
        StepNodes(c', t');
        assert h[y].parent == y.parent;
        c', t' := c'.up, Mk(c'.d, t', c'.n, c'.red, c'.sib);
        NodeLinks(nodes, h, root, nil, c', t', y, y.parent);
      }
    }

    // ---------- rb_tree_delete ----------

    /** The assignments of rb_tree_delete that take out `y`, which is on side `d` of its parent. */
    method Bypass(y: Node, ghost d: Side) returns (x: Node)
      requires {y, y.left, y.right, y.parent, root} <= nodes
      requires (y == y.parent.left <==> d.L?) && (y.parent == root ==> d.L?)
      requires y != y.parent && y.left != y && y.right != y && y.left != y.parent && y.right != y.parent
      modifies this`nodes, nodes`left, nodes`right, nodes`parent
      ensures nodes == old(nodes) - {y} && x.parent == old(y.parent)
      ensures x == if old(y.left) == nil then old(y.right) else old(y.left)
      ensures Bypassed(old(Snap(nodes)), Snap(nodes), y, x.parent, x, d)
    {
      x := if y.left == nil then y.right else y.left;
      x.parent := y.parent;
      if root == x.parent {
        root.left := x;
      } else if y == y.parent.left {
        y.parent.left := x;
      } else {
        y.parent.right := x;
      }
      nodes := nodes - {y};
    }

    /** Hang the only child of `y`, or nil, where `y` was. */
    method Splice(y: Node, ghost c: Ctx, ghost t: Tree) returns (x: Node)
      requires Focus(c, t, y, y.parent) && t.T? && (t.l.Nil? || t.r.Nil?)
      modifies this`nodes, nodes`left, nodes`right, nodes`parent
      ensures nodes == old(nodes) - {y} && y !in nodes
      ensures Focus(c, Only(t), x, x.parent)
    {
      hide Focused, Only, Bypassed;
      ghost var h, p := Snap(nodes), y.parent;
      NodeLinks(nodes, h, root, nil, c, t, y, p);
      FocusLinks(nodes, h, root, nil, c, t, y, p);
      assert h[y] == Cell(y.left, y.right, y.parent, y.red) && h[p] == Cell(p.left, p.right, p.parent, p.red);
      x := Bypass(y, HoleSide(c));
      SpliceLinks(old(nodes), h, Snap(nodes), root, nil, c, t, y, p, x);
    }

    /** Splice `y` out and, when a black node is gone, repair. */
    method SpliceAndFix(y: Node, ghost c: Ctx, ghost t: Tree)
      requires Focus(c, t, y, y.parent) && t.T? && (t.l.Nil? || t.r.Nil?)
      requires RedBlack(Plug(c, t)) && !IsRed(Plug(c, t))
      modifies this`nodes, this`shape, nodes`left, nodes`right, nodes`parent, nodes`red
      ensures nodes == old(nodes) - {y} && y !in nodes
      ensures Focus(Top, shape, root.left, root) && RedBlack(shape) && !IsRed(shape)
      ensures InOrder(shape) == InOrder(Plug(c, Only(t)))
    {
      hide Focused, Short, Only, InOrder, Plug, RedBlack;
      NodeLinks(nodes, Snap(nodes), root, nil, c, t, y, y.parent);
      assert Snap(nodes)[y].red == y.red;
      SpliceBalance(c, t);
      var x := Splice(y, c, t);
      if !y.red {
        DeleteFixUp(x, c, Only(t));
      } else {
        shape := Plug(c, Only(t));
        ToTopFocused(nodes, Snap(nodes), root, nil, c, Only(t), x, x.parent);
        assert Snap(nodes)[root].left == root.left;
      }
    }

    /** The children and the parent of `z` now point to `y`. */
    method Adopt(z: Node, y: Node)
      requires {z, z.left, z.right, z.parent} <= nodes && y !in nodes
      requires z != z.parent && z.left != z && z.right != z && z.left != z.parent && z.right != z.parent
      modifies z.left`parent, z.right`parent, z.parent`left, z.parent`right
      ensures Adopted(old(Snap(nodes)), Snap(nodes), z, y)
    {
      z.right.parent := y;
      z.left.parent := y;
      if z == z.parent.left {
        z.parent.left := y;
      } else {
        z.parent.right := y;
      }
    }

    /** `y` takes over the pointers and the colour of `z`, whose children and parent now point to `y`. */
    method TakeOver(z: Node, y: Node)
      requires {z, z.left, z.right, z.parent} <= nodes && y !in nodes
      requires z != z.parent && z.left != z && z.right != z && z.left != z.parent && z.right != z.parent
      modifies this`nodes, y`left, y`right, y`parent, y`red
      modifies z.left`parent, z.right`parent, z.parent`left, z.parent`right
      ensures nodes == old(nodes) - {z} + {y} && y.parent == old(z.parent)
      ensures TakenOver(old(Snap(nodes)), Snap(nodes), z, y)
    {
      hide Adopted;
      ghost var h := Snap(nodes);
      y.left, y.right, y.parent, y.red := z.left, z.right, z.parent, z.red;
      assert Snap(nodes) == h;
      Adopt(z, y);
      ghost var h1 := Snap(nodes);
      nodes := nodes - {z} + {y};
      AdoptedElsewhere(h, h1, Snap(nodes), z, y);
    }

    /** Put `y` in the place and colour of `z`. */
    method Relink(z: Node, y: Node, ghost c: Ctx, ghost t: Tree)
      requires Focus(c, t, z, z.parent) && t.T? && y !in nodes
      modifies this`nodes, y`left, y`right, y`parent, y`red, nodes`left, nodes`right, nodes`parent
      ensures nodes == old(nodes) - {z} + {y}
      ensures Focus(c, t.(n := y), y, y.parent)
    {
      hide Focused, TakenOver;
      ghost var h, p := Snap(nodes), z.parent;
      NodeLinks(nodes, h, root, nil, c, t, z, p);
      assert h[z] == Cell(z.left, z.right, z.parent, z.red);
      TakeOver(z, y);
      RelinkFrom(old(nodes), h, Snap(nodes), root, nil, c, t, z, p, y);
      assert y.parent == p;
    }

    /** The relinking half of rb_tree_delete, for the `k`-th node of the repaired tree. */
    method Replace(z: Node, y: Node, ghost k: nat)
      requires Focus(Top, shape, root.left, root) && RedBlack(shape) && !IsRed(shape)
      requires k < |InOrder(shape)| && InOrder(shape)[k] == z && y !in nodes
      modifies this`nodes, this`shape, y`left, y`right, y`parent, y`red, nodes`left, nodes`right, nodes`parent
      ensures nodes == old(nodes) - {z} + {y}
      ensures Focus(Top, shape, root.left, root) && RedBlack(shape) && !IsRed(shape)
      ensures InOrder(shape) == old(InOrder(shape))[k := y]
    {
      hide Focused, InOrder, Plug, RedBlack, Distinct, Before, Nodes, CtxNodes;
      ShapeDistinct();
      IndexInside(k);
      assert Snap(nodes)[root].left == root.left by {
        FocusLinks(nodes, Snap(nodes), root, nil, Top, shape, root.left, root);
      }
      ghost var c, t := LocateFocused(nodes, Snap(nodes), root, nil, shape, root.left, z);
      IndexUnique(shape, c, t, k);
      RelinkBalance(c, t, y);
      RelinkOrder(c, t, y);
      assert Snap(nodes)[z].parent == z.parent;
      Relink(z, y, c, t);
      shape := Plug(c, t.(n := y));
      ToTopFocused(nodes, Snap(nodes), root, nil, c, t.(n := y), y, y.parent);
      assert Snap(nodes)[root].left == root.left;
    }

    /**
      rb_tree_delete: exactly `z` leaves the tree. Every other node stays, as the same
      object, in the same order; no key or info changes.
     */
    method Delete(z: Node)
      requires Valid() && z in nodes && z != root && z != nil
      modifies this`nodes, this`shape, nodes`left, nodes`right, nodes`parent, nodes`red
      ensures Valid() && nodes == old(nodes) - {z}
      ensures Removed(old(InOrder(shape)), InOrder(shape), z)
    {
      ghost var s := InOrder(shape);
      ghost var c, t := LocateFocused(nodes, Snap(nodes), root, nil, shape, root.left, z);
      assert Snap(nodes)[z].parent == z.parent;
      DeleteNode(z, c, t);
      RemovedSorted(comp, s, InOrder(shape), z);
    }

    method DeleteNode(z: Node, ghost c: Ctx, ghost t: Tree)
      requires Focus(c, t, z, z.parent) && t.T? && Plug(c, t) == shape
      requires Focus(Top, shape, root.left, root) && RedBlack(shape) && !IsRed(shape)
      modifies this`nodes, this`shape, nodes`left, nodes`right, nodes`parent, nodes`red
      ensures nodes == old(nodes) - {z}
      ensures Focus(Top, shape, root.left, root) && RedBlack(shape) && !IsRed(shape)
      ensures Removed(old(InOrder(shape)), InOrder(shape), z)
    {
      hide *;
      var y;
      ghost var c', t', k;
      ShapeDistinct();
      y, c', t', k := Victim(z, c, t);
      ghost var s := InOrder(shape);
      SpliceOrder(c', t');
      SpliceAndFix(y, c', t');
      if y != z {
        WithoutKeeps(s, k);
        Replace(z, y, k);
        SuccessorReplaces(s, Without(s, k + 1), InOrder(shape), k, z, y);
      } else {
        RemovedHere(s, InOrder(shape), z, k);
      }
    }

    lemma IndexInside(k: nat)
      requires Focus(Top, shape, root.left, root) && k < |InOrder(shape)|
      ensures InOrder(shape)[k] in nodes && InOrder(shape)[k] != root && InOrder(shape)[k] != nil
    {
      InOrderNodes(shape);
    }

    lemma ShapeDistinct()
      requires Focus(Top, shape, root.left, root)
      ensures Distinct(shape)
    {
    }

    /** The node rb_tree_delete takes out of the tree: `z` itself, or its successor when `z` has two children. */
    method Victim(z: Node, ghost c: Ctx, ghost t: Tree) returns (y: Node, ghost c': Ctx, ghost t': Tree, ghost k: nat)
      requires Focus(c, t, z, z.parent) && t.T? && Distinct(Plug(c, t))
      ensures y in nodes && Focus(c', t', y, y.parent) && t'.T? && (t'.l.Nil? || t'.r.Nil?)
      ensures Plug(c', t') == Plug(c, t)
      ensures var s, i := InOrder(Plug(c, t)), |Before(c')| + |InOrder(t'.l)|;
        k < |s| && s[k] == z && (y == z ==> i == k) && (y != z ==> i == k + 1 < |s| && s[i] == y)
    {
      hide Focused, InOrder, Plug, Distinct;
      k := |Before(c) + InOrder(t.l)|;
      NodeIndex(c, t);
      NodeLinks(nodes, Snap(nodes), root, nil, c, t, z, z.parent);
      assert Snap(nodes)[z] == Cell(z.left, z.right, z.parent, z.red);
      if z.left == nil || z.right == nil {
        y, c', t' := z, c, t;
      } else {
        y, c', t' := Successor(z, c, t);
        NodeLinks(nodes, Snap(nodes), root, nil, c', t', y, y.parent);
        VictimIndex(nodes, Snap(nodes), root, nil, c, t, c', t', y, y.parent);
      }
    }

    // ---------- rb_tree_query, rb_tree_insert, rb_tree_walk ----------

    /**
      rb_tree_query: a node whose key compares equal to `q`, or null when there is none.
      `cmps` counts the calls of the comparison function: at most 2 log2(n + 1).
     */
    method Query(q: int) returns (x: Node?, ghost cmps: nat)
      requires Valid()
      ensures x == null ==> forall i :: 0 <= i < |InOrder(shape)| ==> comp(InOrder(shape)[i].key, q) != 0
      ensures x != null ==> x in nodes && x in InOrder(shape) && comp(x.key, q) == 0
      ensures Pow2(cmps) <= (|InOrder(shape)| + 1) * (|InOrder(shape)| + 1)
    {
      var y := root.left;
      ghost var h, c, t, p := Snap(nodes), Top, shape, root;
      cmps := 0;
      InHeap(h, root, nil, Top, shape, y, root);
      while y != nil
        invariant SearchAt(comp, h, root, nil, shape, c, t, y, p, q, cmps)
        decreases t
      {
        SearchFound(comp, h, root, nil, shape, c, t, y, p, q, cmps);
        assert h[y] == Cell(y.left, y.right, y.parent, y.red);
        var v := comp(y.key, q);
        cmps := cmps + 1;
        if v == 0 {
          LogHeight(shape, cmps);
          return y, cmps;
        }
        c, t := SearchStep(comp, h, root, nil, shape, c, t, y, p, q, cmps - 1);
        p := y;
        if v > 0 {
          y := y.left;
        } else {
          y := y.right;
        }
      }
      SearchEnd(comp, shape, c, t, q);
      LogHeight(shape, cmps);
      return null, cmps;
    }

    /**
      rb_tree_insert: the data of a node with an equal key is replaced when there is one;
      otherwise a node is added. Keys that are pairwise unequal stay so.
     */
    method Insert(key: int, info: int) returns (node: Node)
      requires Valid()
      modifies this`nodes, this`shape, nodes`left, nodes`right, nodes`parent, nodes`red, nodes`info
      ensures Valid() && fresh(nodes - old(nodes))
      ensures node in InOrder(shape) && node.info == info && comp(node.key, key) == 0
      ensures forall n :: n in old(nodes) && n != node ==> n.info == old(n.info)
      ensures node in old(InOrder(shape)) <==>
        exists i :: 0 <= i < |old(InOrder(shape))| && comp(old(InOrder(shape))[i].key, key) == 0
      ensures if node in old(InOrder(shape)) then InOrder(shape) == old(InOrder(shape))
              else node.key == key && Inserted(comp, old(InOrder(shape)), InOrder(shape), node)
      ensures old(Strict(comp, InOrder(shape))) ==> Strict(comp, InOrder(shape))
    {
      hide Comparator, Sorted, Strict, Inserted, Focused, RedBlack, IsRed, InOrder;
      var found: Node?;
      ghost var cmps, s := 0, InOrder(shape);
      found, cmps := Query(key);
      if found != null {
        node := found;
        node.info := info;
        assert Snap(nodes) == old(Snap(nodes));
        assert exists k :: 0 <= k < |s| && s[k] == node;
      } else {
        node := Add(key, info);
        InsertedPresent(comp, s, InOrder(shape), node);
        if Strict(comp, s) { InsertedStrict(comp, s, InOrder(shape), node); }
        NotInOld(old(nodes), old(Snap(nodes)), root, nil, old(shape), old(root.left), node);
      }
    }

    /** InorderTreeWalk with the callback of extstruct.c, which appends key and info to two arrays. */
    method InorderTreeWalk(x: Node, keys: seq<int>, data: seq<int>, ghost c: Ctx, ghost t: Tree)
        returns (keys': seq<int>, data': seq<int>)
      requires Focus(c, t, x, x.parent) || (x == nil && t.Nil?)
      ensures keys' == keys + Keys(InOrder(t)) && data' == data + Infos(InOrder(t))
      decreases t
    {
      hide Rep, RepCtx, Separate, Nodes, CtxNodes, Distinct, CtxDistinct, Plug, RedBlack, RedBlackCtx;
      keys', data' := keys, data;
      if x != nil {
        ghost var h := Snap(nodes);
        FocusLinks(nodes, h, root, nil, c, t, x, x.parent);
        assert h[x] == Cell(x.left, x.right, x.parent, x.red);
        DownFocused(nodes, h, root, nil, c, t, x, x.parent, L);
        DownFocused(nodes, h, root, nil, c, t, x, x.parent, R);
        assert h[x.left].parent == x.left.parent && h[x.right].parent == x.right.parent;
        keys', data' := InorderTreeWalk(x.left, keys', data', DownCtx(c, t, L), t.l);
        assert data' == data + Infos(InOrder(t.l));
        keys', data' := keys' + [x.key], data' + [x.info];
        keys', data' := InorderTreeWalk(x.right, keys', data', DownCtx(c, t, R), t.r);
        assert keys' == keys + Keys(InOrder(t.l)) + [x.key] + Keys(InOrder(t.r));
        assert data' == data + Infos(InOrder(t.l)) + [x.info] + Infos(InOrder(t.r));
        WalkParts(InOrder(t.l), x, InOrder(t.r));
        MkInOrder(t);
        SeqAssoc(keys, Keys(InOrder(t.l)), [x.key], Keys(InOrder(t.r)));
        SeqAssoc(data, Infos(InOrder(t.l)), [x.info], Infos(InOrder(t.r)));
      } else {
        if t.T? {
          FocusLinks(nodes, Snap(nodes), root, nil, c, t, x, x.parent);
        }
        assert Keys(InOrder(t)) == [] && Infos(InOrder(t)) == [];
      }
    }

    /** rb_tree_walk: keys and infos in key order. */
    method Walk() returns (keys: seq<int>, data: seq<int>)
      requires Valid()
      ensures keys == Keys(InOrder(shape)) && data == Infos(InOrder(shape))
    {
      assert Snap(nodes)[root].left == root.left;
      InHeap(Snap(nodes), root, nil, Top, shape, root.left, root);
      assert root.left != nil ==> Snap(nodes)[root.left].parent == root.left.parent;
      keys, data := InorderTreeWalk(root.left, [], [], Top, shape);
    }
  }

  lemma VictimIndex(ns: set<Node>, h: Heap, root: Node, nil: Node, c: Ctx, t: Tree, c': Ctx, t': Tree, y: Node, p: Node)
    requires t.T? && Distinct(Plug(c, t)) && Focused(ns, h, root, nil, c', t', y, p) && t'.T?
    requires Plug(c', t') == Plug(c, t)
    requires Before(c') + InOrder(t'.l) == Before(c) + InOrder(t.l) + [t.n]
    ensures var s, k := InOrder(Plug(c, t)), |Before(c) + InOrder(t.l)|;
      k + 1 < |s| && s[k] == t.n && s[k + 1] == y && k + 1 == |Before(c')| + |InOrder(t'.l)| && y != t.n
  {
    SuccessorIndex(c, t, c', t');
    InOrderOnce(Plug(c, t));
  }

  lemma RemovedSorted(comp: (int, int) -> int, s: seq<Node>, s': seq<Node>, z: Node)
    requires Sorted(comp, s) && Removed(s, s', z)
    ensures Sorted(comp, s')
  {
    var k :| RemovedAt(s, s', z, k);
    forall i, j | 0 <= i < j < |s'|
      ensures comp(s'[i].key, s'[j].key) <= 0
    {
      assert s'[i] == s[if i < k then i else i + 1] && s'[j] == s[if j < k then j else j + 1];
    }
  }

  /** All keys equal to `q` are in the subtree `t` still to search. */
  ghost predicate Searching(comp: (int, int) -> int, shape: Tree, c: Ctx, t: Tree, q: int, cmps: nat) {
    && Plug(c, t) == shape && cmps + Height(t) <= Height(shape)
    && Below(comp, Before(c), q) && Above(comp, After(c), q)
  }

  ghost predicate Below(comp: (int, int) -> int, s: seq<Node>, q: int) {
    forall i :: 0 <= i < |s| ==> comp(s[i].key, q) < 0
  }

  ghost predicate Above(comp: (int, int) -> int, s: seq<Node>, q: int) {
    forall i :: 0 <= i < |s| ==> comp(s[i].key, q) > 0
  }

  lemma BelowConcat(comp: (int, int) -> int, a: seq<Node>, b: seq<Node>, q: int)
    requires Below(comp, a, q) && Below(comp, b, q)
    ensures Below(comp, a + b, q)
  {
  }

  lemma AboveConcat(comp: (int, int) -> int, a: seq<Node>, b: seq<Node>, q: int)
    requires Above(comp, a, q) && Above(comp, b, q)
    ensures Above(comp, a + b, q)
  {
  }

  ghost predicate SearchAt(comp: (int, int) -> int, h: Heap, root: Node, nil: Node, shape: Tree, c: Ctx, t: Tree,
          y: Node, p: Node, q: int, cmps: nat) {
    At(h, root, nil, c, t, y, p) && y in h && (y == nil <==> t.Nil?) && Searching(comp, shape, c, t, q, cmps)
  }

  lemma SearchEnd(comp: (int, int) -> int, shape: Tree, c: Ctx, t: Tree, q: int)
    requires Plug(c, t) == shape && t.Nil?
    requires Below(comp, Before(c), q) && Above(comp, After(c), q)
    ensures forall i :: 0 <= i < |InOrder(shape)| ==> comp(InOrder(shape)[i].key, q) != 0
  {
    PlugInOrder(c, t);
  }

  lemma SearchFound(comp: (int, int) -> int, h: Heap, root: Node, nil: Node, shape: Tree, c: Ctx, t: Tree,
          y: Node, p: Node, q: int, cmps: nat)
    requires y != nil && SearchAt(comp, h, root, nil, shape, c, t, y, p, q, cmps)
    ensures t.T? && y == t.n && y in InOrder(shape) && cmps + 1 <= Height(shape)
  {
    NodeIndex(c, t);
  }

  lemma SearchStep(comp: (int, int) -> int, h: Heap, root: Node, nil: Node, shape: Tree, c: Ctx, t: Tree,
          y: Node, p: Node, q: int, cmps: nat)
    returns (c': Ctx, t': Tree)
    requires Comparator(comp) && Sorted(comp, InOrder(shape)) && y != nil && comp(y.key, q) != 0
    requires SearchAt(comp, h, root, nil, shape, c, t, y, p, q, cmps)
    ensures t.T? && (t' == t.l || t' == t.r)
    ensures SearchAt(comp, h, root, nil, shape, c', t', if comp(y.key, q) > 0 then h[y].left
      else h[y].right, y, q, cmps + 1)
  {
    var d := if comp(y.key, q) > 0 then L else R;
    DescentLinks(h, root, nil, c, t, y, d);
    c', t' := Step(c, d, y, t.red, if d.L? then t.r else t.l), if d.L? then t.l else t.r;
    SearchSplit(comp, c, t, q);
    SearchKeys(comp, shape, c, t, q, cmps);
    assert t'.T? ==> t'.n in Nodes(t');
  }

  lemma SearchKeys(comp: (int, int) -> int, shape: Tree, c: Ctx, t: Tree, q: int, cmps: nat)
    requires t.T? && Searching(comp, shape, c, t, q, cmps)
    requires comp(t.n.key, q) > 0 ==> Above(comp, InOrder(t.r), q)
    requires comp(t.n.key, q) < 0 ==> Below(comp, InOrder(t.l), q)
    ensures comp(t.n.key, q) > 0 ==> Searching(comp, shape, Step(c, L, t.n, t.red, t.r), t.l, q, cmps + 1)
    ensures comp(t.n.key, q) < 0 ==> Searching(comp, shape, Step(c, R, t.n, t.red, t.l), t.r, q, cmps + 1)
  {
    if comp(t.n.key, q) > 0 {
      AboveConcat(comp, [t.n], InOrder(t.r), q);
      AboveConcat(comp, [t.n] + InOrder(t.r), After(c), q);
    } else if comp(t.n.key, q) < 0 {
      BelowConcat(comp, Before(c), InOrder(t.l), q);
      BelowConcat(comp, Before(c) + InOrder(t.l), [t.n], q);
    }
  }

  lemma SearchSplit(comp: (int, int) -> int, c: Ctx, t: Tree, q: int)
    requires Comparator(comp) && Sorted(comp, InOrder(Plug(c, t))) && t.T?
    ensures comp(t.n.key, q) > 0 ==> Above(comp, InOrder(t.r), q)
    ensures comp(t.n.key, q) < 0 ==> Below(comp, InOrder(t.l), q)
  {
    PlugInOrder(c, t);
    QueryOrder(comp, Before(c), InOrder(t.l), t.n, InOrder(t.r), After(c), q);
  }

  /** The keys on the far side of `n` are as far from `q` as the key of `n` itself. */
  lemma QueryOrder(comp: (int, int) -> int, before: seq<Node>, l: seq<Node>, n: Node, r: seq<Node>,
          after: seq<Node>, q: int)
    requires Comparator(comp) && Sorted(comp, before + (l + [n] + r) + after)
    ensures comp(n.key, q) > 0 ==> Above(comp, r, q)
    ensures comp(n.key, q) < 0 ==> Below(comp, l, q)
  {
    var s, k := before + (l + [n] + r) + after, |before| + |l|;
    assert s[k] == n;
    forall i | 0 <= i < |r|
      ensures comp(n.key, q) > 0 ==> comp(r[i].key, q) > 0
    {
      assert s[k + 1 + i] == r[i];
      assert comp(n.key, r[i].key) <= 0;
      assert comp(r[i].key, q) <= 0 ==> comp(n.key, q) <= 0;
    }
    forall i | 0 <= i < |l|
      ensures comp(n.key, q) < 0 ==> comp(l[i].key, q) < 0
    {
      assert s[|before| + i] == l[i];
      assert comp(l[i].key, n.key) <= 0;
      assert comp(q, l[i].key) <= 0 ==> comp(q, n.key) <= 0;
      assert comp(n.key, q) < 0 ==> comp(q, n.key) > 0;
    }
  }

  /** Every key compares less than each later one. */
  ghost predicate Strict(comp: (int, int) -> int, s: seq<Node>) {
    forall i, j :: 0 <= i < j < |s| ==> comp(s[i].key, s[j].key) < 0
  }

  lemma InsertedPresent(comp: (int, int) -> int, s: seq<Node>, s': seq<Node>, z: Node)
    requires Comparator(comp) && Inserted(comp, s, s', z)
    ensures z in s' && comp(z.key, z.key) == 0
  {
    var k :| InsertedAt(comp, s, s', z, k);
    assert s'[k] == z;
  }

  lemma InsertedStrict(comp: (int, int) -> int, s: seq<Node>, s': seq<Node>, z: Node)
    requires Comparator(comp) && Strict(comp, s) && Inserted(comp, s, s', z)
    requires forall i :: 0 <= i < |s| ==> comp(s[i].key, z.key) != 0
    ensures Strict(comp, s')
  {
    var k :| InsertedAt(comp, s, s', z, k);
    var before, after := s[..k], s[k..];
    assert s'[k] == z;
    forall i | 0 <= i < k
      ensures comp(before[i].key, z.key) < 0
    {
      assert before[i] in before && before[i] == s[i];
    }
    StrictWith(comp, s, before, z, after);
  }

  lemma StrictWith(comp: (int, int) -> int, s: seq<Node>, before: seq<Node>, z: Node, after: seq<Node>)
    requires Strict(comp, s) && s == before + after
    requires forall i :: 0 <= i < |before| ==> comp(before[i].key, z.key) < 0
    requires forall n :: n in after ==> comp(z.key, n.key) < 0
    ensures Strict(comp, before + [z] + after)
  {
    var k, s' := |before|, before + [z] + after;
    forall i, j | 0 <= i < j < |s'|
      ensures comp(s'[i].key, s'[j].key) < 0
    {
      if i == k {
        assert s'[j] in after;
      } else if j != k {
        assert s'[i] == s[if i < k then i else i - 1] && s'[j] == s[if j < k then j else j - 1];
      }
    }
  }

  lemma NotInOld(ns: set<Node>, h: Heap, root: Node, nil: Node, shape: Tree, x: Node, z: Node)
    requires Focused(ns, h, root, nil, Top, shape, x, root) && z !in ns
    ensures z !in InOrder(shape)
  {
    InOrderNodes(shape);
  }

  ghost function Keys(s: seq<Node>): seq<int> {
    seq(|s|, i requires 0 <= i < |s| => s[i].key)
  }

  ghost function Infos(s: seq<Node>): (infos: seq<int>)
    reads s
    ensures |infos| == |s|
  {
    seq(|s|, i requires 0 <= i < |s| reads s => s[i].info)
  }

  lemma MkInOrder(t: Tree)
    requires t.T?
    ensures InOrder(t) == InOrder(t.l) + [t.n] + InOrder(t.r)
  {
  }

  lemma PaintFocused(ns: set<Node>, h: Heap, root: Node, nil: Node, c: Ctx, t: Tree, x: Node, p: Node, red: bool)
    requires Focused(ns, h, root, nil, c, t, x, p) && (t.T? || !red)
    ensures x in h && Focused(ns, Paint(h, x, red), root, nil, c, Painted(t, red), x, p)
    ensures InOrder(Painted(t, red)) == InOrder(t)
  {
    PaintFocus(h, root, nil, c, t, x, p, red);
  }

  lemma SeqAssoc<X>(a: seq<X>, b: seq<X>, c: seq<X>, d: seq<X>)
    ensures a + b + c + d == a + (b + c + d)
  {
  }

  lemma WalkParts(a: seq<Node>, x: Node, b: seq<Node>)
    ensures Keys(a + [x] + b) == Keys(a) + [x.key] + Keys(b)
    ensures Infos(a + [x] + b) == Infos(a) + [x.info] + Infos(b)
  {
  }

  lemma ClimbSide(h: Heap, root: Node, nil: Node, c: Ctx, t: Tree, x: Node, p: Node)
    requires At(h, root, nil, c, t, x, p) && t.T?
    ensures p in h && (x == h[p].right <==> c.Step? && c.d.R?)
  {
    HoleIsOneSide(h, root, nil, c, t, x, p);
  }

  lemma ClimbOrder(c: Ctx, t: Tree)
    requires c.Step? && c.d.R?
    ensures Before(c.up) + InOrder(Mk(c.d, t, c.n, c.red, c.sib)) == Before(c) + InOrder(t)
  {
  }

  /**
    The state of the descent: `x` roots the subtree `t` still to search, and all nodes outside it
    are on the right side of `z`.
   */
  ghost predicate Descent(comp: (int, int) -> int, h: Heap, root: Node, nil: Node, shape: Tree, c: Ctx, t: Tree,
          x: Node, y: Node, z: Node) {
    && At(h, root, nil, c, t, x, y) && Plug(c, t) == shape
    && x in h && y in h && h.Keys == Nodes(t) + CtxNodes(c) + {root, nil}
    && Fits(comp, Before(c), After(c), z)
    && (c.Step? ==> (c.d.L? <==> comp(y.key, z.key) > 0))
  }

  lemma DescentStarts(comp: (int, int) -> int, ns: set<Node>, h: Heap, root: Node, nil: Node, shape: Tree, x: Node,
          z: Node)
    requires Focused(ns, h, root, nil, Top, shape, x, root) && h.Keys == ns
    ensures root in ns && Descent(comp, h, root, nil, shape, Top, shape, x, root, z)
  {
    InHeap(h, root, nil, Top, shape, x, root);
  }

  /** At the end of the descent the place is empty, and the last comparison says on which side of `y` it is. */
  lemma DescentEnds(comp: (int, int) -> int, ns: set<Node>, h: Heap, root: Node, nil: Node, shape: Tree, c: Ctx,
          y: Node, z: Node)
    requires Descent(comp, h, root, nil, shape, c, Nil, nil, y, z) && h.Keys == ns
    ensures Focused(ns, h, root, nil, c, Nil, nil, y) && Plug(c, Nil) == shape && y in ns
    ensures Fits(comp, Before(c), After(c), z)
    ensures y == root || comp(y.key, z.key) > 0 <==> HoleSide(c).L?
  {
    hide Fits, Before, After, Plug;
  }

  lemma DescentStep(comp: (int, int) -> int, h: Heap, root: Node, nil: Node, shape: Tree, c: Ctx, t: Tree,
          x: Node, z: Node, d: Side)
    requires t.T? && x in h && Descent(comp, h, root, nil, shape, c, t, x, h[x].parent, z)
    requires Comparator(comp) && Sorted(comp, InOrder(shape))
    requires d.L? <==> comp(x.key, z.key) > 0
    ensures Descent(comp, h, root, nil, shape, Step(c, d, x, t.red, if d.L? then t.r else t.l), if d.L? then t.l
      else t.r, h[x].Child(d), x, z)
  {
    DescentOrder(comp, shape, c, t, z);
    DescentLinks(h, root, nil, c, t, x, d);
  }

  lemma DescentLinks(h: Heap, root: Node, nil: Node, c: Ctx, t: Tree, x: Node, d: Side)
    requires x in h && At(h, root, nil, c, t, x, h[x].parent) && t.T?
    ensures var c', t' := Step(c, d, x, t.red, if d.L? then t.r else t.l), if d.L? then t.l else t.r;
      && At(h, root, nil, c', t', h[x].Child(d), x) && h[x].Child(d) in h && Plug(c', t') == Plug(c, t)
      && Nodes(t') + CtxNodes(c') == Nodes(t) + CtxNodes(c)
  {
    Down(h, root, nil, c, t, x, h[x].parent, d);
    var c', t' := Step(c, d, x, t.red, if d.L? then t.r else t.l), if d.L? then t.l else t.r;
    InHeap(h, root, nil, c', t', h[x].Child(d), x);
    assert Mk(d, t', x, t.red, c'.sib) == t;
  }

  lemma DescentOrder(comp: (int, int) -> int, shape: Tree, c: Ctx, t: Tree, z: Node)
    requires t.T? && Plug(c, t) == shape
    requires Comparator(comp) && Sorted(comp, InOrder(shape))
    ensures comp(t.n.key, z.key) > 0 ==> forall m :: m in InOrder(t.r) ==> comp(m.key, z.key) > 0
    ensures comp(t.n.key, z.key) <= 0 ==> forall m :: m in InOrder(t.l) ==> comp(m.key, z.key) <= 0
  {
    PlugInOrder(c, t);
    DescendOrder(comp, Before(c), InOrder(t.l), t.n, InOrder(t.r), After(c), z);
  }

  /** Going left past `n` leaves only greater keys behind on the right, and the other way round. */
  lemma DescendOrder(comp: (int, int) -> int, before: seq<Node>, l: seq<Node>, n: Node, r: seq<Node>,
          after: seq<Node>, z: Node)
    requires Comparator(comp) && Sorted(comp, before + (l + [n] + r) + after)
    ensures comp(n.key, z.key) > 0 ==> forall m :: m in r ==> comp(m.key, z.key) > 0
    ensures comp(n.key, z.key) <= 0 ==> forall m :: m in l ==> comp(m.key, z.key) <= 0
  {
    var s := before + (l + [n] + r) + after;
    var k := |before| + |l|;
    assert s[k] == n;
    forall m | m in r
      ensures comp(n.key, m.key) <= 0
    {
      var i :| 0 <= i < |r| && r[i] == m;
      assert s[k + 1 + i] == m;
    }
    forall m | m in l
      ensures comp(m.key, n.key) <= 0
    {
      var i :| 0 <= i < |l| && l[i] == m;
      assert s[|before| + i] == m;
    }
  }

  /** `s'` is `s` with `z` put after every node that compares less or equal and before every greater one. */
  ghost predicate Inserted(comp: (int, int) -> int, s: seq<Node>, s': seq<Node>, z: Node) {
    exists k :: InsertedAt(comp, s, s', z, k)
  }

  ghost predicate InsertedAt(comp: (int, int) -> int, s: seq<Node>, s': seq<Node>, z: Node, k: int) {
    0 <= k <= |s| && s' == s[..k] + [z] + s[k..] && Fits(comp, s[..k], s[k..], z)
  }

  ghost predicate Fits(comp: (int, int) -> int, before: seq<Node>, after: seq<Node>, z: Node) {
    && (forall n :: n in before ==> comp(n.key, z.key) <= 0)
    && (forall n :: n in after ==> comp(n.key, z.key) > 0)
  }

  lemma SortedInsert(comp: (int, int) -> int, c: Ctx, shape: Tree, z: Node)
    requires Comparator(comp) && Sorted(comp, InOrder(shape)) && Plug(c, Nil) == shape
    requires Fits(comp, Before(c), After(c), z)
    ensures Sorted(comp, Before(c) + [z] + After(c))
    ensures Inserted(comp, InOrder(shape), Before(c) + [z] + After(c), z)
  {
    hide Sorted, Fits, Comparator, Before, After, Plug;
    PlugInOrder(c, Nil);
    var s, k := InOrder(shape), |Before(c)|;
    assert s == Before(c) + After(c) && s[..k] == Before(c) && s[k..] == After(c);
    assert InsertedAt(comp, s, Before(c) + [z] + After(c), z, k);
    SortedWith(comp, Before(c), z, After(c));
  }

  lemma SortedWith(comp: (int, int) -> int, before: seq<Node>, z: Node, after: seq<Node>)
    requires Comparator(comp) && Sorted(comp, before + after) && Fits(comp, before, after, z)
    ensures Sorted(comp, before + [z] + after)
  {
    var s, s' := before + after, before + [z] + after;
    forall i, j | 0 <= i < j < |s'|
      ensures comp(s'[i].key, s'[j].key) <= 0
    {
      var k := |before|;
      if j == k {
        assert s'[i] in before;
      } else if i == k {
        assert s'[j] in after;
      } else {
        assert s'[i] == s[if i < k then i else i - 1] && s'[j] == s[if j < k then j else j - 1];
      }
    }
  }

  lemma Attach(ns: set<Node>, h: Heap, h': Heap, root: Node, nil: Node, c: Ctx, y: Node, z: Node)
    requires Focused(ns, h, root, nil, c, Nil, nil, y) && z !in h && h'.Keys == h.Keys + {z}
    requires y in h && h'[y] == h[y].WithChild(HoleSide(c), z)
    requires forall n :: n in h && n != y ==> h'[n] == h[n]
    requires h'[z] == Cell(nil, nil, y, false)
    requires ns <= h.Keys
    ensures Focused(ns + {z}, h', root, nil, c, T(Nil, z, false, Nil), z, y)
  {
    CtxRefill(h, h', root, nil, c, nil, y, z);
  }
}
