/** The conditions the two repair loops keep, stated on shapes only. */
module RbRepair {
  import opened RbShape

  // ---------- insertion: a red node that may sit below a red parent ----------

  ghost predicate AddInv(c: Ctx, t: Tree) {
    IsRed(t) && RedBlack(t) && RedBlackCtx(c, BlackHeight(t))
  }

  ghost predicate RedParent(c: Ctx) { c.Step? && c.red }

  lemma AddRecolour(c: Ctx, t: Tree)
    requires AddInv(c, t) && RedParent(c)
    ensures c.up.Step? && !c.up.red
    ensures IsRed(c.up.sib) ==>
      AddInv(c.up.up, Mk(c.up.d, Mk(c.d, t, c.n, false, c.sib), c.up.n, true, Painted(c.up.sib, false)))
  {
    var parent := Mk(c.d, t, c.n, false, c.sib);
    assert RedBlack(parent) && BlackHeight(parent) == BlackHeight(t) + 1;
    var k := BlackHeight(t) + Black(c.red);
    assert RedBlackCtx(c.up, k);
    if IsRed(c.up.sib) {
      var uncle := Painted(c.up.sib, false);
      assert RedBlack(uncle) && BlackHeight(uncle) == k + 1;
      assert RedBlackCtx(c.up.up, k + Black(c.up.red));
    }
  }

  lemma RecolourSame(c: Ctx, t: Tree)
    requires c.Step? && c.up.Step?
    ensures var t' := Mk(c.up.d, Mk(c.d, t, c.n, false, c.sib), c.up.n, true, Painted(c.up.sib, false));
      && InOrder(Plug(c.up.up, t')) == InOrder(Plug(c, t))
      && Nodes(t') + CtxNodes(c.up.up) == Nodes(t) + CtxNodes(c)
  {
    var parent, parent' := Mk(c.d, t, c.n, c.red, c.sib), Mk(c.d, t, c.n, false, c.sib);
    assert InOrder(parent') == InOrder(parent) && Nodes(parent') == Nodes(parent) == Nodes(t) + {c.n} + Nodes(c.sib);
    var sib := Painted(c.up.sib, false);
    assert InOrder(sib) == InOrder(c.up.sib) && Nodes(sib) == Nodes(c.up.sib);
    var t', t0 := Mk(c.up.d, parent', c.up.n, true, sib), Mk(c.up.d, parent, c.up.n, c.up.red, c.up.sib);
    assert InOrder(t') == InOrder(t0) && Nodes(t') == Nodes(t0) == Nodes(parent) + {c.up.n} + Nodes(sib);
    PlugInOrder(c.up.up, t');
    PlugInOrder(c.up.up, t0);
    assert Plug(c, t) == Plug(c.up, parent) == Plug(c.up.up, t0);
  }

  lemma TurnNodes(c: Ctx, d: Side, near: Tree, x: Node, far: Tree)
    requires c.Step? && c.d == d.Opp()
    ensures var t, c', t' := Mk(d, near, x, true, far), Step(c.up, d, x, true, far), Mk(d, c.sib, c.n, true, near);
      && Nodes(t') + CtxNodes(c') == Nodes(t) + CtxNodes(c)
      && (c.red ==> InOrder(Plug(c', t')) == InOrder(Plug(c, t)))
      && Mk(c.d, t, c.n, c.red, c.sib) == Mk(d, c.sib, c.n, c.red, t)
  {
    var t, t' := Mk(d, near, x, true, far), Mk(d, c.sib, c.n, true, near);
    RotateNodes(d, c.sib, c.n, c.red, near, x, true, far);
    RotateInOrder(d, c.sib, c.n, true, near, x, true, far);
    PlugInOrder(c.up, Mk(d, t', x, true, far));
    PlugInOrder(c.up, Mk(d, c.sib, c.n, true, t));
    assert Nodes(t) == Nodes(near) + {x} + Nodes(far) && Nodes(t') == Nodes(c.sib) + {c.n} + Nodes(near);
  }

  lemma LiftLinks(h: Heap, root: Node, nil: Node, c: Ctx, t: Tree, x: Node, p: Node)
    requires At(h, root, nil, c, t, x, p) && t.T? && c.Step? && c.up.Step? && c.d == c.up.d
    ensures x in h && p in h && p == c.n && h[p].parent == c.up.n && c.up.n in h && c.up.n != p && h[x].parent == p
    ensures var h', o := Paint(Paint(h, p, false), c.up.n, true), c.d.Opp();
      At(h', root, nil, c.up.up, Mk(o, c.up.sib, c.up.n, true, Mk(o, c.sib, p, false, t)), c.up.n, h'[c.up.n].parent)
  {
    PaintAbove(h, root, nil, c, t, x, p, false);
    var h1, t1 := Paint(h, p, false), Mk(c.d, t, c.n, false, c.sib);
    Up(h1, root, nil, c.(red := false), t, x, p);
    PaintAbove(h1, root, nil, c.up, t1, p, c.up.n, true);
    Up(Paint(h1, c.up.n, true), root, nil, c.up.(red := true), t1, p, c.up.n);
    InHeap(h, root, nil, c, t, x, p);
  }

  lemma LiftNodes(c: Ctx, t: Tree)
    requires c.Step? && c.up.Step? && c.d == c.up.d
    ensures var o, c' := c.d.Opp(), Step(c.up.up, c.d, c.n, false, Mk(c.d.Opp(), c.up.sib, c.up.n, true, c.sib));
      && Nodes(t) + CtxNodes(c') == Nodes(t) + CtxNodes(c)
      && Nodes(Mk(o, c.up.sib, c.up.n, true, Mk(o, c.sib, c.n, false, t))) + CtxNodes(c.up.up) == Nodes(t) + CtxNodes(c)
  {
    var o := c.d.Opp();
    assert Nodes(Mk(o, c.up.sib, c.up.n, true, c.sib)) == Nodes(c.up.sib) + {c.up.n} + Nodes(c.sib);
    assert Nodes(Mk(o, c.sib, c.n, false, t)) == Nodes(c.sib) + {c.n} + Nodes(t);
  }

  lemma LiftOrder(c: Ctx, t: Tree)
    requires c.Step? && c.up.Step? && c.d == c.up.d
    ensures var c' := Step(c.up.up, c.d, c.n, false, Mk(c.d.Opp(), c.up.sib, c.up.n, true, c.sib));
      InOrder(Plug(c', t)) == InOrder(Plug(c, t))
  {
    var o := c.d.Opp();
    RotateInOrder(o, c.up.sib, c.up.n, c.up.red, c.sib, c.n, c.red, t);
    var t0 := Mk(o, c.up.sib, c.up.n, c.up.red, Mk(o, c.sib, c.n, c.red, t));
    var t' := Mk(o, Mk(o, c.up.sib, c.up.n, true, c.sib), c.n, false, t);
    assert InOrder(t') == InOrder(Mk(o, Mk(o, c.up.sib, c.up.n, c.up.red, c.sib), c.n, c.red, t));
    PlugInOrder(c.up.up, t0);
    PlugInOrder(c.up.up, t');
    assert Plug(c, t) == Plug(c.up, Mk(c.d, t, c.n, c.red, c.sib)) == Plug(c.up.up, t0);
  }

  /** The pointer tests of rb_tree_add tell which of the two mirrored branches applies. */
  lemma AddSides(h: Heap, root: Node, nil: Node, c: Ctx, t: Tree, x: Node, p: Node)
    requires At(h, root, nil, c, t, x, p) && AddInv(c, t) && RedParent(c)
    ensures x in h && h[x].parent == p && p in h && p == c.n && c.up.Step? && !c.up.red && h[p].parent == c.up.n
    ensures c.up.n in h
    ensures var g := h[c.up.n];
      && (p == g.left <==> c.up.d.L?)
      && g.Child(c.up.d.Opp()) in h && (h[g.Child(c.up.d.Opp())].red <==> IsRed(c.up.sib))
      && (IsRed(c.up.sib) ==> g.Child(c.up.d.Opp()) == c.up.sib.n)
      && (x == h[p].left <==> c.d.L?) && (x == h[p].right <==> c.d.R?)
  {
    AddRecolour(c, t);
    HoleIsOneSide(h, root, nil, c, t, x, p);
    Up(h, root, nil, c, t, x, p);
    HoleIsOneSide(h, root, nil, c.up, Mk(c.d, t, c.n, c.red, c.sib), p, c.up.n);
    InHeap(h, root, nil, c.up, Mk(c.d, t, c.n, c.red, c.sib), p, c.up.n);
  }

  lemma ParentColour(h: Heap, root: Node, nil: Node, c: Ctx, t: Tree, x: Node, p: Node)
    requires At(h, root, nil, c, t, x, p)
    ensures x in h && p in h && (h[p].red <==> RedParent(c))
  {
  }

  lemma AddStart(h: Heap, root: Node, nil: Node, c: Ctx, shape: Tree, x: Node)
    requires x in h && At(h, root, nil, c, T(Nil, x, false, Nil), x, h[x].parent)
    requires Plug(c, Nil) == shape && RedBlack(shape) && !IsRed(shape)
    ensures At(Paint(h, x, true), root, nil, c, T(Nil, x, true, Nil), x, h[x].parent)
    ensures AddInv(c, T(Nil, x, true, Nil))
    ensures InOrder(shape) == Before(c) + After(c)
    ensures InOrder(Plug(c, T(Nil, x, true, Nil))) == Before(c) + [x] + After(c)
  {
    PaintFocus(h, root, nil, c, T(Nil, x, false, Nil), x, h[x].parent, true);
    UnplugRedBlack(c, Nil);
    PlugInOrder(c, Nil);
    PlugInOrder(c, T(Nil, x, true, Nil));
    assert InOrder(T(Nil, x, true, Nil)) == [x];
    assert Before(c) + [] + After(c) == Before(c) + After(c);
  }

  lemma RecolourLinks(h: Heap, root: Node, nil: Node, c: Ctx, t: Tree, x: Node, p: Node)
    requires At(h, root, nil, c, t, x, p) && c.Step? && c.up.Step? && c.up.sib.T?
    ensures x in h && p in h && p == c.n && h[p].parent == c.up.n && h[p].parent in h && c.up.sib.n in h && c.up.n != p
    ensures var h' := Paint(Paint(Paint(h, p, false), c.up.sib.n, false), c.up.n, true);
      At(h', root, nil, c.up.up,
         Mk(c.up.d, Mk(c.d, t, c.n, false, c.sib), c.up.n, true, Painted(c.up.sib, false)), c.up.n, h'[c.up.n].parent)
  {
    PaintAbove(h, root, nil, c, t, x, p, false);
    var h1 := Paint(h, p, false);
    var c1, t1 := c.up, Mk(c.d, t, c.n, false, c.sib);
    Up(h1, root, nil, c.(red := false), t, x, p);
    PaintSibling(h1, root, nil, c1, t1, p, c1.n, false);
    var h2, c2 := Paint(h1, c1.sib.n, false), c1.(sib := Painted(c1.sib, false));
    PaintAbove(h2, root, nil, c2, t1, p, c1.n, true);
    Up(Paint(h2, c1.n, true), root, nil, c2.(red := true), t1, p, c1.n);
    InHeap(h, root, nil, c, t, x, p);
  }

  lemma AddInner(c: Ctx, d: Side, a: Tree, x: Node, e: Tree)
    requires AddInv(c, Mk(d, a, x, true, e)) && RedParent(c) && c.d == d.Opp()
    ensures AddInv(Step(c.up, d, x, true, e), Mk(d, c.sib, c.n, true, a))
  {
  }

  lemma AddOuter(c: Ctx, t: Tree)
    requires AddInv(c, t) && RedParent(c) && c.up.Step? && !IsRed(c.up.sib)
    ensures AddInv(Step(c.up.up, c.d, c.n, false, Mk(c.d.Opp(), c.up.sib, c.up.n, true, c.sib)), t)
  {
    var k := BlackHeight(t) + Black(c.red);
    assert RedBlackCtx(c.up, k);
    assert RedBlackCtx(c.up.up, k + Black(c.up.red));
    var sib := Mk(c.d.Opp(), c.up.sib, c.up.n, true, c.sib);
    assert RedBlack(sib) && BlackHeight(sib) == k;
  }

  lemma AddDone(c: Ctx, t: Tree)
    requires AddInv(c, t) && !RedParent(c)
    ensures RedBlack(Painted(Plug(c, t), false))
  {
    if c.Step? {
      PlugRedBlack(c, t);
    }
  }
}
