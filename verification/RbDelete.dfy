/**
  Deletion on shapes and snapshots: the four cases of RBDeleteFixUp, splicing a node out, and
  putting a node in another's place.
 */
module RbDelete {
  import opened Sequences
  import opened RbShape

  /** The subtree in the hole is one black node short of what the context expects; its own root may be red. */
  ghost predicate Short(c: Ctx, t: Tree) {
    RedBlack(Painted(t, false)) && RedBlackCtx(c, BlackHeight(t) + 1)
  }

  // ---------- focus on the sibling ----------

  lemma Sibling(h: Heap, root: Node, nil: Node, c: Ctx, t: Tree, x: Node, p: Node)
    requires At(h, root, nil, c, t, x, p) && c.Step?
    ensures p in h && At(h, root, nil, Step(c.up, c.d.Opp(), c.n, c.red, t), c.sib, h[p].Child(c.d.Opp()), p)
    ensures h[p].Child(c.d) == x && (c.sib.T? ==> h[p].Child(c.d.Opp()) == c.sib.n && c.sib.n in h)
  {
  }

  ghost function WithSub(t: Tree, d: Side, s: Tree): Tree
    requires t.T?
  {
    if d.L? then t.(l := s) else t.(r := s)
  }

  /** Recolour a child of the sibling. */
  lemma PaintNiece(h: Heap, root: Node, nil: Node, c: Ctx, t: Tree, x: Node, p: Node, s: Side, red: bool)
    requires At(h, root, nil, c, t, x, p) && c.Step? && c.sib.T? && Sub(c.sib, s).T?
    ensures var niece := Sub(c.sib, s);
      && c.sib.n in h && h[c.sib.n].Child(s) == niece.n && niece.n in h
      && At(Paint(h, niece.n, red), root, nil, c.(sib := WithSub(c.sib, s, Painted(niece, red))), t, x, p)
  {
    Sibling(h, root, nil, c, t, x, p);
    var c1, w := Step(c.up, c.d.Opp(), c.n, c.red, t), c.sib.n;
    Down(h, root, nil, c1, c.sib, w, p, s);
    var niece := Sub(c.sib, s);
    var c2 := Step(c1, s, w, c.sib.red, Sub(c.sib, s.Opp()));
    assert At(h, root, nil, c2, niece, h[w].Child(s), w);
    PaintFocus(h, root, nil, c2, niece, niece.n, w, red);
    var h' := Paint(h, niece.n, red);
    Up(h', root, nil, c2, Painted(niece, red), niece.n, w);
    assert Mk(s, Painted(niece, red), w, c.sib.red, Sub(c.sib, s.Opp())) == WithSub(c.sib, s, Painted(niece, red));
    assert niece.n != w && h'[w].parent == p;
    Sibling(h', root, nil, c1, WithSub(c.sib, s, Painted(niece, red)), w, p);
  }

  // ---------- the shape side of the four cases ----------

  lemma ShortSibling(c: Ctx, t: Tree)
    requires Short(c, t) && c.Step?
    ensures c.sib.T? && BlackHeight(c.sib) == BlackHeight(t) + 1
    ensures IsRed(c.sib) ==> !c.red && c.sib.l.T? && c.sib.r.T? && !IsRed(c.sib.l) && !IsRed(c.sib.r)
    ensures c.sib == Mk(c.d, Sub(c.sib, c.d), c.sib.n, c.sib.red, Sub(c.sib, c.d.Opp()))
  {
  }

  ghost function Case1Ctx(c: Ctx): Ctx
    requires c.Step? && c.sib.T?
  {
    Step(Step(c.up, c.d, c.sib.n, false, Sub(c.sib, c.d.Opp())), c.d, c.n, true, Sub(c.sib, c.d))
  }

  lemma Case1(c: Ctx, t: Tree)
    requires Short(c, t) && c.Step? && IsRed(c.sib)
    ensures c.sib.T? && Short(Case1Ctx(c), t) && !IsRed(Case1Ctx(c).sib)
  {
    ShortSibling(c, t);
    assert RedBlackCtx(c.up, BlackHeight(t) + 1 + Black(c.red));
  }

  ghost function Case2Tree(c: Ctx, t: Tree): Tree
    requires c.Step?
  {
    Mk(c.d, t, c.n, c.red, Painted(c.sib, true))
  }

  lemma Case2(c: Ctx, t: Tree)
    requires Short(c, t) && c.Step? && !IsRed(t) && !IsRed(c.sib)
    requires c.sib.T? && !IsRed(c.sib.l) && !IsRed(c.sib.r)
    ensures Short(c.up, Case2Tree(c, t)) && (IsRed(Case2Tree(c, t)) <==> c.red)
  {
    var w := Painted(c.sib, true);
    assert RedBlack(w) && BlackHeight(w) == BlackHeight(t);
    assert RedBlackCtx(c.up, BlackHeight(t) + 1 + Black(c.red));
  }

  /** The near niece `z` rises over the sibling. */
  ghost function Case3Sib(c: Ctx): Tree
    requires c.Step? && c.sib.T? && Sub(c.sib, c.d).T?
  {
    var z := Sub(c.sib, c.d);
    Mk(c.d, Sub(z, c.d), z.n, false, Mk(c.d, Sub(z, c.d.Opp()), c.sib.n, true, Sub(c.sib, c.d.Opp())))
  }

  lemma Case3(c: Ctx, t: Tree)
    requires Short(c, t) && c.Step? && c.sib.T? && !c.sib.red
    requires IsRed(Sub(c.sib, c.d)) && !IsRed(Sub(c.sib, c.d.Opp()))
    ensures Short(c.(sib := Case3Sib(c)), t)
  {
    var z := Sub(c.sib, c.d);
    assert RedBlack(z) && BlackHeight(z) == BlackHeight(Sub(c.sib, c.d.Opp()));
    var s := Mk(c.d, Sub(z, c.d.Opp()), c.sib.n, true, Sub(c.sib, c.d.Opp()));
    assert RedBlack(s) && BlackHeight(s) == BlackHeight(z);
    assert RedBlack(Case3Sib(c)) && BlackHeight(Case3Sib(c)) == BlackHeight(c.sib);
  }

  ghost function Case4Tree(c: Ctx, t: Tree): Tree
    requires c.Step? && c.sib.T?
  {
    Mk(c.d, Mk(c.d, t, c.n, false, Sub(c.sib, c.d)), c.sib.n, c.red, Painted(Sub(c.sib, c.d.Opp()), false))
  }

  lemma Case4(c: Ctx, t: Tree)
    requires Short(c, t) && c.Step? && !IsRed(t) && c.sib.T? && !c.sib.red && IsRed(Sub(c.sib, c.d.Opp()))
    ensures RedBlack(Plug(c.up, Case4Tree(c, t))) && !IsRed(Plug(c.up, Case4Tree(c, t)))
  {
    var k := BlackHeight(t);
    assert RedBlackCtx(c.up, k + 1 + Black(c.red));
    var near, far := Sub(c.sib, c.d), Sub(c.sib, c.d.Opp());
    assert RedBlack(near) && RedBlack(far) && BlackHeight(near) == k == BlackHeight(far);
    var a, b := Mk(c.d, t, c.n, false, near), Painted(far, false);
    assert RedBlack(a) && BlackHeight(a) == k + 1 && RedBlack(b) && BlackHeight(b) == k + 1;
    assert RedBlack(Case4Tree(c, t)) && BlackHeight(Case4Tree(c, t)) == k + 1 + Black(c.red);
    PlugRedBlack(c.up, Case4Tree(c, t));
  }

  /** Painting the root of the subtree black ends the loop when that root is red or nothing is above it. */
  lemma ShortDone(c: Ctx, t: Tree)
    requires Short(c, t) && (IsRed(t) || c.Top?)
    ensures RedBlack(Plug(c, Painted(t, false))) && !IsRed(Plug(c, Painted(t, false)))
  {
    PlugRedBlack(c, Painted(t, false));
  }

  // ---------- the same cases keep nodes and in-order sequence ----------

  /** Two fillings of the same place with equal nodes and order are interchangeable. */
  ghost predicate Alike(c: Ctx, t: Tree, c': Ctx, t': Tree) {
    InOrder(Plug(c', t')) == InOrder(Plug(c, t)) && Nodes(t') + CtxNodes(c') == Nodes(t) + CtxNodes(c)
  }

  ghost predicate SameContent(t: Tree, t': Tree) { InOrder(t') == InOrder(t) && Nodes(t') == Nodes(t) }

  lemma AlikePlug(c: Ctx, t: Tree, t': Tree)
    requires SameContent(t, t')
    ensures Alike(c, t, c, t')
  {
    PlugInOrder(c, t);
    PlugInOrder(c, t');
  }

  lemma PaintedContent(t: Tree, red: bool)
    ensures SameContent(t, Painted(t, red))
  {
  }

  lemma MkContent(d: Side, near: Tree, n: Node, red: bool, far: Tree, near': Tree, red': bool, far': Tree)
    requires SameContent(near, near') && SameContent(far, far')
    ensures SameContent(Mk(d, near, n, red, far), Mk(d, near', n, red', far'))
  {
  }

  lemma RotateContent(d: Side, a: Tree, x: Node, xr: bool, b: Tree, y: Node, yr: bool, e: Tree)
    ensures SameContent(Mk(d, a, x, xr, Mk(d, b, y, yr, e)), Mk(d, Mk(d, a, x, xr, b), y, yr, e))
  {
    RotateInOrder(d, a, x, xr, b, y, yr, e);
    RotateNodes(d, a, x, xr, b, y, yr, e);
  }

  lemma StepNodes(c: Ctx, t: Tree)
    requires c.Step?
    ensures Plug(c, t) == Plug(c.up, Mk(c.d, t, c.n, c.red, c.sib))
    ensures Nodes(t) + CtxNodes(c) == Nodes(Mk(c.d, t, c.n, c.red, c.sib)) + CtxNodes(c.up)
  {
  }

  lemma MkNodes(d: Side, a: Tree, x: Node, xr: bool, xr': bool, b: Tree, y: Node, yr: bool, yr': bool, e: Tree)
    ensures SameContent(Mk(d, a, x, xr, Mk(d, b, y, yr, e)), Mk(d, a, x, xr', Mk(d, b, y, yr', e)))
  {
    MkContent(d, b, y, yr, e, b, yr', e);
    MkContent(d, a, x, xr, Mk(d, b, y, yr, e), a, xr', Mk(d, b, y, yr', e));
  }

  lemma Case1Alike(c: Ctx, t: Tree)
    requires c.Step? && c.sib.T?
    ensures Alike(c, t, Case1Ctx(c), t)
  {
    var near, w, far := Sub(c.sib, c.d), c.sib.n, Sub(c.sib, c.d.Opp());
    var t0 := Mk(c.d, t, c.n, c.red, c.sib);
    var t1 := Mk(c.d, t, c.n, true, Mk(c.d, near, w, false, far));
    var t2 := Mk(c.d, Mk(c.d, t, c.n, true, near), w, false, far);
    assert c.sib == Mk(c.d, near, w, c.sib.red, far);
    MkContent(c.d, near, w, c.sib.red, far, near, false, far);
    MkContent(c.d, t, c.n, c.red, c.sib, t, true, Mk(c.d, near, w, false, far));
    RotateContent(c.d, t, c.n, true, near, w, false, far);
    AlikePlug(c.up, t0, t2);
    StepNodes(c, t);
    StepNodes(Case1Ctx(c), t);
    StepNodes(Case1Ctx(c).up, Mk(c.d, t, c.n, true, near));
  }

  lemma Case2Alike(c: Ctx, t: Tree)
    requires c.Step?
    ensures Alike(c, t, c.up, Case2Tree(c, t))
  {
    PaintedContent(c.sib, true);
    MkContent(c.d, t, c.n, c.red, c.sib, t, c.red, Painted(c.sib, true));
    StepNodes(c, t);
    AlikePlug(c.up, Mk(c.d, t, c.n, c.red, c.sib), Case2Tree(c, t));
  }

  lemma Case3Alike(c: Ctx, t: Tree)
    requires c.Step? && c.sib.T? && Sub(c.sib, c.d).T?
    ensures Alike(c, t, c.(sib := Case3Sib(c)), t)
  {
    var z, far := Sub(c.sib, c.d), Sub(c.sib, c.d.Opp());
    var a, b := Sub(z, c.d), Sub(z, c.d.Opp());
    assert z == Mk(c.d, a, z.n, z.red, b) && c.sib == Mk(c.d, z, c.sib.n, c.sib.red, far);
    var z' := Mk(c.d, a, z.n, false, b);
    MkContent(c.d, a, z.n, z.red, b, a, false, b);
    MkContent(c.d, z, c.sib.n, c.sib.red, far, z', true, far);
    RotateContent(c.d, a, z.n, false, b, c.sib.n, true, far);
    assert SameContent(c.sib, Case3Sib(c));
    MkContent(c.d, t, c.n, c.red, c.sib, t, c.red, Case3Sib(c));
    StepNodes(c, t);
    StepNodes(c.(sib := Case3Sib(c)), t);
    AlikePlug(c.up, Mk(c.d, t, c.n, c.red, c.sib), Mk(c.d, t, c.n, c.red, Case3Sib(c)));
  }

  lemma Case4Alike(c: Ctx, t: Tree)
    requires c.Step? && c.sib.T?
    ensures Alike(c, t, c.up, Case4Tree(c, t))
  {
    var near, w, far := Sub(c.sib, c.d), c.sib.n, Sub(c.sib, c.d.Opp());
    var far' := Painted(far, false);
    assert c.sib == Mk(c.d, near, w, c.sib.red, far);
    PaintedContent(far, false);
    MkContent(c.d, near, w, c.sib.red, far, near, c.red, far');
    MkContent(c.d, t, c.n, c.red, c.sib, t, false, Mk(c.d, near, w, c.red, far'));
    RotateContent(c.d, t, c.n, false, near, w, c.red, far');
    StepNodes(c, t);
    AlikePlug(c.up, Mk(c.d, t, c.n, c.red, c.sib), Case4Tree(c, t));
  }

  // ---------- the pointer side of the four cases, up to the rotation ----------

  /** The pointers RBDeleteFixUp follows from `x`. */
  lemma FixUpLinks(ns: set<Node>, h: Heap, root: Node, nil: Node, c: Ctx, t: Tree, x: Node, p: Node)
    requires Focused(ns, h, root, nil, c, t, x, p) && c.Step? && c.sib.T?
    ensures x in h && p in h && p == c.n && (x == h[p].left <==> c.d.L?)
    ensures h[p].Child(c.d.Opp()) == c.sib.n && c.sib.n in h && c.sib.n != p && h[p].parent in h
    ensures h[c.sib.n].parent == p && h[c.sib.n].red == c.sib.red && h[p].red == c.red && (h[x].red <==> IsRed(t))
    ensures h[c.sib.n].left in h && h[c.sib.n].right in h
    ensures (h[h[c.sib.n].left].red <==> IsRed(c.sib.l)) && (h[h[c.sib.n].right].red <==> IsRed(c.sib.r))
    ensures (c.sib.l.T? ==> h[c.sib.n].left == c.sib.l.n) && (c.sib.r.T? ==> h[c.sib.n].right == c.sib.r.n)
  {
    HoleIsOneSide(h, root, nil, c, t, x, p);
    InHeap(h, root, nil, c, t, x, p);
    Up(h, root, nil, c, t, x, p);
    InHeap(h, root, nil, c.up, Mk(c.d, t, c.n, c.red, c.sib), p, h[p].parent);
    var w := c.sib.n;
    assert w in Nodes(c.sib) && Rep(h, nil, c.sib, w, p);
    assert Rep(h, nil, c.sib.l, h[w].left, w) && Rep(h, nil, c.sib.r, h[w].right, w);
  }

  lemma Case1Links(ns: set<Node>, h: Heap, root: Node, nil: Node, c: Ctx, t: Tree, x: Node, p: Node)
    requires Focused(ns, h, root, nil, c, t, x, p) && c.Step? && c.sib.T?
    requires c.sib.n in h && p in h
    ensures Focused(ns, Paint(Paint(h, c.sib.n, false), p, true), root, nil, c.up,
               Mk(c.d, t, c.n, true, Mk(c.d, Sub(c.sib, c.d), c.sib.n, false, Sub(c.sib, c.d.Opp()))), p, h[p].parent)
  {
    FixUpLinks(ns, h, root, nil, c, t, x, p);
    PaintSibling(h, root, nil, c, t, x, p, false);
    var h1, c1 := Paint(h, c.sib.n, false), c.(sib := Painted(c.sib, false));
    PaintAbove(h1, root, nil, c1, t, x, p, true);
    Up(Paint(h1, p, true), root, nil, c1.(red := true), t, x, p);
    assert c.sib == Mk(c.d, Sub(c.sib, c.d), c.sib.n, c.sib.red, Sub(c.sib, c.d.Opp()));
    MkNodes(c.d, t, c.n, c.red, true, Sub(c.sib, c.d), c.sib.n, c.sib.red, false, Sub(c.sib, c.d.Opp()));
    StepNodes(c, t);
  }

  /** After the rotation of case 1, back to the node in focus. */
  lemma Case1Back(ns: set<Node>, h: Heap, root: Node, nil: Node, c: Ctx, t: Tree, x: Node, p: Node, q: Node)
    requires c.Step? && c.sib.T? && p == c.n && x == (if t.T? then t.n else nil)
    requires Focused(ns, h, root, nil, c.up,
               Mk(c.d, Mk(c.d, t, c.n, true, Sub(c.sib, c.d)), c.sib.n, false, Sub(c.sib, c.d.Opp())), c.sib.n, q)
    ensures Focused(ns, h, root, nil, Case1Ctx(c), t, x, p)
  {
    var near, w, far := Sub(c.sib, c.d), c.sib.n, Sub(c.sib, c.d.Opp());
    Down(h, root, nil, c.up, Mk(c.d, Mk(c.d, t, p, true, near), w, false, far), w, q, c.d);
    Down(h, root, nil, Step(c.up, c.d, w, false, far), Mk(c.d, t, p, true, near), p, w, c.d);
    StepNodes(Case1Ctx(c), t);
    StepNodes(Case1Ctx(c).up, Mk(c.d, t, c.n, true, near));
  }

  lemma Case2Links(ns: set<Node>, h: Heap, root: Node, nil: Node, c: Ctx, t: Tree, x: Node, p: Node)
    requires Focused(ns, h, root, nil, c, t, x, p) && c.Step? && c.sib.T?
    requires c.sib.n in h && p in h
    ensures Focused(ns, Paint(h, c.sib.n, true), root, nil, c.up, Case2Tree(c, t), p, h[p].parent)
  {
    FixUpLinks(ns, h, root, nil, c, t, x, p);
    PaintSibling(h, root, nil, c, t, x, p, true);
    Up(Paint(h, c.sib.n, true), root, nil, c.(sib := Painted(c.sib, true)), t, x, p);
    Case2Alike(c, t);
  }

  lemma Case3Links(ns: set<Node>, h: Heap, root: Node, nil: Node, c: Ctx, t: Tree, x: Node, p: Node)
    requires Focused(ns, h, root, nil, c, t, x, p) && c.Step? && c.sib.T? && Sub(c.sib, c.d).T?
    requires c.sib.n in h && Sub(c.sib, c.d).n in h
    ensures var z, o := Sub(c.sib, c.d), c.d.Opp();
      Focused(ns, Paint(Paint(h, z.n, false), c.sib.n, true), root, nil, Step(c.up, o, c.n, c.red, t),
         Mk(o, Sub(c.sib, o), c.sib.n, true, Mk(o, Sub(z, o), z.n, false, Sub(z, c.d))), c.sib.n, p)
  {
    var z, o := Sub(c.sib, c.d), c.d.Opp();
    PaintNiece(h, root, nil, c, t, x, p, c.d, false);
    var h1, c1 := Paint(h, z.n, false), c.(sib := WithSub(c.sib, c.d, Painted(z, false)));
    PaintSibling(h1, root, nil, c1, t, x, p, true);
    var h2, c2 := Paint(h1, c.sib.n, true), c1.(sib := Painted(c1.sib, true));
    Sibling(h2, root, nil, c2, t, x, p);
    assert c2.sib == Mk(o, Sub(c.sib, o), c.sib.n, true, Mk(o, Sub(z, o), z.n, false, Sub(z, c.d)));
    assert c.sib == Mk(o, Sub(c.sib, o), c.sib.n, c.sib.red, Mk(o, Sub(z, o), z.n, z.red, Sub(z, c.d)));
    MkNodes(o, Sub(c.sib, o), c.sib.n, c.sib.red, true, Sub(z, o), z.n, z.red, false, Sub(z, c.d));
  }

  /** After the rotation of case 3, back to the node in focus. */
  lemma Case3Back(ns: set<Node>, h: Heap, root: Node, nil: Node, c: Ctx, t: Tree, x: Node, p: Node)
    requires c.Step? && c.sib.T? && Sub(c.sib, c.d).T?
    requires var z, o := Sub(c.sib, c.d), c.d.Opp();
      Focused(ns, h, root, nil, Step(c.up, o, c.n, c.red, t),
              Mk(o, Mk(o, Sub(c.sib, o), c.sib.n, true, Sub(z, o)), z.n, false, Sub(z, c.d)), z.n, p)
    requires x == if t.T? then t.n else nil
    ensures Focused(ns, h, root, nil, c.(sib := Case3Sib(c)), t, x, p)
  {
    var z, o := Sub(c.sib, c.d), c.d.Opp();
    var s := Mk(o, Mk(o, Sub(c.sib, o), c.sib.n, true, Sub(z, o)), z.n, false, Sub(z, c.d));
    assert s == Case3Sib(c);
    Sibling(h, root, nil, Step(c.up, o, c.n, c.red, t), s, z.n, p);
  }

  lemma Case4Links(ns: set<Node>, h: Heap, root: Node, nil: Node, c: Ctx, t: Tree, x: Node, p: Node)
    requires Focused(ns, h, root, nil, c, t, x, p) && c.Step? && c.sib.T? && Sub(c.sib, c.d.Opp()).T?
    requires c.sib.n in h && p in h && Sub(c.sib, c.d.Opp()).n in h
    ensures var far := Sub(c.sib, c.d.Opp());
      Focused(ns, Paint(Paint(Paint(h, c.sib.n, c.red), p, false), far.n, false), root, nil, c.up,
         Mk(c.d, t, c.n, false, Mk(c.d, Sub(c.sib, c.d), c.sib.n, c.red, Painted(far, false))), p, h[p].parent)
    ensures c.sib.n != p
  {
    var o := c.d.Opp();
    var far := Sub(c.sib, o);
    FixUpLinks(ns, h, root, nil, c, t, x, p);
    PaintSibling(h, root, nil, c, t, x, p, c.red);
    var h1, c1 := Paint(h, c.sib.n, c.red), c.(sib := Painted(c.sib, c.red));
    PaintAbove(h1, root, nil, c1, t, x, p, false);
    var h2, c2 := Paint(h1, p, false), c1.(red := false);
    PaintNiece(h2, root, nil, c2, t, x, p, o, false);
    var c3 := c2.(sib := WithSub(c2.sib, o, Painted(far, false)));
    assert far.n in Nodes(c.sib) && p !in Nodes(c.sib);
    Up(Paint(h2, far.n, false), root, nil, c3, t, x, p);
    PaintedContent(far, false);
    MkContent(c.d, Sub(c.sib, c.d), c.sib.n, c.sib.red, far, Sub(c.sib, c.d), c.red, Painted(far, false));
    var w' := Mk(c.d, Sub(c.sib, c.d), c.sib.n, c.red, Painted(far, false));
    assert c.sib == Mk(c.d, Sub(c.sib, c.d), c.sib.n, c.sib.red, far);
    MkContent(c.d, t, c.n, c.red, c.sib, t, false, w');
    StepNodes(c, t);
  }

  // ---------- the loop and its stale root pointer ----------

  ghost function OuterNode(c: Ctx): Node
    requires c.Step?
  {
    if c.up.Top? then c.n else OuterNode(c.up)
  }

  lemma {:induction false} OuterIsRoot(h: Heap, root: Node, nil: Node, c: Ctx, x: Node, p: Node)
    requires RepCtx(h, root, nil, c, x, p)
    ensures root in h && h[root].left == if c.Step? then OuterNode(c) else x
    ensures c.Step? ==> OuterNode(c) in CtxNodes(c) && OuterNode(c) in h
    decreases c
  {
    if c.Step? {
      OuterIsRoot(h, root, nil, c.up, p, h[p].parent);
    }
  }

  lemma {:induction false} OuterIsBlack(h: Heap, root: Node, nil: Node, c: Ctx, x: Node, p: Node, k: nat)
    requires RepCtx(h, root, nil, c, x, p) && RedBlackCtx(c, k) && c.Step?
    ensures OuterNode(c) in h && !h[OuterNode(c)].red
    decreases c
  {
    if c.up.Step? {
      OuterIsBlack(h, root, nil, c.up, p, h[p].parent, k + Black(c.red));
    }
  }

  /** `r`, the root pointer read when the repair began, is still the node just above the hole or the outermost node. */
  ghost predicate StaleRoot(c: Ctx, r: Node) {
    c.Step? && (r == c.n || (c.up.Step? && r == OuterNode(c.up)))
  }

  /** The loop goes on at `x` with a subtree that is still short. */
  ghost predicate FixOpen(h: Heap, ns: set<Node>, root: Node, nil: Node, c: Ctx, t: Tree, x: Node, r: Node) {
    && x in h && Focused(ns, h, root, nil, c, t, x, h[x].parent) && Short(c, t)
    && (IsRed(t) || r == if c.Step? then OuterNode(c) else x)
  }

  /** The loop is left with the tree repaired and `x` set to the stale root pointer. */
  ghost predicate FixClosed(h: Heap, ns: set<Node>, root: Node, nil: Node, c: Ctx, t: Tree, x: Node, r: Node) {
    && t.T? && t.n in h && Focused(ns, h, root, nil, c, t, t.n, h[t.n].parent)
    && RedBlack(Plug(c, t)) && !IsRed(Plug(c, t))
    && x == r && r in h && !h[r].red
  }

  lemma FixGuard(h: Heap, ns: set<Node>, root: Node, nil: Node, c: Ctx, t: Tree, x: Node, r: Node)
    requires FixOpen(h, ns, root, nil, c, t, x, r)
    ensures h[x].red <==> IsRed(t)
    ensures !IsRed(t) ==> (r == x <==> c.Top?)
  {
    OuterIsRoot(h, root, nil, c, x, h[x].parent);
    if t.T? {
      assert x in Nodes(t);
    }
  }

  /** Case 4 leaves a repaired tree in which the stale root pointer designates a black node. */
  lemma CloseFix(h: Heap, ns: set<Node>, root: Node, nil: Node, c: Ctx, t: Tree, w: Node, q: Node, r: Node)
    requires Short(c, t) && c.Step? && !IsRed(t) && c.sib.T? && !c.sib.red && IsRed(Sub(c.sib, c.d.Opp()))
    requires Focused(ns, h, root, nil, c.up, Case4Tree(c, t), w, q) && StaleRoot(c, r)
    ensures FixClosed(h, ns, root, nil, c.up, Case4Tree(c, t), r, r)
  {
    Case4(c, t);
    var t' := Case4Tree(c, t);
    Down(h, root, nil, c.up, t', w, q, c.d);
    if r != c.n {
      OuterIsBlack(h, root, nil, c.up, w, q, BlackHeight(t) + 1 + Black(c.red));
    }
  }

  /** Case 2 either leaves a red parent, or a black one that is short in turn. */
  lemma ReopenFix(h: Heap, ns: set<Node>, root: Node, nil: Node, c: Ctx, t: Tree, p: Node, r: Node)
    requires Short(c, t) && c.Step? && !IsRed(t) && !IsRed(c.sib) && c.sib.T? && !IsRed(c.sib.l) && !IsRed(c.sib.r)
    requires p in h && p == c.n && Focused(ns, h, root, nil, c.up, Case2Tree(c, t), p, h[p].parent)
    requires c.red || r == OuterNode(c)
    ensures FixOpen(h, ns, root, nil, c.up, Case2Tree(c, t), p, r)
  {
    Case2(c, t);
  }

  lemma OpenFix(h: Heap, ns: set<Node>, root: Node, nil: Node, c: Ctx, t: Tree, x: Node)
    requires x in h && Focused(ns, h, root, nil, c, t, x, h[x].parent) && Short(c, t)
    ensures root in h && FixOpen(h, ns, root, nil, c, t, x, h[root].left)
  {
    OuterIsRoot(h, root, nil, c, x, h[x].parent);
  }

  /** What the assignment after the loop leaves, in either way out. */
  lemma EndFix(h: Heap, ns: set<Node>, root: Node, nil: Node, c: Ctx, t: Tree, x: Node, r: Node, closed: bool)
      returns (s: Tree)
    requires if closed then FixClosed(h, ns, root, nil, c, t, x, r)
      else FixOpen(h, ns, root, nil, c, t, x, r) && (IsRed(t) || x == r)
    ensures x in h && root in h && Focused(ns, Paint(h, x, false), root, nil, Top, s, h[root].left, root)
    ensures RedBlack(s) && !IsRed(s) && InOrder(s) == InOrder(Plug(c, t))
  {
    PlugNodes(c, t);
    if closed {
      s := Plug(c, t);
      assert Paint(h, x, false) == h;
      ToTop(h, root, nil, c, t, t.n, h[t.n].parent);
    } else {
      FixGuard(h, ns, root, nil, c, t, x, r);
      PaintedContent(t, false);
      AlikePlug(c, t, Painted(t, false));
      s := Plug(c, Painted(t, false));
      PaintFocus(h, root, nil, c, t, x, h[x].parent, false);
      PlugNodes(c, Painted(t, false));
      ToTop(Paint(h, x, false), root, nil, c, Painted(t, false), x, h[x].parent);
      ShortDone(c, t);
      RootNotPainted(h, root, nil, c, t, x, h[x].parent);
    }
  }

  lemma RootNotPainted(h: Heap, root: Node, nil: Node, c: Ctx, t: Tree, x: Node, p: Node)
    requires At(h, root, nil, c, t, x, p)
    ensures x in h && x != root
  {
  }

  // ---------- splicing a node out ----------

  ghost function Only(t: Tree): Tree
    requires t.T?
  {
    if t.l.Nil? then t.r else t.l
  }

  /** From `h` to `h'`, `y` goes: on side `d` its parent `p` has `x` instead. */
  ghost predicate Bypassed(h: Heap, h': Heap, y: Node, p: Node, x: Node, d: Side) {
    && {y, p, x} <= h.Keys && h'.Keys == h.Keys - {y} && y != p && y != x && x != p
    && h'[p] == h[p].WithChild(d, x) && h'[x] == h[x].(parent := p)
    && forall n :: n in h && n != y && n != p && n != x ==> h'[n] == h[n]
  }

  /** The node in focus has at most one child; that child takes its place. */
  lemma SpliceLinks(ns: set<Node>, h: Heap, h': Heap, root: Node, nil: Node, c: Ctx, t: Tree, y: Node, p: Node, x: Node)
    requires Focused(ns, h, root, nil, c, t, y, p) && t.T? && (t.l.Nil? || t.r.Nil?)
    requires Bypassed(h, h', y, p, x, HoleSide(c)) && x == if t.l.Nil? then h[y].right else h[y].left
    ensures Focused(ns - {y}, h', root, nil, c, Only(t), x, p)
  {
    var s := Only(t);
    assert Rep(h, nil, t.l, h[y].left, y) && Rep(h, nil, t.r, h[y].right, y);
    assert s.T? ==> x in Nodes(s);
    assert s.Nil? ==> x == nil;
    CtxRefill(h, h', root, nil, c, y, p, x);
    RepReparent(h, h', nil, s, x, y, p);
    assert Nodes(t) == Nodes(s) + {y};
  }

  /** Where splicing leads, by the colour of the node taken out. */
  lemma SpliceBalance(c: Ctx, t: Tree)
    requires t.T? && (t.l.Nil? || t.r.Nil?) && RedBlack(Plug(c, t)) && !IsRed(Plug(c, t))
    ensures !t.red ==> Short(c, Only(t))
    ensures t.red ==> RedBlack(Plug(c, Only(t))) && !IsRed(Plug(c, Only(t)))
  {
    UnplugRedBlack(c, t);
    if t.red {
      PlugRedBlack(c, Only(t));
    }
  }

  lemma SpliceOrder(c: Ctx, t: Tree)
    requires t.T? && (t.l.Nil? || t.r.Nil?)
    ensures var s, k := InOrder(Plug(c, t)), |Before(c)| + |InOrder(t.l)|;
      k < |s| && s[k] == t.n && InOrder(Plug(c, Only(t))) == Without(s, k)
  {
    PlugInOrder(c, t);
    PlugInOrder(c, Only(t));
    WithoutMiddle(Before(c), InOrder(t.l), t.n, InOrder(t.r), After(c));
    assert InOrder(Only(t)) == InOrder(t.l) + InOrder(t.r);
  }

  lemma WithoutMiddle<X>(a: seq<X>, b: seq<X>, x: X, c: seq<X>, e: seq<X>)
    ensures var s, k := a + (b + [x] + c) + e, |a| + |b|;
      k < |s| && s[k] == x && Without(s, k) == a + (b + c) + e
  {
  }

  // ---------- putting one node in the place of another ----------

  lemma RelinkSame(ns: set<Node>, h: Heap, h': Heap, root: Node, nil: Node, c: Ctx, t: Tree, z: Node, p: Node, y: Node)
    requires Focused(ns, h, root, nil, c, t, z, p) && t.T? && y !in h && z in h && p in h && ns <= h.Keys
    requires h'.Keys == h.Keys - {z} + {y} && h'[y] == h[z]
    requires p in h' && h'[p] == h[p].WithChild(HoleSide(c), y)
    requires Single(t.l) + Single(t.r) <= h.Keys && Single(t.l) + Single(t.r) <= h'.Keys
    requires t.l.T? ==> h'[t.l.n] == h[t.l.n].(parent := y)
    requires t.r.T? ==> h'[t.r.n] == h[t.r.n].(parent := y)
    requires nil in h' && !h'[nil].red
    requires forall n :: n in h && n != z && n != p && n != nil && n !in Single(t.l) && n !in Single(t.r) ==>
      h'[n] == h[n]
    ensures Same(h, h', CtxNodes(c) + {root} - {p})
    ensures Same(h, h', Nodes(t.l) - {h[z].left}) && Same(h, h', Nodes(t.r) - {h[z].right})
  {
    hide Rep, RepCtx, CtxDistinct;
    NodeLinks(ns, h, root, nil, c, t, z, p);
    FocusLinks(ns, h, root, nil, c, t, z, p);
    assert Nodes(t) == Nodes(t.l) + {t.n} + Nodes(t.r) && p in CtxNodes(c) + {root};
    assert Single(t.l) <= Nodes(t.l) && Single(t.r) <= Nodes(t.r);
  }

  lemma RelinkLinks(ns: set<Node>, h: Heap, h': Heap, root: Node, nil: Node, c: Ctx, t: Tree, z: Node, p: Node, y: Node)
    requires Focused(ns, h, root, nil, c, t, z, p) && t.T? && y !in h && z in h && p in h && ns <= h.Keys
    requires h'.Keys == h.Keys - {z} + {y} && h'[y] == h[z]
    requires p in h' && h'[p] == h[p].WithChild(HoleSide(c), y)
    requires Single(t.l) + Single(t.r) <= h.Keys && Single(t.l) + Single(t.r) <= h'.Keys
    requires t.l.T? ==> h'[t.l.n] == h[t.l.n].(parent := y)
    requires t.r.T? ==> h'[t.r.n] == h[t.r.n].(parent := y)
    requires nil in h' && !h'[nil].red
    requires forall n :: n in h && n != z && n != p && n != nil && n !in Single(t.l) && n !in Single(t.r) ==>
      h'[n] == h[n]
    ensures Focused(ns - {z} + {y}, h', root, nil, c, T(t.l, y, t.red, t.r), y, p)
  {
    hide Same, RepCtx;
    RelinkSame(ns, h, h', root, nil, c, t, z, p, y);
    RelinkSeparate(ns, root, nil, c, t, y);
    CtxRefill(h, h', root, nil, c, z, p, y);
    RepReparent(h, h', nil, t.l, h[z].left, z, y);
    RepReparent(h, h', nil, t.r, h[z].right, z, y);
  }

  lemma RelinkSeparate(ns: set<Node>, root: Node, nil: Node, c: Ctx, t: Tree, y: Node)
    requires ns == Nodes(t) + CtxNodes(c) + {root, nil} && t.T? && y !in ns && Separate(root, nil, c, t)
    ensures Separate(root, nil, c, t.(n := y)) && ns - {t.n} + {y} == Nodes(t.(n := y)) + CtxNodes(c) + {root, nil}
  {
    assert Nodes(t) == Nodes(t.l) + {t.n} + Nodes(t.r) && Nodes(t.(n := y)) == Nodes(t.l) + {y} + Nodes(t.r);
  }

  /** In `h'` the children and the parent of `z` point to `y`; nothing else differs from `h`. */
  ghost predicate Adopted(h: Heap, h': Heap, z: Node, y: Node) {
    && z in h && var cell := h[z];
    && {cell.left, cell.right, cell.parent} <= h.Keys * h'.Keys
    && z != cell.left && z != cell.right && z != cell.parent
    && h'[cell.left] == h[cell.left].(parent := y) && h'[cell.right] == h[cell.right].(parent := y)
    && h'[cell.parent] == h[cell.parent].WithChild(if z == h[cell.parent].left then L else R, y)
    && forall n :: n in h && n != z && n != cell.left && n != cell.right && n != cell.parent ==>
      n in h' && h'[n] == h[n]
  }

  /** From `h` to `h'`, `y` comes in for `z`: it takes over its cell, and the children and the parent point to it. */
  ghost predicate TakenOver(h: Heap, h': Heap, z: Node, y: Node) {
    && z in h && y !in h && h'.Keys == h.Keys - {z} + {y} && h'[y] == h[z] && Adopted(h, h', z, y)
  }

  lemma AdoptedElsewhere(h: Heap, h1: Heap, h': Heap, z: Node, y: Node)
    requires Adopted(h, h1, z, y) && forall n :: n in h1 && n != z ==> n in h' && h'[n] == h1[n]
    ensures Adopted(h, h', z, y)
  {
  }

  lemma RelinkFrom(ns: set<Node>, h: Heap, h': Heap, root: Node, nil: Node, c: Ctx, t: Tree, z: Node, p: Node, y: Node)
    requires Focused(ns, h, root, nil, c, t, z, p) && t.T? && ns <= h.Keys && TakenOver(h, h', z, y)
    ensures Focused(ns - {z} + {y}, h', root, nil, c, T(t.l, y, t.red, t.r), y, p)
  {
    NodeLinks(ns, h, root, nil, c, t, z, p);
    FocusLinks(ns, h, root, nil, c, t, z, p);
    RelinkLinks(ns, h, h', root, nil, c, t, z, p, y);
  }

  lemma RelinkBalance(c: Ctx, t: Tree, y: Node)
    requires t.T? && RedBlack(Plug(c, t)) && !IsRed(Plug(c, t))
    ensures RedBlack(Plug(c, t.(n := y))) && !IsRed(Plug(c, t.(n := y)))
  {
    UnplugRedBlack(c, t);
    PlugRedBlack(c, t.(n := y));
  }

  lemma RelinkOrder(c: Ctx, t: Tree, y: Node)
    requires t.T?
    ensures var s, k := InOrder(Plug(c, t)), |Before(c)| + |InOrder(t.l)|;
      k < |s| && s[k] == t.n && InOrder(Plug(c, t.(n := y))) == s[k := y]
  {
    PlugInOrder(c, t);
    PlugInOrder(c, t.(n := y));
    UpdateMiddle(Before(c), InOrder(t.l), t.n, y, InOrder(t.r), After(c));
  }

  lemma UpdateMiddle<X>(a: seq<X>, b: seq<X>, x: X, y: X, c: seq<X>, e: seq<X>)
    ensures var s, k := a + (b + [x] + c) + e, |a| + |b|;
      k < |s| && s[k] == x && s[k := y] == a + (b + [y] + c) + e
  {
  }

  /** The pointers around a node in focus, as rb_tree_delete reads them. */
  lemma NodeLinks(ns: set<Node>, h: Heap, root: Node, nil: Node, c: Ctx, t: Tree, z: Node, p: Node)
    requires Focused(ns, h, root, nil, c, t, z, p) && t.T?
    ensures z in h && p in h && h[z].parent == p && z != p && z != nil && z != root && z == t.n && h[z].red == t.red
    ensures h[z].left in h && h[z].right in h && p != nil
    ensures (h[z].left == nil <==> t.l.Nil?) && (h[z].right == nil <==> t.r.Nil?)
    ensures (t.l.T? ==> h[z].left == t.l.n) && (t.r.T? ==> h[z].right == t.r.n)
    ensures h[z].left != z && h[z].right != z && h[z].left != p && h[z].right != p
    ensures (z == h[p].left <==> HoleSide(c).L?) && (p == root <==> c.Top?)
  {
    HoleIsOneSide(h, root, nil, c, t, z, p);
    InHeap(h, root, nil, c, t, z, p);
    assert Rep(h, nil, t.l, h[z].left, z) && Rep(h, nil, t.r, h[z].right, z);
    assert t.l.T? ==> t.l.n in Nodes(t.l);
    assert t.r.T? ==> t.r.n in Nodes(t.r);
    assert p in CtxNodes(c) + {root};
  }

  /** `s'` is `s` without its one occurrence of `z`. */
  ghost predicate Removed<X>(s: seq<X>, s': seq<X>, z: X) {
    exists k :: RemovedAt(s, s', z, k)
  }

  ghost predicate RemovedAt<X>(s: seq<X>, s': seq<X>, z: X, k: int) {
    0 <= k < |s| && s[k] == z && s' == Without(s, k)
  }

  lemma WithoutKeeps<X>(s: seq<X>, k: nat)
    requires k + 1 < |s|
    ensures |Without(s, k + 1)| == |s| - 1 && Without(s, k + 1)[k] == s[k]
  {
  }

  lemma RemovedHere<X>(s: seq<X>, s': seq<X>, z: X, k: nat)
    requires k < |s| && s[k] == z && s' == Without(s, k)
    ensures Removed(s, s', z)
  {
    assert RemovedAt(s, s', z, k);
  }

  /** Taking the successor out and then putting it in the place of `z` removes `z`. */
  lemma SuccessorReplaces<X>(s: seq<X>, s1: seq<X>, s2: seq<X>, k: nat, z: X, y: X)
    requires k + 1 < |s| && s[k] == z && s[k + 1] == y
    requires s1 == Without(s, k + 1) && s2 == s1[k := y]
    ensures Removed(s, s2, z)
  {
    assert s2 == Without(s, k);
    assert RemovedAt(s, s2, z, k);
  }

  /** A node has one position in the in-order sequence. */
  lemma {:induction false} InOrderOnce(t: Tree)
    requires Distinct(t)
    ensures forall i, j :: 0 <= i < j < |InOrder(t)| ==> InOrder(t)[i] != InOrder(t)[j]
  {
    if t.T? {
      InOrderOnce(t.l);
      InOrderOnce(t.r);
      InOrderNodes(t.l);
      InOrderNodes(t.r);
      OnceMiddle(InOrder(t.l), t.n, InOrder(t.r));
    }
  }

  lemma OnceMiddle<X>(a: seq<X>, x: X, b: seq<X>)
    requires forall i, j :: 0 <= i < j < |a| ==> a[i] != a[j]
    requires forall i, j :: 0 <= i < j < |b| ==> b[i] != b[j]
    requires x !in a && x !in b && forall i, j :: 0 <= i < |a| && 0 <= j < |b| ==> a[i] != b[j]
    ensures var s := a + [x] + b; forall i, j :: 0 <= i < j < |s| ==> s[i] != s[j]
  {
    var s := a + [x] + b;
    forall i, j | 0 <= i < j < |s|
      ensures s[i] != s[j]
    {
      assert i < |a| ==> s[i] in a;
      assert j > |a| ==> s[j] in b;
      if j < |a| {
        assert s[i] == a[i] && s[j] == a[j];
      } else if i > |a| {
        assert s[i] == b[i - |a| - 1] && s[j] == b[j - |a| - 1];
      }
    }
  }

  lemma NodeIndex(c: Ctx, t: Tree)
    requires t.T?
    ensures var s, k := InOrder(Plug(c, t)), |Before(c) + InOrder(t.l)|; k < |s| && s[k] == t.n
  {
    PlugInOrder(c, t);
    WithoutMiddle(Before(c), InOrder(t.l), t.n, InOrder(t.r), After(c));
  }

  /** The result of rb_tree_successor is the next element of the in-order sequence. */
  lemma SuccessorIndex(c: Ctx, t: Tree, c': Ctx, t': Tree)
    requires t.T? && t'.T? && Plug(c', t') == Plug(c, t)
    requires Before(c') + InOrder(t'.l) == Before(c) + InOrder(t.l) + [t.n]
    ensures var s, k := InOrder(Plug(c, t)), |Before(c) + InOrder(t.l)|;
      k + 1 < |s| && s[k] == t.n && s[k + 1] == t'.n && k + 1 == |Before(c')| + |InOrder(t'.l)|
  {
    NodeIndex(c, t);
    NodeIndex(c', t');
  }

  lemma IndexUnique(s: Tree, c: Ctx, t: Tree, k: nat)
    requires t.T? && Plug(c, t) == s && Distinct(s) && k < |InOrder(s)| && InOrder(s)[k] == t.n
    ensures k == |Before(c) + InOrder(t.l)|
  {
    NodeIndex(c, t);
    InOrderOnce(s);
  }
}
