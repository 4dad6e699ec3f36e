/**
 * The first half of dict_delete: taking the node out.  A node with two children
 * gives up its place to its successor, which is spliced out of the right
 * subtree first; the caller's pointers to the successor stay good.
 */
module DictCut {
  import opened RedBlackTree
  import opened NodeStore
  import opened NodeSurgery
  import opened Rebalance
  import opened DictRepair
  import opened DictWalk

  /** The hole of the successor `s` inside the right subtree, with node `n` above it. */
  function Below(x: Ctx, t: Tree, n: Ref, k: int, y: Ctx): Ctx
    requires t.Node?
  {
    Compose(InRight(x, t.l, n, t.c, k), y)
  }

  lemma BelowGood(m: Mem, x: Ctx, t: Tree, n: Ref, k: int, y: Ctx, u: Tree, nil: Ref)
    requires t.Node?
    ensures Good(m, Below(x, t, n, k, y), u, nil) <==> Good(m, x, Node(t.l, n, t.c, k, Plug(y, u)), nil)
  {
    GoodCompose(m, InRight(x, t.l, n, t.c, k), y, u, nil);
    ZipRight(m, x, t.l, n, t.c, k, Plug(y, u), nil);
  }

  lemma SuccessorApart(x: Ctx, t: Tree, y: Ctx, s: Tree)
    requires t.Node? && s.Node? && s.n !in CtxNodes(Below(x, t, t.n, t.k, y)) && s.n !in Nodes(s.r)
    ensures s.n !in Nodes(Node(t.l, t.n, t.c, t.k, Plug(y, s.r))) && s.n !in CtxNodes(x)
  {
    CtxNodesCompose(InRight(x, t.l, t.n, t.c, t.k), y);
    CtxNodesPlug(y, s.r);
  }

  lemma SpliceKeeps(m: Mem, del: Ref, child: Ref)
    requires CanSplice(m, del, child)
    ensures var m1 := SpliceMem(m, del, child);
      m1.key == m.key && m1.color == m.color && forall n | m.Has(n) :: m1.Has(n)
  {
  }

  /** First the successor leaves its place, and its right child moves up. */
  lemma SuccessorOut(m: Mem, x: Ctx, t: Tree, y: Ctx, s: Tree, nil: Ref)
    requires Good(m, x, t, nil) && t.Node? && Plug(y, s) == t.r && s.Node? && s.l.Leaf?
    ensures CanSplice(m, s.n, Ptr(s.r, nil)) && m.Has(nil)
    ensures var m1, u := SpliceMem(m, s.n, Ptr(s.r, nil)), Node(t.l, t.n, t.c, t.k, Plug(y, s.r));
      && Good(m1, x, u, nil) && s.n !in Nodes(u) && s.n !in CtxNodes(x) && s.n != nil
      && m1.parent[Ptr(s.r, nil)] == Par(Below(x, t, t.n, t.k, y), nil)
      && m1.Has(nil) && m1.Has(s.n) && m1.key[s.n] == s.k && m1.color[s.n] == s.c
  {
    hide Good, Nodes, CtxNodes, Below, Plug, SpliceMem;
    var z := Below(x, t, t.n, t.k, y);
    assert t == Node(t.l, t.n, t.c, t.k, Plug(y, s));
    BelowGood(m, x, t, t.n, t.k, y, s, nil);
    SpliceGood(m, z, s, nil);
    var m1 := SpliceMem(m, s.n, Ptr(s.r, nil));
    BelowGood(m1, x, t, t.n, t.k, y, s.r, nil);
    SuccessorApart(x, t, y, s);
    SuccessorTags(m, z, s, nil);
    SpliceKeeps(m, s.n, Ptr(s.r, nil));
  }

  /** The fields of the successor that dict_delete reads, and what the splice leaves of the deleted node's. */
  lemma NextRight(m: Mem, x: Ctx, t: Tree, y: Ctx, s: Tree, nil: Ref)
    requires Good(m, x, t, nil) && t.Node? && Plug(y, s) == t.r && s.Node? && s.l.Leaf?
    ensures m.Has(s.n) && m.right[s.n] == Ptr(s.r, nil) && m.Has(t.n) && m.parent[t.n] == Par(x, nil)
    ensures Ptr(s.r, nil) != t.n && Ptr(s.r, nil) != s.n && s.n != t.n
  {
    BelowGood(m, x, t, t.n, t.k, y, s, nil);
    CtxNodesCompose(InRight(x, t.l, t.n, t.c, t.k), y);
    assert Rep(m, s, Par(Below(x, t, t.n, t.k, y), nil), nil);
  }

  lemma GoodSeparate(m: Mem, x: Ctx, t: Tree, nil: Ref)
    requires Good(m, x, t, nil)
    ensures Separate(x, t, nil)
  {
  }

  lemma SuccessorTags(m: Mem, z: Ctx, s: Tree, nil: Ref)
    requires Good(m, z, s, nil) && s.Node?
    ensures m.Has(s.n) && m.key[s.n] == s.k && m.color[s.n] == s.c
  {
  }

  /** Then it takes over the deleted node's place, colour and children. */
  lemma SuccessorIn(m1: Mem, x: Ctx, t: Tree, y: Ctx, s: Tree, nil: Ref)
    requires t.Node? && t.l.Node? && s.Node?
    requires var u := Node(t.l, t.n, t.c, t.k, Plug(y, s.r));
      Good(m1, x, u, nil) && s.n !in Nodes(u) && s.n !in CtxNodes(x) && s.n != nil
    requires m1.Has(s.n) && m1.key[s.n] == s.k && m1.color[s.n] == s.c
    requires m1.Has(nil) && (s.r.Leaf? ==> m1.parent[nil] == Par(Below(x, t, t.n, t.k, y), nil))
    ensures CanReplace(m1, t.n, s.n)
    ensures var m2, z := ReplaceMem(m1, t.n, s.n), Below(x, t, s.n, s.k, y);
      && Good(m2, z, s.r, nil) && m2.Has(Ptr(s.r, nil)) && m2.parent[Ptr(s.r, nil)] == Par(z, nil)
      && m2.Has(nil) && m2.Has(t.n) && m2.color[t.n] == s.c && t.n != nil
      && t.n !in Nodes(s.r) && t.n !in CtxNodes(z)
  {
    hide Good;
    var u := Node(t.l, t.n, t.c, t.k, Plug(y, s.r));
    ReplaceGood(m1, x, u, s.n, nil);
    var m2, z := ReplaceMem(m1, t.n, s.n), Below(x, t, s.n, s.k, y);
    BelowGood(m2, x, t, s.n, s.k, y, s.r, nil);
    CtxNodesCompose(InRight(x, t.l, s.n, t.c, s.k), y);
    CtxNodesPlug(y, s.r);
    ChildPointer(m2, z, s.r, nil);
    if s.r.Leaf? && !y.Top? {
      PlugRoot(y, s.r);
      assert z.n == y.n;
    }
  }

  lemma ChildPointer(m: Mem, z: Ctx, u: Tree, nil: Ref)
    requires Good(m, z, u, nil)
    ensures m.Has(nil) && m.Has(Ptr(u, nil)) && (u.Node? ==> m.parent[u.n] == Par(z, nil))
  {
    CtxHasNil(m, z, Ptr(u, nil), nil);
  }

  /** Balance and contents after a node with two children is gone. */
  lemma PairCut(x: Ctx, t: Tree, y: Ctx, s: Tree, nil: Ref)
    requires t.Node? && Plug(y, s) == t.r && s.Node? && s.l.Leaf? && LeftSpine(y)
    requires Separate(x, t, nil) && RedBlack(Plug(x, t))
    ensures var z := Below(x, t, s.n, s.k, y);
      && Cut(z, s.r, s.c) && Contents(z, s.r) == Without(Contents(x, t), t.n)
      && |Contents(z, s.r)| == |Contents(x, t)| - 1
  {
    var z0, z := Below(x, t, t.n, t.k, y), Below(x, t, s.n, s.k, y);
    PlugCompose(InRight(x, t.l, t.n, t.c, t.k), y, s);
    assert Plug(z0, s) == Plug(x, t);
    CutStart(z0, s);
    CutRelabel(x, t.l, t.c, t.n, t.k, s.n, s.k, y, s.r, s.c);
    PairContents(x, t, y, s);
    PlugCompose(InRight(x, t.l, s.n, t.c, s.k), y, s.r);
    DeletedContents(x, t, Node(t.l, s.n, t.c, s.k, Plug(y, s.r)), nil);
  }

  lemma PairContents(x: Ctx, t: Tree, y: Ctx, s: Tree)
    requires t.Node? && Plug(y, s) == t.r && s.Node? && s.l.Leaf? && LeftSpine(y)
    ensures Inorder(Node(t.l, s.n, t.c, s.k, Plug(y, s.r))) == Inorder(t.l) + Inorder(t.r)
  {
    PlugInorder(y, s);
    PlugInorder(y, s.r);
    LeftSpineBefore(y);
    Slide(Inorder(t.l), [Entry(s.n, s.k)], Inorder(s.r), After(y));
  }

  lemma Slide<T>(a: seq<T>, e: seq<T>, p: seq<T>, q: seq<T>)
    ensures a + e + ([] + p + q) == a + ([] + ([] + e + p) + q)
  {
  }

  lemma SingleCut(x: Ctx, t: Tree, nil: Ref)
    requires t.Node? && (t.l.Leaf? || t.r.Leaf?) && Separate(x, t, nil) && RedBlack(Plug(x, t))
    ensures Cut(x, OnlyChild(t), t.c) && Contents(x, OnlyChild(t)) == Without(Contents(x, t), t.n)
    ensures |Contents(x, OnlyChild(t))| == |Contents(x, t)| - 1
  {
    CutStart(x, t);
    DeletedContents(x, t, OnlyChild(t), nil);
  }

  /** Painting the root red, wherever the focus is. */
  lemma RedRootGood(m: Mem, x: Ctx, s: Tree, nil: Ref)
    requires Good(m, x, s, nil) && NilBlack(m, nil)
    ensures m.Has(m.left[nil])
    ensures var m', x', s' := PaintMem(m, m.left[nil], Red),
                if x.Top? then Top else PaintTop(x, Red), if x.Top? then Paint(s, Red) else s;
      && Good(m', x', s', nil) && Contents(x', s') == Contents(x, s)
      && Par(x', nil) == Par(x, nil) && (x'.Top? <==> x.Top?)
      && m'.color[nil] == (if x.Top? && s.Leaf? then Red else Black)
  {
    var u := Plug(x, s);
    GoodCompose(m, Top, x, s, nil);
    ComposeTop(x);
    assert m.left[nil] == Ptr(u, nil);
    if x.Top? {
      if s.Node? { PaintGood(m, Top, s, Red, nil); } else { PaintOther(m, Top, s, nil, Red, nil); }
    } else {
      PlugRoot(x, s);
      PaintGood(m, Top, u, Red, nil);
      PaintTopPlug(x, s, Red);
      PaintTopRules(x, Red, 0);
      GoodCompose(PaintMem(m, u.n, Red), Top, PaintTop(x, Red), s, nil);
      ComposeTop(PaintTop(x, Red));
    }
    PaintContents(Top, u, Red);
  }

  lemma EmptyContents(x: Ctx, t: Tree)
    requires Contents(x, t) == []
    ensures x.Top? && t.Leaf?
  {
    PlugInorder(x, t);
    if !x.Top? { PlugRoot(x, t); }
  }

  lemma CutRedTop(x: Ctx, s: Tree)
    requires Cut(x, s, Red)
    ensures !x.Top?
  {
  }

  // ----- the cells that are written -----

  lemma PairReach(m: Mem, x: Ctx, t: Tree, y: Ctx, u: Tree, nil: Ref, own: set<Ref>)
    requires Good(m, x, t, nil) && t.Node? && Plug(y, u) == t.r && u.Node? && Owned(Contents(x, t), nil) <= own
    ensures t.n in own && u.n in own && Ptr(u.r, nil) in own && m.Has(u.n) && m.parent[u.n] in own
    ensures CtxNodes(x) + Nodes(Node(t.l, t.n, t.c, t.k, Plug(y, u.r))) + {nil} <= own
  {
    hide Good, Contents;
    OwnedAt(x, t, nil);
    CtxNodesPlug(y, u);
    CtxNodesPlug(y, u.r);
    CtxNodesCompose(InRight(x, t.l, t.n, t.c, t.k), y);
    BelowGood(m, x, t, t.n, t.k, y, u, nil);
    assert Nodes(t) == Nodes(t.l) + {t.n} + Nodes(t.r);
    ReachIn(m, Below(x, t, t.n, t.k, y), u, nil, own);
  }
}
