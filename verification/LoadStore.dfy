/**
 * Half-built trees in the store: the pointer writes of dict_load_end.
 *
 * While loading, the nodes that wait for a right child form the right spine of
 * a context whose own links are not set yet; the completed subtree fills the
 * hole but does not know its parent.
 */
module LoadStore {
  import opened RedBlackTree
  import opened NodeStore

  ghost predicate LooseCtx(m: Mem, x: Ctx, nil: Ref) {
    match x
    case Top => true
    case InLeft(_, _, _, _, _) => false
    case InRight(up, l, n, _, _) =>
      m.Has(n) && m.left[n] == Ptr(l, nil) && Rep(m, l, n, nil) && LooseCtx(m, up, nil)
  }

  ghost predicate LooseTree(m: Mem, t: Tree, nil: Ref) {
    t.Node? ==>
      && m.Has(t.n) && m.left[t.n] == Ptr(t.l, nil) && m.right[t.n] == Ptr(t.r, nil)
      && Rep(m, t.l, t.n, nil) && Rep(m, t.r, t.n, nil)
  }

  ghost predicate Loose(m: Mem, x: Ctx, t: Tree, nil: Ref) {
    LooseCtx(m, x, nil) && LooseTree(m, t, nil) && Tags(m, x, t) && Separate(x, t, nil)
  }

  lemma {:induction false} LooseCtxFrame(m: Mem, m': Mem, x: Ctx, nil: Ref, d: set<Ref>)
    requires LooseCtx(m, x, nil) && Agrees(m, m', d) && CtxNodes(x) !! d
    ensures LooseCtx(m', x, nil)
  {
    if x.InRight? {
      RepFrame(m, m', x.l, x.n, nil, d);
      LooseCtxFrame(m, m', x.up, nil, d);
    }
  }

  /** A completed subtree becomes a proper one once its root knows its parent. */
  lemma Adopt(m: Mem, m': Mem, t: Tree, par: Ref, nil: Ref, d: set<Ref>)
    requires LooseTree(m, t, nil) && Distinct(t)
    requires t.Node? ==> m.Has(t.n) && Links(m', t.n, m.left[t.n], m.right[t.n], par)
    requires Agrees(m, m', d) && Nodes(t) * d <= {Ptr(t, nil)}
    ensures Rep(m', t, par, nil)
  {
    if t.Node? {
      RepFrame(m, m', t.l, t.n, nil, d);
      RepFrame(m, m', t.r, t.n, nil, d);
    }
  }

  // ----- a node without children -----

  function LeafMem(m: Mem, n: Ref, c: Color, nil: Ref): Mem
    requires m.Has(n)
  {
    m.(left := m.left[n := nil], right := m.right[n := nil], color := m.color[n := c])
  }

  lemma LeafLoose(m: Mem, x: Ctx, n: Ref, c: Color, nil: Ref)
    requires Loose(m, x, Leaf, nil) && m.Has(n) && n != nil && n !in CtxNodes(x)
    ensures Loose(LeafMem(m, n, c, nil), x, Node(Leaf, n, c, m.key[n], Leaf), nil)
  {
    var m', t := LeafMem(m, n, c, nil), Node(Leaf, n, c, m.key[n], Leaf);
    assert Agrees(m, m', {n});
    LooseCtxFrame(m, m', x, nil, {n});
    CtxTaggedFrame(m.color, m'.color, m.key, m'.key, x, n);
    assert Nodes(t) == {n};
    assert Tagged(m'.color, m'.key, t);
  }

  // ----- the waiting node of the lowest slot gets its right child -----

  function AttachMem(m: Mem, n: Ref, p: Ref): Mem
    requires m.Has(n) && m.Has(p)
  {
    m.(right := m.right[n := p], parent := m.parent[p := n])
  }

  lemma AttachSeparate(up: Ctx, l: Tree, n: Ref, c: Color, k: int, t: Tree, nil: Ref)
    requires Separate(InRight(up, l, n, c, k), t, nil)
    ensures Separate(up, Node(l, n, c, k, t), nil)
  {
    assert CtxNodes(InRight(up, l, n, c, k)) == CtxNodes(up) + {n} + Nodes(l);
    assert Nodes(Node(l, n, c, k, t)) == Nodes(l) + {n} + Nodes(t);
  }

  lemma AttachLoose(m: Mem, x: Ctx, t: Tree, nil: Ref)
    requires x.InRight? && Loose(m, x, t, nil) && m.Has(nil)
    ensures m.Has(x.n) && m.Has(Ptr(t, nil))
    ensures Loose(AttachMem(m, x.n, Ptr(t, nil)), x.up, Lift(x, t), nil)
  {
    AttachSeparate(x.up, x.l, x.n, x.c, x.k, t, nil);
    var m', p, d := AttachMem(m, x.n, Ptr(t, nil)), Ptr(t, nil), {x.n, Ptr(t, nil)};
    assert Agrees(m, m', d);
    assert x.n != p && CtxNodes(x.up) !! d && Nodes(x.l) !! d && Nodes(t) * d <= {p};
    LooseCtxFrame(m, m', x.up, nil, d);
    RepFrame(m, m', x.l, x.n, nil, d);
    Adopt(m, m', t, x.n, nil, d);
  }

  /** As above with no right child at all; the sentinel's parent field is left alone. */
  function SealMem(m: Mem, n: Ref, nil: Ref): Mem
    requires m.Has(n)
  {
    m.(right := m.right[n := nil])
  }

  lemma SealLoose(m: Mem, x: Ctx, nil: Ref)
    requires x.InRight? && Loose(m, x, Leaf, nil)
    ensures m.Has(x.n) && Loose(SealMem(m, x.n, nil), x.up, Lift(x, Leaf), nil)
  {
    AttachSeparate(x.up, x.l, x.n, x.c, x.k, Leaf, nil);
    var m' := SealMem(m, x.n, nil);
    assert Agrees(m, m', {x.n});
    LooseCtxFrame(m, m', x.up, nil, {x.n});
    RepFrame(m, m', x.l, x.n, nil, {x.n});
  }

  // ----- a node above a completed subtree -----

  function UpperMem(m: Mem, n: Ref, p: Ref, c: Color): Mem
    requires m.Has(n) && m.Has(p)
  {
    m.(left := m.left[n := p], color := m.color[n := c], parent := m.parent[p := n])
  }

  lemma UpperLoose(m: Mem, x: Ctx, t: Tree, n: Ref, c: Color, nil: Ref)
    requires Loose(m, x, t, nil) && t.Node? && m.Has(n) && n != nil && n !in CtxNodes(x) && n !in Nodes(t)
    ensures m.Has(t.n) && Loose(UpperMem(m, n, t.n, c), InRight(x, t, n, c, m.key[n]), Leaf, nil)
  {
    var m', d := UpperMem(m, n, t.n, c), {n, t.n};
    assert Agrees(m, m', d);
    LooseCtxFrame(m, m', x, nil, d);
    Adopt(m, m', t, n, nil, d);
    CtxTaggedFrame(m.color, m'.color, m.key, m'.key, x, n);
    TaggedFrame(m.color, m'.color, m.key, m'.key, t, n);
  }

  // ----- the finished tree goes under the sentinel -----

  function CrownMem(m: Mem, p: Ref, nil: Ref): Mem
    requires m.Has(p) && m.Has(nil)
  {
    m.(color := m.color[nil := Black][p := Black], right := m.right[nil := nil],
       parent := m.parent[p := nil], left := m.left[nil := p])
  }

  lemma CrownFields(m: Mem, p: Ref, nil: Ref)
    requires m.Has(p) && m.Has(nil)
    ensures var m' := CrownMem(m, p, nil);
      && Agrees(m, m', {p, nil}) && m'.Has(nil) && m'.left[nil] == p && m'.right[nil] == nil
      && m'.Has(p) && m'.parent[p] == nil && (p != nil ==> m'.left[p] == m.left[p] && m'.right[p] == m.right[p])
      && m'.key == m.key && m'.color == m.color[nil := Black][p := Black]
  {
  }

  lemma CrownGood(m: Mem, t: Tree, nil: Ref)
    requires Loose(m, Top, t, nil) && m.Has(nil)
    ensures m.Has(Ptr(t, nil))
    ensures var m' := CrownMem(m, Ptr(t, nil), nil);
      && Good(m', Top, Paint(t, Black), nil) && m'.Has(nil) && m'.color[nil] == Black
      && (t.Leaf? ==> m'.parent[nil] == nil)
  {
    hide CrownMem;
    var p := Ptr(t, nil);
    var m', d, u := CrownMem(m, p, nil), {p, nil}, Paint(t, Black);
    CrownFields(m, p, nil);
    Adopt(m, m', t, nil, nil, d);
    assert Rep(m', u, nil, nil);
    assert Nodes(u) == Nodes(t);
    if t.Node? {
      var mid := m.color[nil := Black];
      TaggedFrame(m.color, mid, m.key, m.key, t.l, nil);
      TaggedFrame(m.color, mid, m.key, m.key, t.r, nil);
      TaggedFrame(mid, m'.color, m.key, m.key, t.l, p);
      TaggedFrame(mid, m'.color, m.key, m.key, t.r, p);
    }
  }
}
