/**
 * The pointer operations of the dictionary, each as a function on stores
 * together with what it does to the tree the store implements.
 */
module NodeSurgery {
  import opened RedBlackTree
  import opened NodeStore

  // ----- rotate_left -----

  function RotL(t: Tree): Tree
    requires t.Node? && t.r.Node?
  {
    Node(Node(t.l, t.n, t.c, t.k, t.r.l), t.r.n, t.r.c, t.r.k, t.r.r)
  }

  predicate CanRotL(m: Mem, upper: Ref) {
    && m.Has(upper) && m.Has(m.right[upper]) && m.Has(m.left[m.right[upper]])
    && m.Has(m.parent[upper])
  }

  function RotLMem(m: Mem, upper: Ref): Mem
    requires CanRotL(m, upper)
  {
    var lower := m.right[upper];
    var lowleft := m.left[lower];
    var upparent := m.parent[lowleft := upper][upper];
    var parent' := m.parent[lowleft := upper][lower := upparent][upper := lower];
    if upper == m.left[upparent] then
      m.(left := m.left[upparent := lower][lower := upper],
         right := m.right[upper := lowleft],
         parent := parent')
    else
      m.(left := m.left[lower := upper],
         right := m.right[upper := lowleft][upparent := lower],
         parent := parent')
  }

  lemma RotLDisjoint(x: Ctx, t: Tree, nil: Ref) returns (d: set<Ref>)
    requires t.Node? && t.r.Node? && Separate(x, t, nil)
    ensures d == {t.n, t.r.n, Ptr(t.r.l, nil), Par(x, nil), nil}
    ensures Nodes(t.l) !! d && Nodes(t.r.r) !! d
    ensures Nodes(t.r.l) * d <= {Ptr(t.r.l, nil)} && CtxNodes(x) * d <= {Par(x, nil)}
    ensures t.n != t.r.n && t.n != nil && t.r.n != nil
    ensures Par(x, nil) !in {t.n, t.r.n} && Ptr(t.r.l, nil) !in {t.n, t.r.n}
    ensures Par(x, nil) == Ptr(t.r.l, nil) ==> x.Top? && t.r.l.Leaf?
    ensures Distinct(t.r.l) && (t.r.l.Node? ==> t.r.l.n != nil) && (!x.Top? ==> x.n != nil)
  {
    d := {t.n, t.r.n, Ptr(t.r.l, nil), Par(x, nil), nil};
    assert Distinct(t.r);
    assert Nodes(t.r.l) <= Nodes(t.r) && Nodes(t.r.r) <= Nodes(t.r);
  }

  lemma RotLSeparate(x: Ctx, t: Tree, nil: Ref)
    requires t.Node? && t.r.Node? && Separate(x, t, nil)
    ensures Separate(x, RotL(t), nil)
  {
    var u := RotL(t);
    assert Nodes(u.l) == Nodes(t.l) + {t.n} + Nodes(t.r.l);
    assert Nodes(t.r) == Nodes(t.r.l) + {t.r.n} + Nodes(t.r.r);
    assert Nodes(t) == Nodes(u);
    assert Distinct(t.r) && Distinct(u.l);
  }

  /** What every cell holds after the rotation. */
  lemma RotLFields(m: Mem, x: Ctx, t: Tree, nil: Ref, d: set<Ref>)
    requires t.Node? && t.r.Node? && CanRotL(m, t.n) && m.Has(nil) && m.right[nil] == nil
    requires m.right[t.n] == t.r.n && m.left[t.r.n] == Ptr(t.r.l, nil) && m.parent[t.n] == Par(x, nil)
    requires if x.InRight? then m.right[x.n] == t.n && m.left[x.n] != t.n else m.left[Par(x, nil)] == t.n
    requires d == {t.n, t.r.n, Ptr(t.r.l, nil), Par(x, nil), nil}
    requires t.n != t.r.n && t.n != nil && t.r.n != nil
    requires Par(x, nil) !in {t.n, t.r.n} && Ptr(t.r.l, nil) !in {t.n, t.r.n}
    requires Par(x, nil) == Ptr(t.r.l, nil) ==> x.Top? && t.r.l.Leaf?
    requires (t.r.l.Node? ==> t.r.l.n != nil) && (!x.Top? ==> x.n != nil)
    ensures var m', b := RotLMem(m, t.n), Ptr(t.r.l, nil);
      && Agrees(m, m', d)
      && Links(m', t.n, m.left[t.n], b, t.r.n)
      && Links(m', t.r.n, t.n, m.right[t.r.n], Par(x, nil))
      && (t.r.l.Node? ==> Links(m', b, m.left[b], m.right[b], t.n))
      && (t.r.l.Node? ==> m'.parent[nil] == m.parent[nil])
      && Redirected(m, m', x, t.r.n, nil)
  {
  }

  lemma RotLShape(m: Mem, x: Ctx, t: Tree, nil: Ref)
    requires t.Node? && t.r.Node? && Shape(m, x, t, nil) && Separate(x, t, nil)
    ensures CanRotL(m, t.n) && m.Has(nil)
    ensures Shape(RotLMem(m, t.n), x, RotL(t), nil)
    ensures t.r.l.Node? ==> RotLMem(m, t.n).parent[nil] == m.parent[nil]
  {
    hide RotLMem;
    assert Rep(m, t.r, t.n, nil) && Rep(m, t.r.l, t.r.n, nil);
    HoleSide(m, x, t, nil);
    var d := RotLDisjoint(x, t, nil);
    var m' := RotLMem(m, t.n);
    RotLFields(m, x, t, nil, d);
    RepFrame(m, m', t.l, t.n, nil, d);
    RepFrame(m, m', t.r.r, t.r.n, nil, d);
    Reparent(m, m', t.r.l, t.r.n, t.n, nil, d);
    Repoint(m, m', x, t.n, t.r.n, nil, d);
    assert Rep(m', RotL(t).l, t.r.n, nil);
  }

  /** rotate_left turns the tree at the focus and nothing else. */
  lemma RotLGood(m: Mem, x: Ctx, t: Tree, nil: Ref)
    requires t.Node? && t.r.Node? && Good(m, x, t, nil)
    ensures CanRotL(m, t.n) && m.Has(nil)
    ensures Good(RotLMem(m, t.n), x, RotL(t), nil)
    ensures t.r.l.Node? ==> RotLMem(m, t.n).parent[nil] == m.parent[nil]
  {
    RotLShape(m, x, t, nil);
    RotLSeparate(x, t, nil);
    assert Tagged(m.color, m.key, t.r);
    assert Tagged(m.color, m.key, RotL(t).l);
  }

  // ----- rotate_right -----

  function RotR(t: Tree): Tree
    requires t.Node? && t.l.Node?
  {
    Node(t.l.l, t.l.n, t.l.c, t.l.k, Node(t.l.r, t.n, t.c, t.k, t.r))
  }

  predicate CanRotR(m: Mem, upper: Ref) {
    && m.Has(upper) && m.Has(m.left[upper]) && m.Has(m.right[m.left[upper]])
    && m.Has(m.parent[upper])
  }

  function RotRMem(m: Mem, upper: Ref): Mem
    requires CanRotR(m, upper)
  {
    var lower := m.left[upper];
    var lowright := m.right[lower];
    var upparent := m.parent[lowright := upper][upper];
    var parent' := m.parent[lowright := upper][lower := upparent][upper := lower];
    if upper == m.right[upparent] then
      m.(right := m.right[upparent := lower][lower := upper],
         left := m.left[upper := lowright],
         parent := parent')
    else
      m.(right := m.right[lower := upper],
         left := m.left[upper := lowright][upparent := lower],
         parent := parent')
  }

  lemma RotRDisjoint(x: Ctx, t: Tree, nil: Ref) returns (d: set<Ref>)
    requires t.Node? && t.l.Node? && Separate(x, t, nil)
    ensures d == {t.n, t.l.n, Ptr(t.l.r, nil), Par(x, nil), nil}
    ensures Nodes(t.r) !! d && Nodes(t.l.l) !! d
    ensures Nodes(t.l.r) * d <= {Ptr(t.l.r, nil)} && CtxNodes(x) * d <= {Par(x, nil)}
    ensures t.n != t.l.n && t.n != nil && t.l.n != nil
    ensures Par(x, nil) !in {t.n, t.l.n} && Ptr(t.l.r, nil) !in {t.n, t.l.n}
    ensures Par(x, nil) == Ptr(t.l.r, nil) ==> x.Top? && t.l.r.Leaf?
    ensures Distinct(t.l.r) && (t.l.r.Node? ==> t.l.r.n != nil) && (!x.Top? ==> x.n != nil)
  {
    d := {t.n, t.l.n, Ptr(t.l.r, nil), Par(x, nil), nil};
    assert Distinct(t.l);
    assert Nodes(t.l.r) <= Nodes(t.l) && Nodes(t.l.l) <= Nodes(t.l);
  }

  lemma RotRSeparate(x: Ctx, t: Tree, nil: Ref)
    requires t.Node? && t.l.Node? && Separate(x, t, nil)
    ensures Separate(x, RotR(t), nil)
  {
    var u := RotR(t);
    assert Nodes(u.r) == Nodes(t.r) + {t.n} + Nodes(t.l.r);
    assert Nodes(t.l) == Nodes(t.l.r) + {t.l.n} + Nodes(t.l.l);
    assert Nodes(t) == Nodes(u);
    assert Distinct(t.l) && Distinct(u.r);
  }

  /** What every cell holds after the rotation. */
  lemma RotRFields(m: Mem, x: Ctx, t: Tree, nil: Ref, d: set<Ref>)
    requires t.Node? && t.l.Node? && CanRotR(m, t.n) && m.Has(nil) && m.right[nil] == nil
    requires m.left[t.n] == t.l.n && m.right[t.l.n] == Ptr(t.l.r, nil) && m.parent[t.n] == Par(x, nil)
    requires if x.InRight? then m.right[x.n] == t.n else m.left[Par(x, nil)] == t.n && m.right[Par(x, nil)] != t.n
    requires d == {t.n, t.l.n, Ptr(t.l.r, nil), Par(x, nil), nil}
    requires t.n != t.l.n && t.n != nil && t.l.n != nil
    requires Par(x, nil) !in {t.n, t.l.n} && Ptr(t.l.r, nil) !in {t.n, t.l.n}
    requires Par(x, nil) == Ptr(t.l.r, nil) ==> x.Top? && t.l.r.Leaf?
    requires (t.l.r.Node? ==> t.l.r.n != nil) && (!x.Top? ==> x.n != nil)
    ensures var m', b := RotRMem(m, t.n), Ptr(t.l.r, nil);
      && Agrees(m, m', d)
      && Links(m', t.n, b, m.right[t.n], t.l.n)
      && Links(m', t.l.n, m.left[t.l.n], t.n, Par(x, nil))
      && (t.l.r.Node? ==> Links(m', b, m.left[b], m.right[b], t.n))
      && (t.l.r.Node? ==> m'.parent[nil] == m.parent[nil])
      && Redirected(m, m', x, t.l.n, nil)
  {
  }

  lemma RotRShape(m: Mem, x: Ctx, t: Tree, nil: Ref)
    requires t.Node? && t.l.Node? && Shape(m, x, t, nil) && Separate(x, t, nil)
    ensures CanRotR(m, t.n) && m.Has(nil)
    ensures Shape(RotRMem(m, t.n), x, RotR(t), nil)
    ensures t.l.r.Node? ==> RotRMem(m, t.n).parent[nil] == m.parent[nil]
  {
    hide RotRMem;
    assert Rep(m, t.l, t.n, nil) && Rep(m, t.l.r, t.l.n, nil);
    HoleSide(m, x, t, nil);
    var d := RotRDisjoint(x, t, nil);
    var m' := RotRMem(m, t.n);
    RotRFields(m, x, t, nil, d);
    RepFrame(m, m', t.r, t.n, nil, d);
    RepFrame(m, m', t.l.l, t.l.n, nil, d);
    Reparent(m, m', t.l.r, t.l.n, t.n, nil, d);
    Repoint(m, m', x, t.n, t.l.n, nil, d);
    assert Rep(m', RotR(t).r, t.l.n, nil);
  }

  /** rotate_right turns the tree at the focus and nothing else. */
  lemma RotRGood(m: Mem, x: Ctx, t: Tree, nil: Ref)
    requires t.Node? && t.l.Node? && Good(m, x, t, nil)
    ensures CanRotR(m, t.n) && m.Has(nil)
    ensures Good(RotRMem(m, t.n), x, RotR(t), nil)
    ensures t.l.r.Node? ==> RotRMem(m, t.n).parent[nil] == m.parent[nil]
  {
    RotRShape(m, x, t, nil);
    RotRSeparate(x, t, nil);
    assert Tagged(m.color, m.key, t.l);
    assert Tagged(m.color, m.key, RotR(t).r);
  }

  // ----- colours -----

  function PaintMem(m: Mem, n: Ref, c: Color): Mem
    requires m.Has(n)
  {
    m.(color := m.color[n := c])
  }

  lemma PaintShape(m: Mem, x: Ctx, t: Tree, n: Ref, c: Color, nil: Ref)
    requires m.Has(n) && Shape(m, x, t, nil)
    ensures Shape(PaintMem(m, n, c), x, t, nil)
  {
    var m' := PaintMem(m, n, c);
    assert Agrees(m, m', {});
    RepFrame(m, m', t, Par(x, nil), nil, {});
    RepCtxFrame(m, m', x, Ptr(t, nil), nil, {});
  }

  /** Painting the node at the focus. */
  lemma PaintGood(m: Mem, x: Ctx, t: Tree, c: Color, nil: Ref)
    requires t.Node? && Good(m, x, t, nil)
    ensures m.Has(t.n) && Good(PaintMem(m, t.n, c), x, Paint(t, c), nil)
  {
    var m' := PaintMem(m, t.n, c);
    PaintShape(m, x, t, t.n, c, nil);
    TaggedFrame(m.color, m'.color, m.key, m'.key, t.l, t.n);
    TaggedFrame(m.color, m'.color, m.key, m'.key, t.r, t.n);
    CtxTaggedFrame(m.color, m'.color, m.key, m'.key, x, t.n);
    assert Nodes(Paint(t, c)) == Nodes(t);
    assert Rep(m', Paint(t, c), Par(x, nil), nil);
  }

  /** Painting a cell that is not in the tree, such as the sentinel. */
  lemma PaintOther(m: Mem, x: Ctx, t: Tree, n: Ref, c: Color, nil: Ref)
    requires m.Has(n) && Good(m, x, t, nil) && n !in Nodes(t) && n !in CtxNodes(x)
    ensures Good(PaintMem(m, n, c), x, t, nil)
  {
    var m' := PaintMem(m, n, c);
    PaintShape(m, x, t, n, c, nil);
    TaggedFrame(m.color, m'.color, m.key, m'.key, t, n);
    CtxTaggedFrame(m.color, m'.color, m.key, m'.key, x, n);
  }

  lemma PaintLeft(m: Mem, x: Ctx, t: Tree, c: Color, nil: Ref)
    requires t.Node? && t.l.Node? && Good(m, x, t, nil)
    ensures m.Has(t.l.n) && Good(PaintMem(m, t.l.n, c), x, t.(l := Paint(t.l, c)), nil)
  {
    var y := InLeft(x, t.n, t.c, t.k, t.r);
    ZipLeft(m, x, t.l, t.n, t.c, t.k, t.r, nil);
    PaintGood(m, y, t.l, c, nil);
    ZipLeft(PaintMem(m, t.l.n, c), x, Paint(t.l, c), t.n, t.c, t.k, t.r, nil);
  }

  lemma PaintRight(m: Mem, x: Ctx, t: Tree, c: Color, nil: Ref)
    requires t.Node? && t.r.Node? && Good(m, x, t, nil)
    ensures m.Has(t.r.n) && Good(PaintMem(m, t.r.n, c), x, t.(r := Paint(t.r, c)), nil)
  {
    var y := InRight(x, t.l, t.n, t.c, t.k);
    ZipRight(m, x, t.l, t.n, t.c, t.k, t.r, nil);
    PaintGood(m, y, t.r, c, nil);
    ZipRight(PaintMem(m, t.r.n, c), x, t.l, t.n, t.c, t.k, Paint(t.r, c), nil);
  }

  // ----- dict_insert: hanging a new red leaf -----

  function GraftMem(m: Mem, q: Ref, asLeft: bool, node: Ref, key: int, nil: Ref): Mem
    requires m.Has(q) && m.Has(node)
  {
    Mem((if asLeft then m.left[q := node] else m.left)[node := nil],
        (if asLeft then m.right else m.right[q := node])[node := nil],
        m.parent[node := q], m.color[node := Red], m.key[node := key])
  }

  lemma GraftGood(m: Mem, x: Ctx, node: Ref, key: int, nil: Ref)
    requires Good(m, x, Leaf, nil) && m.Has(node) && node != nil && node !in CtxNodes(x)
    ensures m.Has(Par(x, nil))
    ensures Good(GraftMem(m, Par(x, nil), !x.InRight?, node, key, nil), x,
                 Node(Leaf, node, Red, key, Leaf), nil)
  {
    hide GraftMem;
    HoleSide(m, x, Leaf, nil);
    var q, t := Par(x, nil), Node(Leaf, node, Red, key, Leaf);
    var m' := GraftMem(m, q, !x.InRight?, node, key, nil);
    var d := {node, q};
    assert q != node;
    GraftFields(m, x, node, key, nil);
    Repoint(m, m', x, nil, node, nil, d);
    CtxTaggedFrame(m.color, m'.color, m.key, m'.key, x, node);
    SingleNode(m', node, Red, key, q, nil);
  }

  lemma SingleNode(m: Mem, node: Ref, c: Color, key: int, q: Ref, nil: Ref)
    requires Links(m, node, nil, nil, q) && m.color[node] == c && m.key[node] == key
    ensures var t := Node(Leaf, node, c, key, Leaf);
      Rep(m, t, q, nil) && Tagged(m.color, m.key, t) && Distinct(t) && Nodes(t) == {node}
  {
    var t := Node(Leaf, node, c, key, Leaf);
    assert t.l == Leaf && t.r == Leaf && Tagged(m.color, m.key, Leaf) && Distinct(Leaf) && Nodes(Leaf) == {};
  }

  lemma GraftFields(m: Mem, x: Ctx, node: Ref, key: int, nil: Ref)
    requires m.Has(node) && m.Has(Par(x, nil)) && Par(x, nil) != node && m.Has(nil) && node != nil
    requires !x.Top? ==> x.n != nil
    ensures var q := Par(x, nil);
      var m' := GraftMem(m, q, !x.InRight?, node, key, nil);
      && Agrees(m, m', {node, q}) && Links(m', node, nil, nil, q) && Redirected(m, m', x, node, nil)
      && m'.color == m.color[node := Red] && m'.key == m.key[node := key]
  {
  }

  // ----- dict_delete: moving an only child up -----

  predicate CanSplice(m: Mem, del: Ref, child: Ref) {
    m.Has(del) && m.Has(child) && m.Has(m.parent[del])
  }

  function SpliceMem(m: Mem, del: Ref, child: Ref): Mem
    requires CanSplice(m, del, child)
  {
    var q := m.parent[del];
    var m1 := m.(parent := m.parent[child := q]);
    if m1.left[q] == del then m1.(left := m1.left[q := child]) else m1.(right := m1.right[q := child])
  }

  function OnlyChild(t: Tree): Tree
    requires t.Node?
  {
    if t.l.Node? then t.l else t.r
  }

  lemma SpliceFields(m: Mem, x: Ctx, del: Ref, p: Ref, nil: Ref)
    requires p != Par(x, nil) || (p == nil && x.Top?)
    requires CanSplice(m, del, p) && m.parent[del] == Par(x, nil) && m.Has(nil)
    requires if x.InRight? then m.left[x.n] != del else m.left[Par(x, nil)] == del
    requires !x.Top? ==> x.n != nil
    ensures var m' := SpliceMem(m, del, p);
      && Agrees(m, m', {p, Par(x, nil)}) && Redirected(m, m', x, p, nil)
      && m'.color == m.color && m'.key == m.key && m'.parent[p] == Par(x, nil)
      && (p != Par(x, nil) ==> Links(m', p, m.left[p], m.right[p], Par(x, nil)))
  {
  }

  lemma SpliceShape(m: Mem, x: Ctx, t: Tree, nil: Ref)
    requires t.Node? && (t.l.Leaf? || t.r.Leaf?) && Shape(m, x, t, nil) && Separate(x, t, nil)
    ensures var s := OnlyChild(t);
      && CanSplice(m, t.n, Ptr(s, nil)) && m.Has(nil)
      && var m' := SpliceMem(m, t.n, Ptr(s, nil));
         Shape(m', x, s, nil) && m'.parent[Ptr(s, nil)] == Par(x, nil)
  {
    hide SpliceMem;
    var s := OnlyChild(t);
    var p := Ptr(s, nil);
    HoleSide(m, x, t, nil);
    assert Rep(m, s, t.n, nil);
    var m' := SpliceMem(m, t.n, p);
    var d := {p, Par(x, nil)};
    assert Distinct(s) && Nodes(s) <= Nodes(t) && Nodes(s) * d <= {p} && CtxNodes(x) * d <= {Par(x, nil)};
    SpliceFields(m, x, t.n, p, nil);
    Reparent(m, m', s, t.n, Par(x, nil), nil, d);
    Repoint(m, m', x, t.n, p, nil, d);
  }

  /** A node with at most one child is replaced by that child, which learns its new parent -- the sentinel too. */
  lemma SpliceGood(m: Mem, x: Ctx, t: Tree, nil: Ref)
    requires t.Node? && (t.l.Leaf? || t.r.Leaf?) && Good(m, x, t, nil)
    ensures var s := OnlyChild(t);
      && CanSplice(m, t.n, Ptr(s, nil)) && m.Has(nil)
      && var m' := SpliceMem(m, t.n, Ptr(s, nil));
         Good(m', x, s, nil) && m'.parent[Ptr(s, nil)] == Par(x, nil)
    ensures t.n !in Nodes(OnlyChild(t)) && t.n !in CtxNodes(x) && t.n != nil
  {
    SpliceShape(m, x, t, nil);
    var s := OnlyChild(t);
    assert Tagged(m.color, m.key, s) && Nodes(s) <= Nodes(t);
  }

  // ----- dict_delete: putting the successor in the place of the deleted node -----

  predicate CanReplace(m: Mem, del: Ref, next: Ref) {
    m.Has(del) && m.Has(next) && m.Has(m.parent[del]) && m.Has(m.left[del]) && m.Has(m.right[del])
  }

  function ReplaceMem(m: Mem, del: Ref, next: Ref): Mem
    requires CanReplace(m, del, next)
  {
    var q, a, b := m.parent[del], m.left[del], m.right[del];
    var m1 := m.(parent := m.parent[next := q][a := next][b := next],
                 left := m.left[next := a], right := m.right[next := b],
                 color := m.color[next := m.color[del]][del := m.color[next]]);
    if m1.left[q] == del then m1.(left := m1.left[q := next]) else m1.(right := m1.right[q := next])
  }

  /** The cells that ReplaceMem writes are different ones. */
  ghost predicate ReplaceCase(m: Mem, x: Ctx, t: Tree, next: Ref, nil: Ref) {
    && t.Node? && CanReplace(m, t.n, next) && m.Has(nil) && m.right[nil] == nil
    && m.left[t.n] == Ptr(t.l, nil) && m.right[t.n] == Ptr(t.r, nil) && m.parent[t.n] == Par(x, nil)
    && (if x.InRight? then m.Has(x.n) && m.right[x.n] == t.n && m.left[x.n] != t.n else m.left[Par(x, nil)] == t.n)
    && next !in {t.n, nil, Ptr(t.l, nil), Ptr(t.r, nil), Par(x, nil)}
    && t.n !in {Ptr(t.l, nil), Ptr(t.r, nil), Par(x, nil), nil}
    && (t.l.Node? ==> t.l.n !in {nil, Ptr(t.r, nil), Par(x, nil)})
    && (t.r.Node? ==> t.r.n !in {nil, Par(x, nil)})
    && (!x.Top? ==> x.n != nil)
  }

  lemma ReplaceAgrees(m: Mem, x: Ctx, t: Tree, next: Ref, nil: Ref, d: set<Ref>)
    requires ReplaceCase(m, x, t, next, nil) && d == {next, Ptr(t.l, nil), Ptr(t.r, nil), Par(x, nil), nil}
    ensures Agrees(m, ReplaceMem(m, t.n, next), d)
  {
  }

  lemma ReplaceRedirects(m: Mem, x: Ctx, t: Tree, next: Ref, nil: Ref)
    requires ReplaceCase(m, x, t, next, nil)
    ensures Redirected(m, ReplaceMem(m, t.n, next), x, next, nil)
  {
  }

  lemma ReplaceFields(m: Mem, x: Ctx, t: Tree, next: Ref, nil: Ref)
    requires ReplaceCase(m, x, t, next, nil)
    ensures var m', a, b := ReplaceMem(m, t.n, next), Ptr(t.l, nil), Ptr(t.r, nil);
      && Links(m', next, a, b, Par(x, nil))
      && (t.l.Node? ==> Links(m', a, m.left[a], m.right[a], next))
      && (t.r.Node? ==> Links(m', b, m.left[b], m.right[b], next))
      && m'.parent[nil] == (if t.l.Leaf? || t.r.Leaf? then next else m.parent[nil])
  {
  }

  lemma ReplaceApplies(m: Mem, x: Ctx, t: Tree, next: Ref, nil: Ref, d: set<Ref>)
    requires t.Node? && Shape(m, x, t, nil) && Separate(x, t, nil)
    requires m.Has(next) && next != nil && next !in Nodes(t) && next !in CtxNodes(x)
    requires d == {next, Ptr(t.l, nil), Ptr(t.r, nil), Par(x, nil), nil}
    ensures ReplaceCase(m, x, t, next, nil) && CanReplace(m, t.n, next) && m.Has(nil)
    ensures Rep(m, t.l, t.n, nil) && Rep(m, t.r, t.n, nil) && RepCtx(m, x, t.n, nil)
    ensures Distinct(t.l) && Distinct(t.r) && CtxDistinct(x) && nil !in CtxNodes(x)
    ensures Nodes(t.l) * d <= {Ptr(t.l, nil)} && Nodes(t.r) * d <= {Ptr(t.r, nil)} && CtxNodes(x) * d <= {Par(x, nil)}
  {
    HoleSide(m, x, t, nil);
    assert Rep(m, t.l, t.n, nil) && Rep(m, t.r, t.n, nil);
    assert Nodes(t) == Nodes(t.l) + {t.n} + Nodes(t.r);
  }

  lemma ReplaceShape(m: Mem, x: Ctx, t: Tree, next: Ref, k: int, nil: Ref)
    requires t.Node? && Shape(m, x, t, nil) && Separate(x, t, nil)
    requires m.Has(next) && next != nil && next !in Nodes(t) && next !in CtxNodes(x)
    ensures CanReplace(m, t.n, next) && m.Has(nil)
    ensures Shape(ReplaceMem(m, t.n, next), x, Node(t.l, next, t.c, k, t.r), nil)
    ensures ReplaceMem(m, t.n, next).parent[nil] == (if t.l.Leaf? || t.r.Leaf? then next else m.parent[nil])
  {
    hide ReplaceMem, ReplaceCase, CanReplace, Agrees, Redirected, Separate;
    var d := {next, Ptr(t.l, nil), Ptr(t.r, nil), Par(x, nil), nil};
    ReplaceApplies(m, x, t, next, nil, d);
    var m' := ReplaceMem(m, t.n, next);
    ReplaceAgrees(m, x, t, next, nil, d);
    ReplaceRedirects(m, x, t, next, nil);
    ReplaceFields(m, x, t, next, nil);
    Reparent(m, m', t.l, t.n, next, nil, d);
    Reparent(m, m', t.r, t.n, next, nil, d);
    Repoint(m, m', x, t.n, next, nil, d);
  }

  lemma ReplaceTags(m: Mem, x: Ctx, t: Tree, next: Ref, nil: Ref)
    requires t.Node? && Tags(m, x, t) && Separate(x, t, nil) && CanReplace(m, t.n, next)
    requires next !in Nodes(t) && next !in CtxNodes(x)
    ensures Tags(ReplaceMem(m, t.n, next), x, Node(t.l, next, t.c, m.key[next], t.r))
    ensures ReplaceMem(m, t.n, next).color[t.n] == m.color[next]
  {
    var mid := m.color[next := m.color[t.n]];
    var end := mid[t.n := m.color[next]];
    assert ReplaceMem(m, t.n, next).color == end;
    TaggedFrame(m.color, mid, m.key, m.key, t.l, next);
    TaggedFrame(m.color, mid, m.key, m.key, t.r, next);
    CtxTaggedFrame(m.color, mid, m.key, m.key, x, next);
    TaggedFrame(mid, end, m.key, m.key, t.l, t.n);
    TaggedFrame(mid, end, m.key, m.key, t.r, t.n);
    CtxTaggedFrame(mid, end, m.key, m.key, x, t.n);
  }

  /** `next`, taken from outside the tree, takes over position and colour; the old node gets its colour. */
  lemma ReplaceGood(m: Mem, x: Ctx, t: Tree, next: Ref, nil: Ref)
    requires t.Node? && Good(m, x, t, nil)
    requires m.Has(next) && next != nil && next !in Nodes(t) && next !in CtxNodes(x)
    ensures CanReplace(m, t.n, next) && m.Has(nil)
    ensures Good(ReplaceMem(m, t.n, next), x, Node(t.l, next, t.c, m.key[next], t.r), nil)
    ensures ReplaceMem(m, t.n, next).color[t.n] == m.color[next]
    ensures ReplaceMem(m, t.n, next).parent[nil] == (if t.l.Leaf? || t.r.Leaf? then next else m.parent[nil])
    ensures t.n !in Nodes(t.l) + {next} + Nodes(t.r) && t.n !in CtxNodes(x) && t.n != nil
  {
    ReplaceShape(m, x, t, next, m.key[next], nil);
    ReplaceTags(m, x, t, next, nil);
    var u := Node(t.l, next, t.c, m.key[next], t.r);
    assert Nodes(u) == Nodes(t.l) + {next} + Nodes(t.r);
    assert Nodes(t) == Nodes(t.l) + {t.n} + Nodes(t.r);
    assert Separate(x, u, nil);
  }

  // ----- writing to a cell outside the tree -----

  function UnlinkMem(m: Mem, n: Ref): Mem
    requires m.Has(n)
  {
    m.(parent := m.parent[n := NULL], right := m.right[n := NULL], left := m.left[n := NULL])
  }

  lemma UnlinkGood(m: Mem, x: Ctx, t: Tree, n: Ref, nil: Ref)
    requires Good(m, x, t, nil) && m.Has(n) && n != nil && n !in Nodes(t) && n !in CtxNodes(x)
    ensures Good(UnlinkMem(m, n), x, t, nil)
  {
    var m' := UnlinkMem(m, n);
    CtxHasNil(m, x, Ptr(t, nil), nil);
    assert Agrees(m, m', {n});
    RepFrame(m, m', t, Par(x, nil), nil, {n});
    RepCtxFrame(m, m', x, Ptr(t, nil), nil, {n});
  }
}
