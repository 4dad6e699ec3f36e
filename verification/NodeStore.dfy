/**
 * Node cells and the pointer surgery of the dictionary.
 *
 * A store holds every node cell (including each dictionary's nil sentinel) as
 * five parallel columns.  `Good(m, x, t, nil)` says that, in store `m`, the
 * dictionary with sentinel `nil` is the tree `t` hanging in the context `x`:
 * child, parent, colour and key fields all agree with it, and no cell occurs
 * twice.  Each pointer operation of the dictionary is a function on stores,
 * and a lemma says what it does to the tree.
 */
module NodeStore {
  import opened RedBlackTree

  datatype Mem = Mem(left: seq<Ref>, right: seq<Ref>, parent: seq<Ref>,
                     color: seq<Color>, key: seq<int>)
  {
    /** `n` is the address of a cell. */
    predicate Has(n: Ref) {
      0 <= n && n < |left| && n < |right| && n < |parent| && n < |color| && n < |key|
    }
  }

  // ----- cells of a tree and of a context -----

  ghost function Nodes(t: Tree): set<Ref> {
    if t.Leaf? then {} else Nodes(t.l) + {t.n} + Nodes(t.r)
  }

  ghost function CtxNodes(x: Ctx): set<Ref> {
    match x
    case Top => {}
    case InLeft(up, n, _, _, r) => CtxNodes(up) + {n} + Nodes(r)
    case InRight(up, l, n, _, _) => CtxNodes(up) + {n} + Nodes(l)
  }

  ghost predicate Distinct(t: Tree) {
    t.Node? ==>
      && t.n !in Nodes(t.l) && t.n !in Nodes(t.r) && Nodes(t.l) !! Nodes(t.r)
      && Distinct(t.l) && Distinct(t.r)
  }

  ghost predicate CtxDistinct(x: Ctx) {
    match x
    case Top => true
    case InLeft(up, n, _, _, r) =>
      && CtxDistinct(up) && Distinct(r) && CtxNodes(up) !! Nodes(r)
      && n !in Nodes(r) && n !in CtxNodes(up)
    case InRight(up, l, n, _, _) =>
      && CtxDistinct(up) && Distinct(l) && CtxNodes(up) !! Nodes(l)
      && n !in Nodes(l) && n !in CtxNodes(up)
  }

  ghost predicate Separate(x: Ctx, t: Tree, nil: Ref) {
    && CtxDistinct(x) && Distinct(t) && CtxNodes(x) !! Nodes(t)
    && nil !in Nodes(t) && nil !in CtxNodes(x)
  }

  // ----- a store implements a tree -----

  /** The pointer that stands for `t`, and for the parent of the hole of `x`. */
  function Ptr(t: Tree, nil: Ref): Ref { if t.Leaf? then nil else t.n }
  function Par(x: Ctx, nil: Ref): Ref { if x.Top? then nil else x.n }

  ghost predicate Rep(m: Mem, t: Tree, par: Ref, nil: Ref) {
    match t
    case Leaf => true
    case Node(l, n, _, _, r) =>
      && m.Has(n) && m.parent[n] == par && m.left[n] == Ptr(l, nil) && m.right[n] == Ptr(r, nil)
      && Rep(m, l, n, nil) && Rep(m, r, n, nil)
  }

  /** Colours and keys of a tree and of a context. */
  ghost predicate Tagged(color: seq<Color>, key: seq<int>, t: Tree) {
    match t
    case Leaf => true
    case Node(l, n, c, k, r) =>
      && 0 <= n < |color| && n < |key| && color[n] == c && key[n] == k
      && Tagged(color, key, l) && Tagged(color, key, r)
  }

  ghost predicate CtxTagged(color: seq<Color>, key: seq<int>, x: Ctx) {
    match x
    case Top => true
    case InLeft(up, n, c, k, r) =>
      && 0 <= n < |color| && n < |key| && color[n] == c && key[n] == k
      && CtxTagged(color, key, up) && Tagged(color, key, r)
    case InRight(up, l, n, c, k) =>
      && 0 <= n < |color| && n < |key| && color[n] == c && key[n] == k
      && CtxTagged(color, key, up) && Tagged(color, key, l)
  }

  /** The sentinel's left field is the root pointer, and its right field is itself. */
  ghost predicate RepCtx(m: Mem, x: Ctx, p: Ref, nil: Ref) {
    match x
    case Top => m.Has(nil) && m.left[nil] == p && m.right[nil] == nil
    case InLeft(up, n, _, _, r) =>
      && m.Has(n) && m.left[n] == p && m.right[n] == Ptr(r, nil) && m.parent[n] == Par(up, nil)
      && Rep(m, r, n, nil) && RepCtx(m, up, n, nil)
    case InRight(up, l, n, _, _) =>
      && m.Has(n) && m.left[n] == Ptr(l, nil) && m.right[n] == p && m.parent[n] == Par(up, nil)
      && Rep(m, l, n, nil) && RepCtx(m, up, n, nil)
  }

  ghost predicate Shape(m: Mem, x: Ctx, t: Tree, nil: Ref) {
    RepCtx(m, x, Ptr(t, nil), nil) && Rep(m, t, Par(x, nil), nil)
  }

  ghost predicate Tags(m: Mem, x: Ctx, t: Tree) {
    CtxTagged(m.color, m.key, x) && Tagged(m.color, m.key, t)
  }

  ghost predicate Good(m: Mem, x: Ctx, t: Tree, nil: Ref) {
    Shape(m, x, t, nil) && Tags(m, x, t) && Separate(x, t, nil)
  }

  // ----- moving the focus -----

  lemma ZipLeft(m: Mem, up: Ctx, t: Tree, n: Ref, c: Color, k: int, r: Tree, nil: Ref)
    ensures Good(m, InLeft(up, n, c, k, r), t, nil) <==> Good(m, up, Node(t, n, c, k, r), nil)
  {
    var x, u := InLeft(up, n, c, k, r), Node(t, n, c, k, r);
    assert Separate(x, t, nil) <==> Separate(up, u, nil) by {
      assert Nodes(u) == Nodes(t) + {n} + Nodes(r);
      assert CtxNodes(x) == CtxNodes(up) + {n} + Nodes(r);
    }
  }

  lemma ZipRight(m: Mem, up: Ctx, l: Tree, n: Ref, c: Color, k: int, t: Tree, nil: Ref)
    ensures Good(m, InRight(up, l, n, c, k), t, nil) <==> Good(m, up, Node(l, n, c, k, t), nil)
  {
    var x, u := InRight(up, l, n, c, k), Node(l, n, c, k, t);
    assert Separate(x, t, nil) <==> Separate(up, u, nil) by {
      assert Nodes(u) == Nodes(l) + {n} + Nodes(t);
      assert CtxNodes(x) == CtxNodes(up) + {n} + Nodes(l);
    }
  }

  /** The subtree one level up from the focus. */
  function Lift(x: Ctx, t: Tree): Tree
    requires !x.Top?
  {
    match x
    case InLeft(_, n, c, k, r) => Node(t, n, c, k, r)
    case InRight(_, l, n, c, k) => Node(l, n, c, k, t)
  }

  lemma LiftGood(m: Mem, x: Ctx, t: Tree, nil: Ref)
    requires !x.Top?
    ensures Good(m, x, t, nil) <==> Good(m, x.up, Lift(x, t), nil)
  {
    match x
    case InLeft(up, n, c, k, r) => ZipLeft(m, up, t, n, c, k, r, nil);
    case InRight(up, l, n, c, k) => ZipRight(m, up, l, n, c, k, t, nil);
  }

  /** Moving the focus by a whole context at once. */
  lemma {:induction false} GoodCompose(m: Mem, x: Ctx, y: Ctx, t: Tree, nil: Ref)
    ensures Good(m, Compose(x, y), t, nil) <==> Good(m, x, Plug(y, t), nil)
  {
    match y
    case Top =>
    case InLeft(up, n, c, k, r) =>
      ZipLeft(m, Compose(x, up), t, n, c, k, r, nil);
      GoodCompose(m, x, up, Node(t, n, c, k, r), nil);
    case InRight(up, l, n, c, k) =>
      ZipRight(m, Compose(x, up), l, n, c, k, t, nil);
      GoodCompose(m, x, up, Node(l, n, c, k, t), nil);
  }

  lemma {:induction false} ComposeTop(x: Ctx)
    ensures Compose(Top, x) == x
  {
    match x
    case Top =>
    case InLeft(up, _, _, _, _) => ComposeTop(up);
    case InRight(up, _, _, _, _) => ComposeTop(up);
  }

  lemma {:induction false} CtxNodesPlug(x: Ctx, t: Tree)
    ensures Nodes(Plug(x, t)) == CtxNodes(x) + Nodes(t)
  {
    match x
    case Top =>
    case InLeft(up, n, c, k, r) => CtxNodesPlug(up, Node(t, n, c, k, r));
    case InRight(up, l, n, c, k) => CtxNodesPlug(up, Node(l, n, c, k, t));
  }

  lemma {:induction false} CtxNodesCompose(x: Ctx, y: Ctx)
    ensures CtxNodes(Compose(x, y)) == CtxNodes(x) + CtxNodes(y)
  {
    match y
    case Top =>
    case InLeft(up, _, _, _, _) => CtxNodesCompose(x, up);
    case InRight(up, _, _, _, _) => CtxNodesCompose(x, up);
  }

  // ----- framing -----

  /** Cell `n` holds these three pointers. */
  predicate Links(m: Mem, n: Ref, left: Ref, right: Ref, parent: Ref) {
    m.Has(n) && m.left[n] == left && m.right[n] == right && m.parent[n] == parent
  }

  /** The two stores hold the same pointers outside `d`. */
  ghost predicate Agrees(m: Mem, m': Mem, d: set<Ref>) {
    forall n: Ref {:trigger m.Has(n)} | m.Has(n) && n !in d ::
      Links(m', n, m.left[n], m.right[n], m.parent[n])
  }

  lemma {:induction false} RepFrame(m: Mem, m': Mem, t: Tree, par: Ref, nil: Ref, d: set<Ref>)
    requires Rep(m, t, par, nil)
    requires Agrees(m, m', d) && Nodes(t) !! d
    ensures Rep(m', t, par, nil)
  {
    if t.Node? {
      RepFrame(m, m', t.l, t.n, nil, d);
      RepFrame(m, m', t.r, t.n, nil, d);
    }
  }

  ghost predicate SameRoot(m: Mem, m': Mem, nil: Ref) {
    m.Has(nil) ==> m'.Has(nil) && m'.left[nil] == m.left[nil] && m'.right[nil] == m.right[nil]
  }

  lemma {:induction false} RepCtxFrame(m: Mem, m': Mem, x: Ctx, p: Ref, nil: Ref, d: set<Ref>)
    requires RepCtx(m, x, p, nil)
    requires Agrees(m, m', d) && CtxNodes(x) !! d && SameRoot(m, m', nil)
    ensures RepCtx(m', x, p, nil)
  {
    match x
    case Top =>
    case InLeft(up, n, _, _, r) =>
      RepFrame(m, m', r, n, nil, d);
      RepCtxFrame(m, m', up, n, nil, d);
    case InRight(up, l, n, _, _) =>
      RepFrame(m, m', l, n, nil, d);
      RepCtxFrame(m, m', up, n, nil, d);
  }

  /** The root of a subtree gets a new parent. */
  lemma Reparent(m: Mem, m': Mem, t: Tree, par: Ref, par': Ref, nil: Ref, d: set<Ref>)
    requires Rep(m, t, par, nil) && Distinct(t)
    requires t.Node? ==> Links(m', t.n, m.left[t.n], m.right[t.n], par')
    requires Agrees(m, m', d) && Nodes(t) * d <= {Ptr(t, nil)}
    ensures Rep(m', t, par', nil)
  {
    if t.Node? {
      RepFrame(m, m', t.l, t.n, nil, d);
      RepFrame(m, m', t.r, t.n, nil, d);
    }
  }

  predicate Redirected(m: Mem, m': Mem, x: Ctx, p: Ref, nil: Ref) {
    && m.Has(nil) && m'.Has(nil) && m'.right[nil] == m.right[nil]
    && match x
       case Top => m'.left[nil] == p
       case InLeft(_, q, _, _, _) =>
         m.Has(q) && Links(m', q, p, m.right[q], m.parent[q]) && m'.left[nil] == m.left[nil]
       case InRight(_, _, q, _, _) =>
         m.Has(q) && Links(m', q, m.left[q], p, m.parent[q]) && m'.left[nil] == m.left[nil]
  }

  /** The pointer into the hole of a context is redirected from `p` to `p'`. */
  lemma Repoint(m: Mem, m': Mem, x: Ctx, p: Ref, p': Ref, nil: Ref, d: set<Ref>)
    requires RepCtx(m, x, p, nil) && CtxDistinct(x) && nil !in CtxNodes(x)
    requires Agrees(m, m', d) && CtxNodes(x) * d <= {Par(x, nil)}
    requires Redirected(m, m', x, p', nil)
    ensures RepCtx(m', x, p', nil)
  {
    match x
    case Top =>
    case InLeft(up, n, _, _, r) =>
      RepFrame(m, m', r, n, nil, d);
      RepCtxFrame(m, m', up, n, nil, d);
    case InRight(up, l, n, _, _) =>
      RepFrame(m, m', l, n, nil, d);
      RepCtxFrame(m, m', up, n, nil, d);
  }

  /** In a right-hand hole the other child is a different cell: rotations tell the sides apart by it. */
  lemma HoleSide(m: Mem, x: Ctx, t: Tree, nil: Ref)
    requires Shape(m, x, t, nil) && Separate(x, t, nil)
    ensures m.Has(nil) && m.Has(Par(x, nil)) && m.right[nil] == nil
    ensures x.InRight? && t.Node? ==> m.left[x.n] != t.n
    ensures x.InLeft? && t.Node? ==> m.right[x.n] != t.n
  {
    CtxHasNil(m, x, Ptr(t, nil), nil);
  }

  /** Colour and key columns that differ only at `n` agree about a tree without `n`. */
  lemma {:induction false} TaggedFrame(color: seq<Color>, color': seq<Color>, key: seq<int>, key': seq<int>,
                                       t: Tree, n: Ref)
    requires Tagged(color, key, t) && n !in Nodes(t)
    requires |color'| == |color| && |key'| == |key|
    requires forall i | 0 <= i < |color| && i != n :: color'[i] == color[i]
    requires forall i | 0 <= i < |key| && i != n :: key'[i] == key[i]
    ensures Tagged(color', key', t)
  {
    if t.Node? {
      TaggedFrame(color, color', key, key', t.l, n);
      TaggedFrame(color, color', key, key', t.r, n);
    }
  }

  lemma {:induction false} CtxTaggedFrame(color: seq<Color>, color': seq<Color>, key: seq<int>, key': seq<int>,
                                          x: Ctx, n: Ref)
    requires CtxTagged(color, key, x) && n !in CtxNodes(x)
    requires |color'| == |color| && |key'| == |key|
    requires forall i | 0 <= i < |color| && i != n :: color'[i] == color[i]
    requires forall i | 0 <= i < |key| && i != n :: key'[i] == key[i]
    ensures CtxTagged(color', key', x)
  {
    match x
    case Top =>
    case InLeft(up, _, _, _, r) =>
      TaggedFrame(color, color', key, key', r, n);
      CtxTaggedFrame(color, color', key, key', up, n);
    case InRight(up, l, _, _, _) =>
      TaggedFrame(color, color', key, key', l, n);
      CtxTaggedFrame(color, color', key, key', up, n);
  }

  lemma {:induction false} CtxHasNil(m: Mem, x: Ctx, p: Ref, nil: Ref)
    requires RepCtx(m, x, p, nil)
    ensures m.Has(nil) && m.right[nil] == nil
  {
    match x
    case Top =>
    case InLeft(up, n, _, _, _) => CtxHasNil(m, up, n, nil);
    case InRight(up, _, n, _, _) => CtxHasNil(m, up, n, nil);
  }

  // ----- a store with more cells -----

  ghost predicate Grown(m: Mem, m': Mem) {
    m.left <= m'.left && m.right <= m'.right && m.parent <= m'.parent && m.color <= m'.color && m.key <= m'.key
  }

  lemma {:induction false} TaggedGrown(color: seq<Color>, color': seq<Color>, key: seq<int>, key': seq<int>, t: Tree)
    requires Tagged(color, key, t) && color <= color' && key <= key'
    ensures Tagged(color', key', t)
  {
    if t.Node? {
      TaggedGrown(color, color', key, key', t.l);
      TaggedGrown(color, color', key, key', t.r);
    }
  }

  lemma GoodGrown(m: Mem, m': Mem, t: Tree, nil: Ref)
    requires Good(m, Top, t, nil) && Grown(m, m')
    ensures Good(m', Top, t, nil)
  {
    RepFrame(m, m', t, nil, nil, {});
    TaggedGrown(m.color, m'.color, m.key, m'.key, t);
  }

  lemma {:induction false} NodesAreCells(m: Mem, t: Tree, par: Ref, nil: Ref)
    requires Rep(m, t, par, nil)
    ensures forall n | n in Nodes(t) :: m.Has(n)
  {
    if t.Node? {
      NodesAreCells(m, t.l, t.n, nil);
      NodesAreCells(m, t.r, t.n, nil);
    }
  }

  // ----- what an operation leaves alone -----

  predicate SameCells(m: Mem, m': Mem) {
    && |m'.left| == |m.left| && |m'.right| == |m.right| && |m'.parent| == |m.parent|
    && |m'.color| == |m.color| && |m'.key| == |m.key|
  }

  /** Cells outside `own` hold what they held. */
  ghost predicate Framed(m: Mem, m': Mem, own: set<Ref>) {
    SameCells(m, m') &&
    forall n: Ref {:trigger m.Has(n)} | m.Has(n) && n !in own ::
      && m'.left[n] == m.left[n] && m'.right[n] == m.right[n] && m'.parent[n] == m.parent[n]
      && m'.color[n] == m.color[n] && m'.key[n] == m.key[n]
  }

  lemma FramedSelf(m: Mem, own: set<Ref>)
    ensures Framed(m, m, own)
  {
  }
}
