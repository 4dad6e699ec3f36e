/**
 * What dict_next relies on.  Stepping forward from a node looks only at the
 * nodes ahead of it, at the right and parent pointers on the way up, and never
 * at the left pointer of a node already passed.  dict_merge lives on that: it
 * reuses the left pointers of passed nodes while the walk goes on.
 */
module DictWalk {
  import opened RedBlackTree
  import opened NodeStore

  /** The path up from the child `p`, as far as stepping forward uses it. */
  ghost predicate AheadCtx(m: Mem, x: Ctx, p: Ref, nil: Ref) {
    match x
    case Top => true
    case InLeft(up, n, _, _, r) =>
      && m.Has(n) && n != nil && m.right[n] == Ptr(r, nil) && m.right[n] != p
      && m.parent[n] == Par(up, nil)
      && Rep(m, r, n, nil) && Distinct(r) && nil !in Nodes(r)
      && AheadCtx(m, up, n, nil)
    case InRight(up, _, n, _, _) =>
      && m.Has(n) && n != nil && m.right[n] == p && m.parent[n] == Par(up, nil)
      && AheadCtx(m, up, n, nil)
  }

  /** The node at the focus and everything ahead of it. */
  ghost predicate AheadOf(m: Mem, x: Ctx, t: Tree, nil: Ref) {
    && t.Node? && m.Has(t.n) && t.n != nil
    && m.parent[t.n] == Par(x, nil) && m.right[t.n] == Ptr(t.r, nil)
    && Rep(m, t.r, t.n, nil) && Distinct(t.r) && nil !in Nodes(t.r)
    && AheadCtx(m, x, t.n, nil)
  }

  /** The entries after the node at the focus. */
  function Rest(x: Ctx, t: Tree): seq<Entry>
    requires t.Node?
  {
    Inorder(t.r) + After(x)
  }

  ghost predicate InPlace(m: Mem, x: Ctx, t: Tree, p: Ref, nil: Ref) {
    Rep(m, t, Par(x, nil), nil) && AheadCtx(m, x, p, nil) && Distinct(t) && nil !in Nodes(t)
  }

  lemma {:induction false} GoodAheadCtx(m: Mem, x: Ctx, p: Ref, nil: Ref)
    requires RepCtx(m, x, p, nil) && CtxDistinct(x) && nil !in CtxNodes(x)
    requires p !in CtxNodes(x) && p != nil
    ensures AheadCtx(m, x, p, nil)
  {
    match x
    case Top =>
    case InLeft(up, n, _, _, _) => GoodAheadCtx(m, up, n, nil);
    case InRight(up, _, n, _, _) => GoodAheadCtx(m, up, n, nil);
  }

  /** A proper tree can be walked from any of its nodes. */
  lemma GoodAhead(m: Mem, x: Ctx, t: Tree, nil: Ref)
    requires Good(m, x, t, nil) && t.Node?
    ensures AheadOf(m, x, t, nil) && InPlace(m, x, t, t.n, nil)
  {
    GoodAheadCtx(m, x, t.n, nil);
  }

  /** One step of the walk down to the leftmost node. */
  lemma DownLeft(m: Mem, x: Ctx, t: Tree, nil: Ref)
    requires t.Node? && InPlace(m, x, t, t.n, nil)
    ensures m.Has(t.n) && m.left[t.n] == Ptr(t.l, nil) && m.right[t.n] == Ptr(t.r, nil) && t.n != nil
    ensures t.l.Node? ==> InPlace(m, InLeft(x, t.n, t.c, t.k, t.r), t.l, t.l.n, nil) && t.l.n != nil
    ensures AheadOf(m, x, t, nil)
  {
  }

  lemma DownRight(m: Mem, x: Ctx, t: Tree, nil: Ref)
    requires AheadOf(m, x, t, nil) && t.r.Node?
    ensures InPlace(m, InRight(x, t.l, t.n, t.c, t.k), t.r, t.r.n, nil)
  {
  }

  /** Contexts of left steps only: nothing lies before their hole. */
  predicate LeftSpine(y: Ctx) {
    match y
    case Top => true
    case InLeft(up, _, _, _, _) => LeftSpine(up)
    case InRight(_, _, _, _, _) => false
  }

  lemma {:induction false} LeftSpineBefore(y: Ctx)
    requires LeftSpine(y)
    ensures Before(y) == []
  {
    if y.InLeft? { LeftSpineBefore(y.up); }
  }

  lemma {:induction false} AfterCompose(x: Ctx, y: Ctx)
    ensures After(Compose(x, y)) == After(y) + After(x)
  {
    match y
    case Top =>
    case InLeft(up, n, _, k, r) =>
      AfterCompose(x, up);
      ConcatAssoc([Entry(n, k)] + Inorder(r), After(up), After(x));
    case InRight(up, _, _, _, _) => AfterCompose(x, up);
  }

  lemma Rechain<T>(e: seq<T>, p: seq<T>, q: seq<T>, r: seq<T>)
    ensures [] + ([] + e + p) + q + r == e + (p + (q + r))
  {
  }

  /** The leftmost node comes first. */
  lemma LeftmostFirst(x: Ctx, y: Ctx, t: Tree, s: Tree)
    requires Plug(y, s) == t && s.Node? && s.l.Leaf? && LeftSpine(y)
    ensures Inorder(t) + After(x) == [Entry(s.n, s.k)] + Rest(Compose(x, y), s)
  {
    PlugInorder(y, s);
    LeftSpineBefore(y);
    AfterCompose(x, y);
    Rechain([Entry(s.n, s.k)], Inorder(s.r), After(y), After(x));
  }

  // ----- the walk does not mind changes behind it -----

  /** The cells on the way up and ahead; the walk never leaves this set. */
  ghost function PathCells(x: Ctx): set<Ref> {
    match x
    case Top => {}
    case InLeft(up, n, _, _, r) => {n} + Nodes(r) + PathCells(up)
    case InRight(up, _, n, _, _) => {n} + PathCells(up)
  }

  ghost function AheadCells(x: Ctx, t: Tree): set<Ref>
    requires t.Node?
  {
    {t.n} + Nodes(t.r) + PathCells(x)
  }

  lemma {:induction false} PathCellsCompose(x: Ctx, y: Ctx)
    ensures PathCells(Compose(x, y)) == PathCells(x) + PathCells(y)
  {
    match y
    case Top =>
    case InLeft(up, _, _, _, _) => PathCellsCompose(x, up);
    case InRight(up, _, _, _, _) => PathCellsCompose(x, up);
  }

  lemma {:induction false} PathInCtx(x: Ctx)
    ensures PathCells(x) <= CtxNodes(x)
  {
    match x
    case Top =>
    case InLeft(up, _, _, _, _) => PathInCtx(up);
    case InRight(up, _, _, _, _) => PathInCtx(up);
  }

  /** Going down to the leftmost node stays within the subtree. */
  lemma LeftmostCells(x: Ctx, y: Ctx, t: Tree, s: Tree)
    requires Plug(y, s) == t && s.Node?
    ensures AheadCells(Compose(x, y), s) <= Nodes(t) + PathCells(x)
  {
    PathCellsCompose(x, y);
    PathInCtx(y);
    CtxNodesPlug(y, s);
  }

  lemma {:induction false} NodesInorder(t: Tree, n: Ref) returns (e: Entry)
    requires n in Nodes(t)
    ensures e in Inorder(t) && e.n == n
  {
    if n == t.n {
      e := Entry(t.n, t.k);
    } else if n in Nodes(t.l) {
      e := NodesInorder(t.l, n);
    } else {
      e := NodesInorder(t.r, n);
    }
  }

  /** None of these entries' nodes is in `bad`. */
  ghost predicate Clear(s: seq<Entry>, bad: set<Ref>) {
    forall i | 0 <= i < |s| :: s[i].n !in bad
  }

  lemma ClearParts(a: seq<Entry>, b: seq<Entry>, c: seq<Entry>, bad: set<Ref>)
    requires Clear(a + b + c, bad)
    ensures Clear(b, bad) && Clear(c, bad)
  {
    var s := a + b + c;
    assert forall i | 0 <= i < |b| :: b[i] == s[|a| + i];
    assert forall i | 0 <= i < |c| :: c[i] == s[|a| + |b| + i];
  }

  lemma ClearNodes(t: Tree, bad: set<Ref>)
    requires Clear(Inorder(t), bad)
    ensures Nodes(t) !! bad
  {
    forall n | n in Nodes(t)
      ensures n !in bad
    {
      var e := NodesInorder(t, n);
    }
  }

  /** `m'` differs from `m` only in left pointers of `bad` cells and in the right pointer of `q`. */
  ghost predicate BehindOnly(m: Mem, m': Mem, bad: set<Ref>, q: Ref) {
    && q in bad && Agrees(m, m', bad)
    && forall n: Ref {:trigger m.Has(n)} | m.Has(n) && n != q ::
         m'.Has(n) && m'.right[n] == m.right[n] && m'.parent[n] == m.parent[n]
  }

  lemma {:induction false} AheadCtxFrame(m: Mem, m': Mem, x: Ctx, p: Ref, nil: Ref, bad: set<Ref>, q: Ref)
    requires AheadCtx(m, x, p, nil) && BehindOnly(m, m', bad, q) && q !in PathCells(x) && Clear(After(x), bad)
    ensures AheadCtx(m', x, p, nil)
  {
    hide Clear, Rep;
    match x
    case Top =>
    case InLeft(up, n, _, k, r) =>
      ClearParts([Entry(n, k)], Inorder(r), After(up), bad);
      ClearNodes(r, bad);
      RepFrame(m, m', r, n, nil, bad);
      AheadCtxFrame(m, m', up, n, nil, bad, q);
    case InRight(up, _, n, _, _) => AheadCtxFrame(m, m', up, n, nil, bad, q);
  }

  lemma AheadFrame(m: Mem, m': Mem, x: Ctx, t: Tree, nil: Ref, bad: set<Ref>, q: Ref)
    requires AheadOf(m, x, t, nil) && BehindOnly(m, m', bad, q) && q !in AheadCells(x, t) && Clear(Rest(x, t), bad)
    ensures AheadOf(m', x, t, nil)
  {
    hide Clear, Rep;
    assert Rest(x, t) == [] + Inorder(t.r) + After(x);
    ClearParts([], Inorder(t.r), After(x), bad);
    ClearNodes(t.r, bad);
    RepFrame(m, m', t.r, t.n, nil, bad);
    AheadCtxFrame(m, m', x, t.n, nil, bad, q);
  }
}
