/**
 * The tree that dict_insert builds, for any comparison function: the place its
 * search reaches and the tree its climb leaves behind.
 */
module DictShape {
  import opened RedBlackTree
  import opened NodeStore
  import opened NodeSurgery
  import opened Rebalance
  import opened DictRepair

  /** The hole that the search for a place ends in: right at equal keys. */
  function Hole(cmp: (int, int) -> int, x: Ctx, t: Tree, key: int): Ctx
    decreases t
  {
    if t.Leaf? then x
    else if cmp(key, t.k) < 0 then Hole(cmp, InLeft(x, t.n, t.c, t.k, t.r), t.l, key)
    else Hole(cmp, InRight(x, t.l, t.n, t.c, t.k), t.r, key)
  }

  /** The whole tree after the climb from a red node, with its root painted black. */
  function Climbed(x: Ctx, t: Tree): Tree
    requires t.Node?
    decreases x
  {
    if x.Top? || x.c.Black? || x.up.Top? then Paint(Plug(x, t), Black)
    else
      var y, p := x.up, Lift(x, t);
      if !IsBlack(Uncle(y)) then Climbed(y.up, Recolored(y, p))
      else if y.InLeft? then Paint(Plug(y.up, RotR(Poised(y, if x.InRight? then RotL(p) else p))), Black)
      else Paint(Plug(y.up, RotL(Poised(y, if x.InLeft? then RotR(p) else p))), Black)
  }

  /** The tree after dict_insert. */
  function Inserted(cmp: (int, int) -> int, t: Tree, node: Ref, key: int): Tree {
    Climbed(Hole(cmp, Top, t, key), Node(Leaf, node, Red, key, Leaf))
  }

  /** What the search loop of dict_lookup returns. */
  function Search(cmp: (int, int) -> int, t: Tree, key: int): Ref {
    if t.Leaf? then NULL
    else
      var c := cmp(key, t.k);
      if c < 0 then Search(cmp, t.l, key) else if c > 0 then Search(cmp, t.r, key) else t.n
  }

  /** The search has gone this way for a reason. */
  ghost predicate OnPath(cmp: (int, int) -> int, x: Ctx, key: int) {
    match x
    case Top => true
    case InLeft(up, _, _, k, _) => cmp(key, k) < 0 && OnPath(cmp, up, key)
    case InRight(up, _, _, _, k) => cmp(key, k) > 0 && OnPath(cmp, up, key)
  }

  /** One turn of the climb. */
  lemma ClimbedStep(x: Ctx, t: Tree)
    requires t.Node? && !x.Top? && x.c.Red? && !x.up.Top?
    ensures var y, p := x.up, Lift(x, t);
      && (!IsBlack(Uncle(y)) ==> Climbed(x, t) == Climbed(y.up, Recolored(y, p)))
      && (IsBlack(Uncle(y)) && y.InLeft? && x.InRight? ==>
            Climbed(x, t) == Paint(Plug(y.up, RotR(Poised(y, RotL(p)))), Black))
      && (IsBlack(Uncle(y)) && y.InLeft? && x.InLeft? ==> Climbed(x, t) == Paint(Plug(y.up, RotR(Poised(y, p))), Black))
      && (IsBlack(Uncle(y)) && y.InRight? && x.InLeft? ==>
            Climbed(x, t) == Paint(Plug(y.up, RotL(Poised(y, RotR(p)))), Black))
      && (IsBlack(Uncle(y)) && y.InRight? && x.InRight? ==> Climbed(x, t) == Paint(Plug(y.up, RotL(Poised(y, p))), Black))
  {
  }

  lemma ClimbedEnds(x: Ctx, t: Tree)
    requires t.Node? && (x.Top? || x.c.Black?)
    ensures Climbed(x, t) == Paint(Plug(x, t), Black)
  {
  }

  lemma PoisedContents(y: Ctx, p: Tree)
    requires !y.Top?
    ensures Contents(y.up, Poised(y, p)) == Contents(y, p)
  {
    PaintContents(y, p, Black);
    PaintContents(y.up, Lift(y, Paint(p, Black)), Red);
  }

  /** The climb moves no entry. */
  lemma {:induction false} ClimbedContents(x: Ctx, t: Tree)
    requires t.Node?
    ensures Inorder(Climbed(x, t)) == Contents(x, t)
    decreases x
  {
    hide Poised, RotL, RotR, Recolored;
    if x.Top? || x.c.Black? || x.up.Top? {
      PaintContents(Top, Plug(x, t), Black);
    } else {
      var y, p := x.up, Lift(x, t);
      ClimbedStep(x, t);
      LiftContents(x, t);
      if !IsBlack(Uncle(y)) {
        RecoloredContents(y, p);
        RecoloredNode(y, p);
        ClimbedContents(y.up, Recolored(y, p));
      } else {
        SettledContents(x, t);
      }
    }
  }

  lemma RecoloredNode(y: Ctx, p: Tree)
    requires !y.Top?
    ensures Recolored(y, p).Node?
  {
  }

  lemma SettledContents(x: Ctx, t: Tree)
    requires t.Node? && !x.Top? && x.c.Red? && !x.up.Top? && IsBlack(Uncle(x.up))
    ensures Inorder(Climbed(x, t)) == Contents(x.up, Lift(x, t))
  {
    var y, p := x.up, Lift(x, t);
    if y.InLeft? {
      var q := if x.InRight? then RotL(p) else p;
      if x.InRight? { RotLContents(y, p); }
      PoisedContents(y, q);
      RotRContents(y.up, Poised(y, q));
      PaintContents(Top, Plug(y.up, RotR(Poised(y, q))), Black);
    } else {
      var q := if x.InLeft? then RotR(p) else p;
      if x.InLeft? { RotRContents(y, p); }
      PoisedContents(y, q);
      RotLContents(y.up, Poised(y, q));
      PaintContents(Top, Plug(y.up, RotL(Poised(y, q))), Black);
    }
  }

  lemma {:induction false} HolePlug(cmp: (int, int) -> int, x: Ctx, t: Tree, key: int)
    ensures Plug(Hole(cmp, x, t, key), Leaf) == Plug(x, t)
    decreases t
  {
    if t.Node? {
      if cmp(key, t.k) < 0 {
        HolePlug(cmp, InLeft(x, t.n, t.c, t.k, t.r), t.l, key);
      } else {
        HolePlug(cmp, InRight(x, t.l, t.n, t.c, t.k), t.r, key);
      }
    }
  }

  /** The entries before and after filing, whatever the comparison does. */
  lemma HoleEntries(cmp: (int, int) -> int, t: Tree, key: int, n: Ref)
    ensures var x := Hole(cmp, Top, t, key);
      && Inorder(t) == Before(x) + After(x)
      && Contents(x, Node(Leaf, n, Red, key, Leaf)) == Before(x) + [Entry(n, key)] + After(x)
  {
    hide Hole;
    var x, u := Hole(cmp, Top, t, key), Node(Leaf, n, Red, key, Leaf);
    HolePlug(cmp, Top, t, key);
    PlugInorder(x, Leaf);
    PlugInorder(x, u);
    assert Inorder(u) == [Entry(n, key)] && Inorder(Leaf) == [];
  }

  /** One entry more, and none lost. */
  lemma InsertedEntries(cmp: (int, int) -> int, t: Tree, n: Ref, key: int)
    ensures forall e :: e in Inorder(Inserted(cmp, t, n, key)) <==> e in Inorder(t) || e == Entry(n, key)
  {
    hide Hole, Climbed;
    HoleEntries(cmp, t, key, n);
    ClimbedContents(Hole(cmp, Top, t, key), Node(Leaf, n, Red, key, Leaf));
  }
}
