/**
 * One round of a repair loop, seen in the store: the exact sequence of colour
 * writes and rotations, the tree it leaves at the focus, and the loop
 * condition it re-establishes.
 */
module DictRepair {
  import opened RedBlackTree
  import opened NodeStore
  import opened NodeSurgery
  import opened Rebalance

  predicate NilBlack(m: Mem, nil: Ref) { m.Has(nil) && m.color[nil] == Black }

  /** The colour a pointer leads to is the colour of the tree it stands for. */
  ghost predicate Shows(m: Mem, t: Tree, nil: Ref) {
    m.Has(Ptr(t, nil)) && (m.color[Ptr(t, nil)] == Black <==> IsBlack(t))
  }

  /** What the loops read around the focus: the parent, both its children, and their colours. */
  lemma Look(m: Mem, x: Ctx, t: Tree, nil: Ref)
    requires Good(m, x, t, nil) && !x.Top? && NilBlack(m, nil)
    ensures m.Has(x.n) && m.color[x.n] == x.c && m.parent[x.n] == Par(x.up, nil) && x.n != nil
    ensures x.InLeft? ==> m.left[x.n] == Ptr(t, nil) && m.right[x.n] == Ptr(x.r, nil) && Shows(m, x.r, nil)
    ensures x.InRight? ==> m.left[x.n] == Ptr(x.l, nil) && m.right[x.n] == Ptr(t, nil) && Shows(m, x.l, nil)
    ensures Shows(m, t, nil) && (t.Node? ==> m.parent[t.n] == x.n)
    ensures x.InRight? && t.Node? ==> m.left[x.n] != t.n
    ensures x.InLeft? && t.Node? ==> m.right[x.n] != t.n
    ensures x.InRight? && x.l.Node? ==> x.l.n != Ptr(t, nil)
    ensures x.InLeft? && x.r.Node? ==> x.r.n != Ptr(t, nil)
  {
  }

  /** The parent pointer of the node at the focus. */
  lemma LookUp(m: Mem, x: Ctx, t: Tree, nil: Ref)
    requires Good(m, x, t, nil) && t.Node? && NilBlack(m, nil)
    ensures m.Has(t.n) && m.parent[t.n] == Par(x, nil) && m.Has(Par(x, nil))
    ensures m.color[Par(x, nil)] == if x.Top? then Black else x.c
  {
  }

  /** The children of the node at the focus. */
  lemma LookDown(m: Mem, x: Ctx, t: Tree, nil: Ref)
    requires Good(m, x, t, nil) && t.Node? && NilBlack(m, nil)
    ensures m.Has(t.n) && m.color[t.n] == t.c && m.parent[t.n] == Par(x, nil) && t.n != nil
    ensures m.left[t.n] == Ptr(t.l, nil) && m.right[t.n] == Ptr(t.r, nil)
    ensures Shows(m, t.l, nil) && Shows(m, t.r, nil)
    ensures (t.l.Node? ==> t.l.n != nil) && (t.r.Node? ==> t.r.n != nil)
  {
    assert Rep(m, t.l, t.n, nil) && Rep(m, t.r, t.n, nil);
    assert Tagged(m.color, m.key, t.l) && Tagged(m.color, m.key, t.r);
  }

  // ----- the cells that are written -----

  lemma {:induction false} OwnedNodes(t: Tree, nil: Ref)
    ensures Owned(Inorder(t), nil) == Nodes(t) + {nil}
  {
    if t.Node? {
      OwnedNodes(t.l, nil);
      OwnedNodes(t.r, nil);
      OwnedJoin(Inorder(t.l), Entry(t.n, t.k), Inorder(t.r), nil);
    }
  }

  lemma OwnedJoin(a: seq<Entry>, e: Entry, b: seq<Entry>, nil: Ref)
    ensures Owned(a + [e] + b, nil) == Owned(a, nil) + {e.n} + Owned(b, nil)
  {
    var s := a + [e] + b;
    forall n
      ensures n in Owned(s, nil) <==> n in Owned(a, nil) + {e.n} + Owned(b, nil)
    {
      assert e in s;
    }
  }

  lemma OwnedAt(x: Ctx, t: Tree, nil: Ref)
    ensures Owned(Contents(x, t), nil) == CtxNodes(x) + Nodes(t) + {nil}
  {
    OwnedNodes(Plug(x, t), nil);
    CtxNodesPlug(x, t);
  }

  /** The cells around the focus, as far as a rotation there reaches. */
  lemma ReachIn(m: Mem, x: Ctx, t: Tree, nil: Ref, own: set<Ref>)
    requires Good(m, x, t, nil) && t.Node? && CtxNodes(x) + Nodes(t) + {nil} <= own
    ensures nil in own && t.n in own && Par(x, nil) in own && Ptr(t.l, nil) in own && Ptr(t.r, nil) in own
    ensures m.Has(t.n) && m.parent[t.n] == Par(x, nil) && m.left[t.n] == Ptr(t.l, nil) && m.right[t.n] == Ptr(t.r, nil)
    ensures t.l.Node? ==> m.Has(t.l.n) && m.right[t.l.n] == Ptr(t.l.r, nil) && Ptr(t.l.l, nil) in own && Ptr(t.l.r, nil) in own
    ensures t.r.Node? ==> m.Has(t.r.n) && m.left[t.r.n] == Ptr(t.r.l, nil) && Ptr(t.r.l, nil) in own && Ptr(t.r.r, nil) in own
  {
    hide Contents, Tags, Separate;
    assert Rep(m, t.l, t.n, nil) && Rep(m, t.r, t.n, nil);
    assert Nodes(t) == Nodes(t.l) + {t.n} + Nodes(t.r);
    assert t.l.Node? ==> Nodes(t.l) == Nodes(t.l.l) + {t.l.n} + Nodes(t.l.r);
    assert t.r.Node? ==> Nodes(t.r) == Nodes(t.r.l) + {t.r.n} + Nodes(t.r.r);
  }

  lemma Reach(m: Mem, x: Ctx, t: Tree, nil: Ref, own: set<Ref>)
    requires Good(m, x, t, nil) && t.Node? && Owned(Contents(x, t), nil) <= own
    ensures nil in own && t.n in own && Par(x, nil) in own && Ptr(t.l, nil) in own && Ptr(t.r, nil) in own
    ensures m.Has(t.n) && m.parent[t.n] == Par(x, nil) && m.left[t.n] == Ptr(t.l, nil) && m.right[t.n] == Ptr(t.r, nil)
    ensures t.l.Node? ==> m.Has(t.l.n) && m.right[t.l.n] == Ptr(t.l.r, nil) && Ptr(t.l.l, nil) in own && Ptr(t.l.r, nil) in own
    ensures t.r.Node? ==> m.Has(t.r.n) && m.left[t.r.n] == Ptr(t.r.l, nil) && Ptr(t.r.l, nil) in own && Ptr(t.r.r, nil) in own
  {
    hide Contents, Good, Nodes, CtxNodes, Owned;
    OwnedAt(x, t, nil);
    ReachIn(m, x, t, nil, own);
  }

  lemma LiftContents(x: Ctx, t: Tree)
    requires !x.Top?
    ensures Contents(x.up, Lift(x, t)) == Contents(x, t)
  {
  }

  lemma AcrossContents(x: Ctx, t: Tree)
    ensures x.InLeft? ==> Contents(AcrossLeft(x, t), x.r) == Contents(x, t)
    ensures x.InRight? ==> Contents(AcrossRight(x, t), x.l) == Contents(x, t)
  {
  }

  /** The pointer into the hole and the root pointer are cells of the tree, or the sentinel. */
  lemma ReachEnds(m: Mem, x: Ctx, t: Tree, nil: Ref, own: set<Ref>)
    requires Good(m, x, t, nil) && Owned(Contents(x, t), nil) <= own
    ensures nil in own && Ptr(t, nil) in own && m.Has(nil) && m.left[nil] in own
  {
    hide Good;
    OwnedAt(x, t, nil);
    GoodCompose(m, Top, x, t, nil);
    ComposeTop(x);
    OwnedAt(Top, Plug(x, t), nil);
    RootPointer(m, Plug(x, t), nil);
  }

  lemma RootPointer(m: Mem, t: Tree, nil: Ref)
    requires Good(m, Top, t, nil)
    ensures m.Has(nil) && m.left[nil] == Ptr(t, nil)
  {
  }

  // ----- dict_insert -----

  lemma RecolorGood(m: Mem, y: Ctx, p: Tree, nil: Ref)
    requires Good(m, y, p, nil) && RisingParent(y, p) && !IsBlack(Uncle(y))
    ensures m.Has(p.n) && m.Has(Uncle(y).n) && m.Has(y.n)
    ensures Good(PaintMem(PaintMem(PaintMem(m, p.n, Black), Uncle(y).n, Black), y.n, Red),
                 y.up, Recolored(y, p), nil)
    ensures Rising(y.up, Recolored(y, p)) && Contents(y.up, Recolored(y, p)) == Contents(y, p)
    ensures nil !in {p.n, Uncle(y).n, y.n}
  {
    RecolorStep(y, p);
    RecoloredContents(y, p);
    PaintGood(m, y, p, Black, nil);
    var m1, q := PaintMem(m, p.n, Black), Paint(p, Black);
    LiftGood(m1, y, q, nil);
    var g := Lift(y, q);
    if y.InLeft? {
      PaintRight(m1, y.up, g, Black, nil);
      PaintGood(PaintMem(m1, y.r.n, Black), y.up, g.(r := Paint(y.r, Black)), Red, nil);
    } else {
      PaintLeft(m1, y.up, g, Black, nil);
      PaintGood(PaintMem(m1, y.l.n, Black), y.up, g.(l := Paint(y.l, Black)), Red, nil);
    }
  }

  lemma InnerLeftGood(m: Mem, y: Ctx, p: Tree, nil: Ref)
    requires Good(m, y, p, nil) && RisingParent(y, p) && !IsBlack(p.r) && IsBlack(p.l)
    ensures CanRotL(m, p.n) && Good(RotLMem(m, p.n), y, RotL(p), nil)
    ensures RisingParent(y, RotL(p)) && IsBlack(RotL(p).r) && Contents(y, RotL(p)) == Contents(y, p)
  {
    RotLGood(m, y, p, nil);
    InnerLeft(y, p);
    RotLContents(y, p);
  }

  lemma InnerRightGood(m: Mem, y: Ctx, p: Tree, nil: Ref)
    requires Good(m, y, p, nil) && RisingParent(y, p) && !IsBlack(p.l) && IsBlack(p.r)
    ensures CanRotR(m, p.n) && Good(RotRMem(m, p.n), y, RotR(p), nil)
    ensures RisingParent(y, RotR(p)) && IsBlack(RotR(p).l) && Contents(y, RotR(p)) == Contents(y, p)
  {
    RotRGood(m, y, p, nil);
    InnerRight(y, p);
    RotRContents(y, p);
  }

  /** The grandparent's subtree just before its rotation. */
  function Poised(y: Ctx, p: Tree): Tree
    requires !y.Top?
  {
    Paint(Lift(y, Paint(p, Black)), Red)
  }

  lemma PoisedGood(m: Mem, y: Ctx, p: Tree, nil: Ref)
    requires Good(m, y, p, nil) && RisingParent(y, p)
    ensures m.Has(p.n) && m.Has(y.n) && nil !in {p.n, y.n}
    ensures Good(PaintMem(PaintMem(m, p.n, Black), y.n, Red), y.up, Poised(y, p), nil)
    ensures Contents(y.up, Poised(y, p)) == Contents(y, p)
  {
    PaintGood(m, y, p, Black, nil);
    var m1, q := PaintMem(m, p.n, Black), Paint(p, Black);
    LiftGood(m1, y, q, nil);
    PaintGood(m1, y.up, Lift(y, q), Red, nil);
    PaintContents(y, p, Black);
    PaintContents(y.up, Lift(y, q), Red);
  }

  lemma OuterLeftGood(m: Mem, y: Ctx, p: Tree, nil: Ref)
    requires y.InLeft? && Good(m, y.up, Poised(y, p), nil)
    requires RisingParent(y, p) && IsBlack(Uncle(y)) && IsBlack(p.r)
    ensures CanRotR(m, y.n) && Good(RotRMem(m, y.n), y.up, RotR(Poised(y, p)), nil)
    ensures Settled(y.up, RotR(Poised(y, p)))
    ensures Contents(y.up, RotR(Poised(y, p))) == Contents(y.up, Poised(y, p))
  {
    RotRGood(m, y.up, Poised(y, p), nil);
    OuterLeft(y, p);
    RotRContents(y.up, Poised(y, p));
  }

  lemma OuterRightGood(m: Mem, y: Ctx, p: Tree, nil: Ref)
    requires y.InRight? && Good(m, y.up, Poised(y, p), nil)
    requires RisingParent(y, p) && IsBlack(Uncle(y)) && IsBlack(p.l)
    ensures CanRotL(m, y.n) && Good(RotLMem(m, y.n), y.up, RotL(Poised(y, p)), nil)
    ensures Settled(y.up, RotL(Poised(y, p)))
    ensures Contents(y.up, RotL(Poised(y, p))) == Contents(y.up, Poised(y, p))
  {
    RotLGood(m, y.up, Poised(y, p), nil);
    OuterRight(y, p);
    RotLContents(y.up, Poised(y, p));
  }

  // ----- dict_delete -----

  function Depth(x: Ctx): nat { if x.Top? then 0 else 1 + Depth(x.up) }

  /** The loop condition of dict_delete, read off the tree. */
  lemma MendHead(m: Mem, x: Ctx, t: Tree, nil: Ref)
    requires Good(m, x, t, nil) && Short(x, t)
    requires m.Has(nil) && m.color[nil] == if x.Top? && t.Leaf? then Red else Black
    ensures m.Has(Ptr(t, nil)) && (m.color[Ptr(t, nil)] == Black <==> IsBlack(t) && !x.Top?)
    ensures t.Node? ==> m.parent[t.n] == Par(x, nil)
  {
  }

  lemma SisterSides(m: Mem, x: Ctx, t: Tree, nil: Ref)
    requires Good(m, x, t, nil) && !x.Top? && Sister(x).Node? && NilBlack(m, nil)
    ensures m.Has(x.n) && (m.left[x.n] == Ptr(t, nil) <==> x.InLeft?)
  {
    Look(m, x, t, nil);
  }

  lemma NilOutside(m: Mem, x: Ctx, t: Tree, nil: Ref)
    requires Good(m, x, t, nil)
    ensures m.Has(nil) && nil !in Nodes(t) && nil !in CtxNodes(x)
  {
    CtxHasNil(m, x, Ptr(t, nil), nil);
  }

  // ----- dict_delete, the short side on the left -----

  /** The sister's side of the parent, as a focus of its own. */
  function AcrossLeft(x: Ctx, t: Tree): Ctx
    requires x.InLeft?
  {
    InRight(x.up, t, x.n, x.c, x.k)
  }

  lemma AcrossLeftGood(m: Mem, x: Ctx, t: Tree, nil: Ref)
    requires x.InLeft?
    ensures Good(m, x, t, nil) <==> Good(m, AcrossLeft(x, t), x.r, nil)
  {
    LiftGood(m, x, t, nil);
    LiftGood(m, AcrossLeft(x, t), x.r, nil);
  }

  lemma LookSisterLeft(m: Mem, x: Ctx, t: Tree, nil: Ref)
    requires x.InLeft? && x.r.Node? && Good(m, x, t, nil) && NilBlack(m, nil)
    ensures m.Has(x.n) && m.right[x.n] == x.r.n && m.color[x.n] == x.c && x.n != nil
    ensures m.Has(x.r.n) && m.color[x.r.n] == x.r.c && x.r.n != nil
    ensures m.left[x.r.n] == Ptr(x.r.l, nil) && m.right[x.r.n] == Ptr(x.r.r, nil)
    ensures Shows(m, x.r.l, nil) && Shows(m, x.r.r, nil)
    ensures (x.r.l.Node? ==> x.r.l.n != nil) && (x.r.r.Node? ==> x.r.r.n != nil)
  {
    Look(m, x, t, nil);
    AcrossLeftGood(m, x, t, nil);
    LookDown(m, AcrossLeft(x, t), x.r, nil);
  }

  /** Red sister: she turns black, the parent red, and the parent is rotated towards the short side. */
  lemma RedSisterLeftGood(m: Mem, x: Ctx, t: Tree, nil: Ref)
    requires Good(m, x, t, nil) && ShortBody(x, t) && x.InLeft? && x.r.Node? && x.r.c.Red?
    requires NilBlack(m, nil)
    ensures m.Has(x.r.n) && m.Has(x.n) && nil !in {x.r.n, x.n}
    ensures var m2 := PaintMem(PaintMem(m, x.r.n, Black), x.n, Red);
      CanRotL(m2, x.n) && Good(RotLMem(m2, x.n), UnderLeft(x), t, nil)
    ensures ShortBody(UnderLeft(x), t) && x.r.l.Node? && x.r.l.c.Black?
    ensures Contents(UnderLeft(x), t) == Contents(x, t)
  {
    hide Good;
    LookSisterLeft(m, x, t, nil);
    RedSisterLeft(x, t);
    LiftGood(m, x, t, nil);
    var p := Lift(x, t);
    PaintRight(m, x.up, p, Black, nil);
    var m1, p1 := PaintMem(m, x.r.n, Black), p.(r := Paint(x.r, Black));
    PaintGood(m1, x.up, p1, Red, nil);
    var m2, p2 := PaintMem(m1, x.n, Red), Paint(p1, Red);
    RotLGood(m2, x.up, p2, nil);
    var m3, y := RotLMem(m2, x.n), UnderLeft(x);
    LiftGood(m3, y, t, nil);
    LiftGood(m3, y.up, Lift(y, t), nil);
    RotLContents(x.up, p2);
    SameContents(x.up, p, p2);
    assert Lift(y.up, Lift(y, t)) == RotL(p2);
    assert Contents(y, t) == Contents(y.up, Lift(y, t)) == Contents(x.up, RotL(p2));
  }

  lemma BlackNephewsLeftGood(m: Mem, x: Ctx, t: Tree, nil: Ref)
    requires Good(m, x, t, nil) && ShortBody(x, t) && x.InLeft? && x.r.Node? && x.r.c.Black?
    requires IsBlack(x.r.l) && IsBlack(x.r.r)
    ensures var p := Node(t, x.n, x.c, x.k, Paint(x.r, Red));
      && m.Has(x.r.n) && Good(PaintMem(m, x.r.n, Red), x.up, p, nil)
      && Short(x.up, p) && Contents(x.up, p) == Contents(x, t) && x.r.n != nil
  {
    BlackNephews(x, t);
    LiftGood(m, x, t, nil);
    PaintRight(m, x.up, Lift(x, t), Red, nil);
    SameContents(x.up, Lift(x, t), Node(t, x.n, x.c, x.k, Paint(x.r, Red)));
  }

  lemma TurnInnerLeftGood(m: Mem, x: Ctx, t: Tree, nil: Ref)
    requires Good(m, x, t, nil) && ShortBody(x, t)
    requires x.InLeft? && x.r.Node? && x.r.c.Black? && !IsBlack(x.r.l) && IsBlack(x.r.r)
    ensures m.Has(x.r.l.n) && m.Has(x.r.n) && nil !in {x.r.l.n, x.r.n}
    ensures var m2, s := PaintMem(PaintMem(m, x.r.l.n, Black), x.r.n, Red), InnerNephewLeft(x.r);
      && CanRotR(m2, x.r.n) && Good(RotRMem(m2, x.r.n), x.(r := s), t, nil)
      && s.c.Black? && !IsBlack(s.r) && ShortBody(x.(r := s), t)
      && Contents(x.(r := s), t) == Contents(x, t)
  {
    TurnInnerLeft(x, t);
    AcrossLeftGood(m, x, t, nil);
    var y, s0 := AcrossLeft(x, t), x.r;
    PaintLeft(m, y, s0, Black, nil);
    var m1, s1 := PaintMem(m, s0.l.n, Black), s0.(l := Paint(s0.l, Black));
    PaintGood(m1, y, s1, Red, nil);
    var m2, s2 := PaintMem(m1, s0.n, Red), Paint(s1, Red);
    RotRGood(m2, y, s2, nil);
    AcrossLeftGood(RotRMem(m2, s0.n), x.(r := RotR(s2)), t, nil);
    RotRContents(y, s2);
    SameContents(y, s0, s2);
    assert Contents(x.(r := RotR(s2)), t) == Contents(y, RotR(s2));
  }

  /** The tree under the grandparent once the outer nephew has paid for the missing black node. */
  function PaidLeft(x: Ctx, t: Tree): Tree
    requires x.InLeft? && x.r.Node?
  {
    Node(t, x.n, Black, x.k, Node(x.r.l, x.r.n, x.c, x.r.k, Paint(x.r.r, Black)))
  }

  lemma PaidLeftContents(x: Ctx, t: Tree)
    requires x.InLeft? && x.r.Node? && x.r.r.Node?
    ensures Contents(x.up, RotL(PaidLeft(x, t))) == Contents(x, t)
  {
    var p := PaidLeft(x, t);
    assert Inorder(p.r.r) == Inorder(x.r.r);
    assert Inorder(p.r) == Inorder(x.r);
    SameContents(x.up, Lift(x, t), p);
    RotLContents(x.up, p);
  }

  lemma OuterNephewLeftGood(m: Mem, x: Ctx, t: Tree, nil: Ref)
    requires Good(m, x, t, nil) && ShortBody(x, t) && x.InLeft? && x.r.Node? && x.r.c.Black? && !IsBlack(x.r.r)
    requires NilBlack(m, nil)
    ensures m.Has(x.r.n) && m.Has(x.r.r.n) && m.Has(x.n) && nil !in {x.r.n, x.r.r.n, x.n}
    ensures var m3 := PaintMem(PaintMem(PaintMem(m, x.r.n, x.c), x.r.r.n, Black), x.n, Black);
      && CanRotL(m3, x.n) && Good(RotLMem(m3, x.n), x.up, RotL(PaidLeft(x, t)), nil)
      && Shows(RotLMem(m3, x.n), t, nil)
    ensures Settled(x.up, RotL(PaidLeft(x, t))) && Contents(x.up, RotL(PaidLeft(x, t))) == Contents(x, t)
  {
    hide Good;
    LookSisterLeft(m, x, t, nil);
    OuterNephewLeft(x, t);
    AcrossLeftGood(m, x, t, nil);
    var y, s0 := AcrossLeft(x, t), x.r;
    PaintGood(m, y, s0, x.c, nil);
    var m1, s1 := PaintMem(m, s0.n, x.c), Paint(s0, x.c);
    PaintRight(m1, y, s1, Black, nil);
    var m2, s2 := PaintMem(m1, s0.r.n, Black), s1.(r := Paint(s1.r, Black));
    LiftGood(m2, y, s2, nil);
    PaintGood(m2, x.up, Lift(y, s2), Black, nil);
    var m3, p := PaintMem(m2, x.n, Black), PaidLeft(x, t);
    RotLGood(m3, x.up, p, nil);
    PaidLeftContents(x, t);
    var u, m4 := RotL(p), RotLMem(m3, x.n);
    ZipLeft(m4, x.up, u.l, u.n, u.c, u.k, u.r, nil);
    LookDown(m4, InLeft(x.up, u.n, u.c, u.k, u.r), u.l, nil);
  }

  // ----- dict_delete, the short side on the right -----

  function AcrossRight(x: Ctx, t: Tree): Ctx
    requires x.InRight?
  {
    InLeft(x.up, x.n, x.c, x.k, t)
  }

  lemma AcrossRightGood(m: Mem, x: Ctx, t: Tree, nil: Ref)
    requires x.InRight?
    ensures Good(m, x, t, nil) <==> Good(m, AcrossRight(x, t), x.l, nil)
  {
    LiftGood(m, x, t, nil);
    LiftGood(m, AcrossRight(x, t), x.l, nil);
  }

  lemma LookSisterRight(m: Mem, x: Ctx, t: Tree, nil: Ref)
    requires x.InRight? && x.l.Node? && Good(m, x, t, nil) && NilBlack(m, nil)
    ensures m.Has(x.n) && m.left[x.n] == x.l.n && m.color[x.n] == x.c && x.n != nil
    ensures m.Has(x.l.n) && m.color[x.l.n] == x.l.c && x.l.n != nil
    ensures m.right[x.l.n] == Ptr(x.l.r, nil) && m.left[x.l.n] == Ptr(x.l.l, nil)
    ensures Shows(m, x.l.r, nil) && Shows(m, x.l.l, nil)
    ensures (x.l.r.Node? ==> x.l.r.n != nil) && (x.l.l.Node? ==> x.l.l.n != nil)
  {
    Look(m, x, t, nil);
    AcrossRightGood(m, x, t, nil);
    LookDown(m, AcrossRight(x, t), x.l, nil);
  }

  lemma RedSisterRightGood(m: Mem, x: Ctx, t: Tree, nil: Ref)
    requires Good(m, x, t, nil) && ShortBody(x, t) && x.InRight? && x.l.Node? && x.l.c.Red?
    requires NilBlack(m, nil)
    ensures m.Has(x.l.n) && m.Has(x.n) && nil !in {x.l.n, x.n}
    ensures var m2 := PaintMem(PaintMem(m, x.l.n, Black), x.n, Red);
      CanRotR(m2, x.n) && Good(RotRMem(m2, x.n), UnderRight(x), t, nil)
    ensures ShortBody(UnderRight(x), t) && x.l.r.Node? && x.l.r.c.Black?
    ensures Contents(UnderRight(x), t) == Contents(x, t)
  {
    hide Good;
    LookSisterRight(m, x, t, nil);
    RedSisterRight(x, t);
    LiftGood(m, x, t, nil);
    var p := Lift(x, t);
    PaintLeft(m, x.up, p, Black, nil);
    var m1, p1 := PaintMem(m, x.l.n, Black), p.(l := Paint(x.l, Black));
    PaintGood(m1, x.up, p1, Red, nil);
    var m2, p2 := PaintMem(m1, x.n, Red), Paint(p1, Red);
    RotRGood(m2, x.up, p2, nil);
    var m3, y := RotRMem(m2, x.n), UnderRight(x);
    LiftGood(m3, y, t, nil);
    LiftGood(m3, y.up, Lift(y, t), nil);
    RotRContents(x.up, p2);
    SameContents(x.up, p, p2);
    assert Lift(y.up, Lift(y, t)) == RotR(p2);
    assert Contents(y, t) == Contents(y.up, Lift(y, t)) == Contents(x.up, RotR(p2));
  }

  lemma BlackNephewsRightGood(m: Mem, x: Ctx, t: Tree, nil: Ref)
    requires Good(m, x, t, nil) && ShortBody(x, t) && x.InRight? && x.l.Node? && x.l.c.Black?
    requires IsBlack(x.l.r) && IsBlack(x.l.l)
    ensures var p := Node(Paint(x.l, Red), x.n, x.c, x.k, t);
      && m.Has(x.l.n) && Good(PaintMem(m, x.l.n, Red), x.up, p, nil)
      && Short(x.up, p) && Contents(x.up, p) == Contents(x, t) && x.l.n != nil
  {
    BlackNephews(x, t);
    LiftGood(m, x, t, nil);
    PaintLeft(m, x.up, Lift(x, t), Red, nil);
    SameContents(x.up, Lift(x, t), Node(Paint(x.l, Red), x.n, x.c, x.k, t));
  }

  lemma TurnInnerRightGood(m: Mem, x: Ctx, t: Tree, nil: Ref)
    requires Good(m, x, t, nil) && ShortBody(x, t)
    requires x.InRight? && x.l.Node? && x.l.c.Black? && !IsBlack(x.l.r) && IsBlack(x.l.l)
    ensures m.Has(x.l.r.n) && m.Has(x.l.n) && nil !in {x.l.r.n, x.l.n}
    ensures var m2, s := PaintMem(PaintMem(m, x.l.r.n, Black), x.l.n, Red), InnerNephewRight(x.l);
      && CanRotL(m2, x.l.n) && Good(RotLMem(m2, x.l.n), x.(l := s), t, nil)
      && s.c.Black? && !IsBlack(s.l) && ShortBody(x.(l := s), t)
      && Contents(x.(l := s), t) == Contents(x, t)
  {
    TurnInnerRight(x, t);
    AcrossRightGood(m, x, t, nil);
    var y, s0 := AcrossRight(x, t), x.l;
    PaintRight(m, y, s0, Black, nil);
    var m1, s1 := PaintMem(m, s0.r.n, Black), s0.(r := Paint(s0.r, Black));
    PaintGood(m1, y, s1, Red, nil);
    var m2, s2 := PaintMem(m1, s0.n, Red), Paint(s1, Red);
    RotLGood(m2, y, s2, nil);
    AcrossRightGood(RotLMem(m2, s0.n), x.(l := RotL(s2)), t, nil);
    RotLContents(y, s2);
    SameContents(y, s0, s2);
    assert Contents(x.(l := RotL(s2)), t) == Contents(y, RotL(s2));
  }

  function PaidRight(x: Ctx, t: Tree): Tree
    requires x.InRight? && x.l.Node?
  {
    Node(Node(Paint(x.l.l, Black), x.l.n, x.c, x.l.k, x.l.r), x.n, Black, x.k, t)
  }

  lemma PaidRightContents(x: Ctx, t: Tree)
    requires x.InRight? && x.l.Node? && x.l.l.Node?
    ensures Contents(x.up, RotR(PaidRight(x, t))) == Contents(x, t)
  {
    var p := PaidRight(x, t);
    assert Inorder(p.l.l) == Inorder(x.l.l);
    assert Inorder(p.l) == Inorder(x.l);
    SameContents(x.up, Lift(x, t), p);
    RotRContents(x.up, p);
  }

  lemma OuterNephewRightGood(m: Mem, x: Ctx, t: Tree, nil: Ref)
    requires Good(m, x, t, nil) && ShortBody(x, t) && x.InRight? && x.l.Node? && x.l.c.Black? && !IsBlack(x.l.l)
    requires NilBlack(m, nil)
    ensures m.Has(x.l.n) && m.Has(x.l.l.n) && m.Has(x.n) && nil !in {x.l.n, x.l.l.n, x.n}
    ensures var m3 := PaintMem(PaintMem(PaintMem(m, x.l.n, x.c), x.l.l.n, Black), x.n, Black);
      && CanRotR(m3, x.n) && Good(RotRMem(m3, x.n), x.up, RotR(PaidRight(x, t)), nil)
      && Shows(RotRMem(m3, x.n), t, nil)
    ensures Settled(x.up, RotR(PaidRight(x, t))) && Contents(x.up, RotR(PaidRight(x, t))) == Contents(x, t)
  {
    hide Good;
    LookSisterRight(m, x, t, nil);
    OuterNephewRight(x, t);
    AcrossRightGood(m, x, t, nil);
    var y, s0 := AcrossRight(x, t), x.l;
    PaintGood(m, y, s0, x.c, nil);
    var m1, s1 := PaintMem(m, s0.n, x.c), Paint(s0, x.c);
    PaintLeft(m1, y, s1, Black, nil);
    var m2, s2 := PaintMem(m1, s0.l.n, Black), s1.(l := Paint(s1.l, Black));
    LiftGood(m2, y, s2, nil);
    PaintGood(m2, x.up, Lift(y, s2), Black, nil);
    var m3, p := PaintMem(m2, x.n, Black), PaidRight(x, t);
    RotRGood(m3, x.up, p, nil);
    PaidRightContents(x, t);
    var u, m4 := RotR(p), RotRMem(m3, x.n);
    ZipRight(m4, x.up, u.l, u.n, u.c, u.k, u.r, nil);
    LookDown(m4, InRight(x.up, u.l, u.n, u.c, u.k), u.r, nil);
  }
}
