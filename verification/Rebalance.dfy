/**
 * The repair loops of dict_insert and dict_delete, as steps on trees in
 * context: which rule is broken at the head of each loop, and how each branch
 * of the loop body restores the others.
 */
module Rebalance {
  import opened RedBlackTree
  import opened NodeStore
  import opened NodeSurgery

  function Contents(x: Ctx, t: Tree): seq<Entry> { Inorder(Plug(x, t)) }

  /** The cells of these entries and the sentinel. */
  ghost function Owned(s: seq<Entry>, nil: Ref): set<Ref> { (set e | e in s :: e.n) + {nil} }

  lemma SameContents(x: Ctx, t: Tree, t': Tree)
    requires Inorder(t) == Inorder(t')
    ensures Contents(x, t) == Contents(x, t')
  {
    PlugInorder(x, t);
    PlugInorder(x, t');
  }

  lemma PaintContents(x: Ctx, t: Tree, c: Color)
    ensures Contents(x, Paint(t, c)) == Contents(x, t)
  {
    SameContents(x, t, Paint(t, c));
  }

  lemma RotLContents(x: Ctx, t: Tree)
    requires t.Node? && t.r.Node?
    ensures Contents(x, RotL(t)) == Contents(x, t)
  {
    var e, f := [Entry(t.n, t.k)], [Entry(t.r.n, t.r.k)];
    ConcatAssoc(Inorder(t.l) + e, Inorder(t.r.l) + f, Inorder(t.r.r));
    ConcatAssoc(Inorder(t.l) + e, Inorder(t.r.l), f);
    SameContents(x, t, RotL(t));
  }

  lemma RotRContents(x: Ctx, t: Tree)
    requires t.Node? && t.l.Node?
    ensures Contents(x, RotR(t)) == Contents(x, t)
  {
    RotLContents(x, RotR(t));
    assert RotL(RotR(t)) == t;
  }

  /** All rules hold, up to the colour of the root. */
  predicate Settled(x: Ctx, t: Tree) {
    && Balanced(t) && NoRedRed(t) && CtxBalanced(x, BlackHeight(t)) && CtxNoRedRed(x)
    && (Hot(x) ==> IsBlack(t))
  }

  lemma SettledPlug(x: Ctx, t: Tree)
    requires Settled(x, t)
    ensures Balanced(Plug(x, t)) && NoRedRedBelow(Plug(x, t))
    ensures RedBlack(Paint(Plug(x, t), Black))
  {
    PlugBalanced(x, t);
    PlugNoRedRed(x, t);
  }

  // ----- dict_insert -----

  /** Head of the insertion loop: the focus is red, and only its own parent may be red too. */
  predicate Rising(x: Ctx, t: Tree) {
    && t.Node? && t.c.Red? && Balanced(t) && NoRedRed(t)
    && CtxBalanced(x, BlackHeight(t)) && CtxNoRedRed(x)
    && (!x.Top? ==> RootColor(x).Black?)
  }

  lemma RisingStart(x: Ctx, n: Ref, k: int)
    requires RedBlack(Plug(x, Leaf))
    ensures Rising(x, Node(Leaf, n, Red, k, Leaf))
  {
    PlugBalanced(x, Leaf);
    PlugNoRedRed(x, Leaf);
    if !x.Top? { PlugRoot(x, Leaf); }
  }

  /** When the loop goes on there is a black grandparent, and the parent's subtree is broken at the top only. */
  lemma RisingRed(x: Ctx, t: Tree)
    requires Rising(x, t) && !x.Top? && x.c.Red?
    ensures !x.up.Top? && x.up.c.Black? && RisingParent(x.up, Lift(x, t))
    ensures x.InLeft? ==> IsBlack(x.r) && NoRedRed(x.r)
    ensures x.InRight? ==> IsBlack(x.l) && NoRedRed(x.l)
  {
    assert !x.up.Top?;
    assert RootColor(x) == RootColor(x.up) && (x.up.up.Top? ==> RootColor(x.up) == x.up.c);
    assert CtxNoRedRed(x.up) && Balanced(Lift(x, t));
  }

  predicate RisingParent(y: Ctx, p: Tree) {
    && p.Node? && p.c.Red? && Balanced(p) && NoRedRedBelow(p)
    && CtxBalanced(y, BlackHeight(p)) && CtxNoRedRed(y) && !y.Top? && y.c.Black? && RootColor(y).Black?
  }

  function Uncle(y: Ctx): Tree
    requires !y.Top?
  {
    if y.InLeft? then y.r else y.l
  }

  /** Red parent, red uncle: both turn black, the grandparent red, and the problem moves up. */
  function Recolored(y: Ctx, p: Tree): Tree
    requires !y.Top?
  {
    match y
    case InLeft(_, n, _, k, r) => Node(Paint(p, Black), n, Red, k, Paint(r, Black))
    case InRight(_, l, n, _, k) => Node(Paint(l, Black), n, Red, k, Paint(p, Black))
  }

  lemma RecoloredContents(y: Ctx, p: Tree)
    requires !y.Top?
    ensures Contents(y.up, Recolored(y, p)) == Contents(y, p)
  {
    SameContents(y.up, Lift(y, p), Recolored(y, p));
  }

  lemma RecolorStep(y: Ctx, p: Tree)
    requires RisingParent(y, p) && !IsBlack(Uncle(y))
    ensures Rising(y.up, Recolored(y, p))
  {
    var a, b := Paint(p, Black), Paint(Uncle(y), Black);
    assert Balanced(a) && Balanced(b) && NoRedRed(a) && NoRedRed(b);
    assert BlackHeight(a) == BlackHeight(p) + 1 && BlackHeight(b) == BlackHeight(p) + 1;
  }

  /** Inner grandchild: after the first rotation the red pair lies on the outside. */
  lemma InnerLeft(y: Ctx, p: Tree)
    requires RisingParent(y, p) && !IsBlack(p.r) && IsBlack(p.l)
    ensures RisingParent(y, RotL(p)) && !IsBlack(RotL(p).l) && IsBlack(RotL(p).r)
  {
    assert Balanced(p.r) && NoRedRed(p.r);
    assert Balanced(RotL(p).l);
  }

  lemma InnerRight(y: Ctx, p: Tree)
    requires RisingParent(y, p) && !IsBlack(p.l) && IsBlack(p.r)
    ensures RisingParent(y, RotR(p)) && !IsBlack(RotR(p).r) && IsBlack(RotR(p).l)
  {
    assert Balanced(p.l) && NoRedRed(p.l);
    assert Balanced(RotR(p).r);
  }

  /** Outer grandchild and black uncle: one rotation of the grandparent settles everything. */
  lemma OuterLeft(y: Ctx, p: Tree)
    requires RisingParent(y, p) && y.InLeft? && IsBlack(Uncle(y)) && IsBlack(p.r)
    ensures Settled(y.up, RotR(Node(Paint(p, Black), y.n, Red, y.k, y.r)))
  {
    var g := Node(p.r, y.n, Red, y.k, y.r);
    assert Balanced(g) && NoRedRed(g);
  }

  lemma OuterRight(y: Ctx, p: Tree)
    requires RisingParent(y, p) && y.InRight? && IsBlack(Uncle(y)) && IsBlack(p.l)
    ensures Settled(y.up, RotL(Node(y.l, y.n, Red, y.k, Paint(p, Black))))
  {
    var g := Node(y.l, y.n, Red, y.k, p.l);
    assert Balanced(g) && NoRedRed(g);
  }

  // ----- dict_delete -----

  /**
   * Head of the deletion loop: the focus is one black node short.  Its own
   * colour may clash with its children's, because a red focus is painted black
   * on exit.  As long as the focus is black, the root lies above it and is red.
   */
  predicate Short(x: Ctx, t: Tree) {
    && Balanced(t) && NoRedRedBelow(t) && CtxBalanced(x, BlackHeight(t) + 1) && CtxNoRedRed(x)
    && (IsBlack(t) ==> if x.Top? then t.Leaf? else RootColor(x).Red?)
  }

  lemma ShortStop(x: Ctx, t: Tree)
    requires Short(x, t) && (IsBlack(t) ==> x.Top?)
    ensures Settled(x, Paint(t, Black))
  {
  }

  /** Inside the loop body: the focus is black and short, and so is the case that still has to be decided. */
  predicate ShortBody(x: Ctx, t: Tree) {
    && !x.Top? && IsBlack(t) && Balanced(t) && NoRedRed(t)
    && CtxBalanced(x, BlackHeight(t) + 1) && CtxNoRedRed(x)
    && (x.c.Red? || RootColor(x).Red?)
  }

  function Sister(x: Ctx): Tree
    requires !x.Top?
  {
    if x.InLeft? then x.r else x.l
  }

  lemma ShortEnter(x: Ctx, t: Tree)
    requires Short(x, t) && IsBlack(t) && !x.Top?
    ensures ShortBody(x, t) && Sister(x).Node?
  {
  }

  /** Red sister: after the rotation the sister is black, and has not become the sentinel. */
  function UnderLeft(x: Ctx): Ctx
    requires x.InLeft? && x.r.Node?
  {
    InLeft(InLeft(x.up, x.r.n, Black, x.r.k, x.r.r), x.n, Red, x.k, x.r.l)
  }

  function UnderRight(x: Ctx): Ctx
    requires x.InRight? && x.l.Node?
  {
    InRight(InRight(x.up, x.l.l, x.l.n, Black, x.l.k), x.l.r, x.n, Red, x.k)
  }

  lemma RedSisterLeft(x: Ctx, t: Tree)
    requires ShortBody(x, t) && x.InLeft? && x.r.Node? && x.r.c.Red?
    ensures ShortBody(UnderLeft(x), t) && x.r.l.Node? && x.r.l.c.Black?
  {
    var s := x.r;
    assert Balanced(s) && NoRedRed(s) && BlackHeight(s.l) == BlackHeight(t) + 1;
    var y := InLeft(x.up, s.n, Black, s.k, s.r);
    assert CtxNoRedRed(y) && CtxBalanced(y, BlackHeight(t) + 1);
  }

  lemma RedSisterRight(x: Ctx, t: Tree)
    requires ShortBody(x, t) && x.InRight? && x.l.Node? && x.l.c.Red?
    ensures ShortBody(UnderRight(x), t) && x.l.r.Node? && x.l.r.c.Black?
  {
    var s := x.l;
    assert Balanced(s) && NoRedRed(s) && BlackHeight(s.r) == BlackHeight(t) + 1;
    var y := InRight(x.up, s.l, s.n, Black, s.k);
    assert CtxNoRedRed(y) && CtxBalanced(y, BlackHeight(t) + 1);
  }

  /** Black sister with black children: she turns red, and the parent is short instead. */
  lemma BlackNephews(x: Ctx, t: Tree)
    requires ShortBody(x, t) && Sister(x).Node? && Sister(x).c.Black?
    requires IsBlack(Sister(x).l) && IsBlack(Sister(x).r)
    ensures x.InLeft? ==> Short(x.up, Node(t, x.n, x.c, x.k, Paint(x.r, Red)))
    ensures x.InRight? ==> Short(x.up, Node(Paint(x.l, Red), x.n, x.c, x.k, t))
  {
    var s := Paint(Sister(x), Red);
    assert Balanced(s) && NoRedRed(s) && BlackHeight(s) == BlackHeight(t);
    assert x.c.Red? || if x.up.Top? then false else RootColor(x.up).Red?;
  }

  /** Only the inner nephew is red: a rotation of the sister brings the red to the outside. */
  function InnerNephewLeft(s: Tree): Tree
    requires s.Node? && s.l.Node?
  {
    RotR(Node(Paint(s.l, Black), s.n, Red, s.k, s.r))
  }

  function InnerNephewRight(s: Tree): Tree
    requires s.Node? && s.r.Node?
  {
    RotL(Node(s.l, s.n, Red, s.k, Paint(s.r, Black)))
  }

  lemma TurnInnerLeft(x: Ctx, t: Tree)
    requires ShortBody(x, t) && x.InLeft? && x.r.Node? && x.r.c.Black? && !IsBlack(x.r.l) && IsBlack(x.r.r)
    ensures var s := InnerNephewLeft(x.r); s.c.Black? && !IsBlack(s.r) && ShortBody(x.(r := s), t)
  {
    var s := x.r;
    assert Balanced(s) && NoRedRed(s) && Balanced(s.l) && NoRedRed(s.l);
    var b := Node(s.l.r, s.n, Red, s.k, s.r);
    assert Balanced(b) && NoRedRed(b) && BlackHeight(b) == BlackHeight(s.r);
    assert Balanced(InnerNephewLeft(s)) && BlackHeight(InnerNephewLeft(s)) == BlackHeight(s);
  }

  lemma TurnInnerRight(x: Ctx, t: Tree)
    requires ShortBody(x, t) && x.InRight? && x.l.Node? && x.l.c.Black? && !IsBlack(x.l.r) && IsBlack(x.l.l)
    ensures var s := InnerNephewRight(x.l); s.c.Black? && !IsBlack(s.l) && ShortBody(x.(l := s), t)
  {
    var s := x.l;
    assert Balanced(s) && NoRedRed(s) && Balanced(s.r) && NoRedRed(s.r);
    var a := Node(s.l, s.n, Red, s.k, s.r.l);
    assert Balanced(a) && NoRedRed(a) && BlackHeight(a) == BlackHeight(s.l);
    assert Balanced(InnerNephewRight(s)) && BlackHeight(InnerNephewRight(s)) == BlackHeight(s);
  }

  /** The outer nephew is red: one rotation of the parent pays the missing black node. */
  lemma OuterNephewLeft(x: Ctx, t: Tree)
    requires ShortBody(x, t) && x.InLeft? && x.r.Node? && x.r.c.Black? && !IsBlack(x.r.r)
    ensures Settled(x.up, RotL(Node(t, x.n, Black, x.k, Node(x.r.l, x.r.n, x.c, x.r.k, Paint(x.r.r, Black)))))
  {
    var s := x.r;
    assert Balanced(s) && NoRedRed(s) && Balanced(s.r) && NoRedRed(s.r);
    var a, b := Node(t, x.n, Black, x.k, s.l), Paint(s.r, Black);
    assert Balanced(a) && NoRedRed(a) && Balanced(b) && NoRedRed(b) && BlackHeight(b) == BlackHeight(a);
  }

  lemma OuterNephewRight(x: Ctx, t: Tree)
    requires ShortBody(x, t) && x.InRight? && x.l.Node? && x.l.c.Black? && !IsBlack(x.l.l)
    ensures Settled(x.up, RotR(Node(Node(Paint(x.l.l, Black), x.l.n, x.c, x.l.k, x.l.r), x.n, Black, x.k, t)))
  {
    var s := x.l;
    assert Balanced(s) && NoRedRed(s) && Balanced(s.l) && NoRedRed(s.l);
    var a, b := Paint(s.l, Black), Node(s.r, x.n, Black, x.k, t);
    assert Balanced(a) && NoRedRed(a) && Balanced(b) && NoRedRed(b) && BlackHeight(b) == BlackHeight(a);
  }

  // ----- dict_delete: after a node has been spliced out -----

  /** The hole left by a node of colour `c`, now filled with its only child `s`. */
  predicate Cut(x: Ctx, s: Tree, c: Color) {
    && Balanced(s) && NoRedRed(s) && CtxNoRedRed(x)
    && CtxBalanced(x, BlackHeight(s) + (if c.Black? then 1 else 0))
    && (c.Red? ==> IsBlack(s) && !x.Top?)
    && (!x.Top? ==> RootColor(x).Black?)
  }

  lemma CutStart(x: Ctx, t: Tree)
    requires RedBlack(Plug(x, t)) && t.Node? && (t.l.Leaf? || t.r.Leaf?)
    ensures Cut(x, OnlyChild(t), t.c)
  {
    PlugBalanced(x, t);
    PlugNoRedRed(x, t);
    if !x.Top? { PlugRoot(x, t); }
  }

  /** The rules do not see which node sits at a place of the context, only its colour. */
  lemma {:induction false} Relabel(x: Ctx, l: Tree, c: Color, n: Ref, k: int, n': Ref, k': int, y: Ctx, h: nat)
    ensures var z, z' := Compose(InRight(x, l, n, c, k), y), Compose(InRight(x, l, n', c, k'), y);
      && (CtxBalanced(z, h) <==> CtxBalanced(z', h)) && (CtxNoRedRed(z) <==> CtxNoRedRed(z'))
      && (Hot(z) <==> Hot(z')) && !z.Top? && !z'.Top? && RootColor(z) == RootColor(z')
  {
    match y
    case Top =>
    case InLeft(up, _, d, _, _) => Relabel(x, l, c, n, k, n', k', up, if d.Black? then h + 1 else h);
    case InRight(up, _, _, d, _) => Relabel(x, l, c, n, k, n', k', up, if d.Black? then h + 1 else h);
  }

  lemma CutRelabel(x: Ctx, l: Tree, c: Color, n: Ref, k: int, n': Ref, k': int, y: Ctx, s: Tree, d: Color)
    requires Cut(Compose(InRight(x, l, n, c, k), y), s, d)
    ensures Cut(Compose(InRight(x, l, n', c, k'), y), s, d)
  {
    Relabel(x, l, c, n, k, n', k', y, BlackHeight(s) + (if d.Black? then 1 else 0));
  }

  lemma CutRed(x: Ctx, s: Tree)
    requires Cut(x, s, Red)
    ensures RedBlack(Plug(x, s))
  {
    PlugBalanced(x, s);
    PlugNoRedRed(x, s);
    PlugRoot(x, s);
  }

  /** The context with its topmost node painted. */
  function PaintTop(x: Ctx, c: Color): Ctx {
    match x
    case Top => Top
    case InLeft(up, n, d, k, r) =>
      if up.Top? then InLeft(Top, n, c, k, r) else InLeft(PaintTop(up, c), n, d, k, r)
    case InRight(up, l, n, d, k) =>
      if up.Top? then InRight(Top, l, n, c, k) else InRight(PaintTop(up, c), l, n, d, k)
  }

  lemma {:induction false} PaintTopPlug(x: Ctx, t: Tree, c: Color)
    requires !x.Top?
    ensures Paint(Plug(x, t), c) == Plug(PaintTop(x, c), t)
  {
    match x
    case InLeft(up, n, d, k, r) => if !up.Top? { PaintTopPlug(up, Node(t, n, d, k, r), c); }
    case InRight(up, l, n, d, k) => if !up.Top? { PaintTopPlug(up, Node(l, n, d, k, t), c); }
  }

  lemma {:induction false} PaintTopRules(x: Ctx, c: Color, h: nat)
    requires !x.Top?
    ensures var y := PaintTop(x, c);
      && (CtxBalanced(x, h) <==> CtxBalanced(y, h)) && (CtxNoRedRed(x) <==> CtxNoRedRed(y))
      && (Hot(x) <==> Hot(y)) && !y.Top? && RootColor(y) == c && y.n == x.n
  {
    match x
    case InLeft(up, _, d, _, _) => if !up.Top? { PaintTopRules(up, c, if d.Black? then h + 1 else h); }
    case InRight(up, _, _, d, _) => if !up.Top? { PaintTopRules(up, c, if d.Black? then h + 1 else h); }
  }

  /** A black node is gone: once the root is painted red, the repair loop may start. */
  lemma CutBlack(x: Ctx, s: Tree)
    requires Cut(x, s, Black)
    ensures if x.Top? then Short(Top, Paint(s, Red)) else Short(PaintTop(x, Red), s)
  {
    if !x.Top? { PaintTopRules(x, Red, BlackHeight(s) + 1); }
  }

  // ----- dict_delete: the contents -----

  /** The sequence without its first entry for node `n`. */
  function Without(s: seq<Entry>, n: Ref): seq<Entry> {
    if s == [] then [] else if s[0].n == n then s[1..] else [s[0]] + Without(s[1..], n)
  }

  lemma {:induction false} WithoutSplit(a: seq<Entry>, e: Entry, b: seq<Entry>)
    requires forall i | 0 <= i < |a| :: a[i].n != e.n
    ensures Without(a + [e] + b, e.n) == a + b
  {
    var s := a + [e] + b;
    if a == [] {
      assert s[0] == e && s[1..] == b && a + b == b;
    } else {
      assert s[0] == a[0] && s[1..] == a[1..] + [e] + b;
      WithoutSplit(a[1..], e, b);
      assert [a[0]] + (a[1..] + b) == a + b;
    }
  }

  lemma {:induction false} InorderNodes(t: Tree, e: Entry)
    requires e in Inorder(t)
    ensures e.n in Nodes(t)
  {
    if e in Inorder(t.l) { InorderNodes(t.l, e); } else if e in Inorder(t.r) { InorderNodes(t.r, e); }
  }

  lemma {:induction false} BeforeNodes(x: Ctx, e: Entry)
    requires e in Before(x)
    ensures e.n in CtxNodes(x)
  {
    match x
    case Top =>
    case InLeft(up, _, _, _, _) => BeforeNodes(up, e);
    case InRight(up, l, _, _, _) =>
      if e in Before(up) { BeforeNodes(up, e); } else if e in Inorder(l) { InorderNodes(l, e); }
  }

  lemma Regroup<T>(p: seq<T>, q: seq<T>, e: seq<T>, r: seq<T>, s: seq<T>)
    ensures p + (q + e + r) + s == (p + q) + e + (r + s)
    ensures p + (q + r) + s == (p + q) + (r + s)
  {
  }

  lemma EarlierNodes(x: Ctx, t: Tree, nil: Ref)
    requires t.Node? && Separate(x, t, nil)
    ensures var a := Before(x) + Inorder(t.l); forall i | 0 <= i < |a| :: a[i].n != t.n
  {
    var a := Before(x) + Inorder(t.l);
    forall i | 0 <= i < |a|
      ensures a[i].n != t.n
    {
      if i < |Before(x)| { BeforeNodes(x, a[i]); } else { InorderNodes(t.l, a[i]); }
    }
  }

  lemma DeletedContents(x: Ctx, t: Tree, u: Tree, nil: Ref)
    requires t.Node? && Separate(x, t, nil) && Inorder(u) == Inorder(t.l) + Inorder(t.r)
    ensures Contents(x, u) == Without(Contents(x, t), t.n)
    ensures |Contents(x, u)| == |Contents(x, t)| - 1
  {
    var e := Entry(t.n, t.k);
    var a, b := Before(x) + Inorder(t.l), Inorder(t.r) + After(x);
    PlugInorder(x, t);
    PlugInorder(x, u);
    Regroup(Before(x), Inorder(t.l), [e], Inorder(t.r), After(x));
    EarlierNodes(x, t, nil);
    WithoutSplit(a, e, b);
  }

  /** Where a node sits in the tree. */
  lemma {:induction false} Locate(t: Tree, n: Ref) returns (x: Ctx, s: Tree)
    requires n in Nodes(t)
    ensures Plug(x, s) == t && s.Node? && s.n == n
  {
    if t.n == n {
      x, s := Top, t;
    } else if n in Nodes(t.l) {
      var y;
      y, s := Locate(t.l, n);
      x := Compose(InLeft(Top, t.n, t.c, t.k, t.r), y);
      PlugCompose(InLeft(Top, t.n, t.c, t.k, t.r), y, s);
    } else {
      var y;
      y, s := Locate(t.r, n);
      x := Compose(InRight(Top, t.l, t.n, t.c, t.k), y);
      PlugCompose(InRight(Top, t.l, t.n, t.c, t.k), y, s);
    }
  }
}
