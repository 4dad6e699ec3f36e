/**
 * The abstract value of a dictionary: a binary tree whose nodes carry the
 * address of a cell, its colour and its key.  Everything here is pure; the
 * link between such a tree and the cells that implement it is in NodeStore.
 */
module RedBlackTree {

  datatype Color = Red | Black

  /** An address of a node cell; NULL is the null pointer. */
  type Ref = int
  const NULL: Ref := -1

  datatype Tree = Leaf | Node(l: Tree, n: Ref, c: Color, k: int, r: Tree)

  /** A tree with one subtree taken out, seen from the hole upwards. */
  datatype Ctx =
    | Top
    | InLeft(up: Ctx, n: Ref, c: Color, k: int, r: Tree)
    | InRight(up: Ctx, l: Tree, n: Ref, c: Color, k: int)

  /** What the dictionary stores, in order: the node and the key it was filed under. */
  datatype Entry = Entry(n: Ref, k: int)

  // ----- in-order contents -----

  function Inorder(t: Tree): seq<Entry> {
    if t.Leaf? then [] else Inorder(t.l) + [Entry(t.n, t.k)] + Inorder(t.r)
  }

  function Plug(x: Ctx, t: Tree): Tree {
    match x
    case Top => t
    case InLeft(up, n, c, k, r) => Plug(up, Node(t, n, c, k, r))
    case InRight(up, l, n, c, k) => Plug(up, Node(l, n, c, k, t))
  }

  /** `inner` placed in the hole of `outer`. */
  function Compose(outer: Ctx, inner: Ctx): Ctx {
    match inner
    case Top => outer
    case InLeft(up, n, c, k, r) => InLeft(Compose(outer, up), n, c, k, r)
    case InRight(up, l, n, c, k) => InRight(Compose(outer, up), l, n, c, k)
  }

  /** The entries before and after the hole. */
  function Before(x: Ctx): seq<Entry> {
    match x
    case Top => []
    case InLeft(up, _, _, _, _) => Before(up)
    case InRight(up, l, n, _, k) => Before(up) + Inorder(l) + [Entry(n, k)]
  }

  function After(x: Ctx): seq<Entry> {
    match x
    case Top => []
    case InLeft(up, n, _, k, r) => [Entry(n, k)] + Inorder(r) + After(up)
    case InRight(up, _, _, _, _) => After(up)
  }

  lemma ConcatAssoc<T>(a: seq<T>, b: seq<T>, c: seq<T>)
    ensures a + b + c == a + (b + c)
  {
  }

  lemma {:induction false} PlugInorder(x: Ctx, t: Tree)
    ensures Inorder(Plug(x, t)) == Before(x) + Inorder(t) + After(x)
  {
    match x
    case Top =>
    case InLeft(up, n, c, k, r) =>
      var e, p, q := [Entry(n, k)], Inorder(t), Inorder(r);
      PlugInorder(up, Node(t, n, c, k, r));
      calc {
        Before(up) + (p + e + q) + After(up);
        { ConcatAssoc(p, e, q); ConcatAssoc(Before(up), p, e + q); }
        Before(up) + p + (e + q) + After(up);
        { ConcatAssoc(Before(up) + p, e + q, After(up)); }
        Before(up) + p + (e + q + After(up));
      }
    case InRight(up, l, n, c, k) =>
      var e, p, q := [Entry(n, k)], Inorder(l), Inorder(t);
      PlugInorder(up, Node(l, n, c, k, t));
      calc {
        Before(up) + (p + e + q) + After(up);
        { ConcatAssoc(Before(up), p + e, q); ConcatAssoc(Before(up), p, e); }
        Before(up) + p + e + q + After(up);
      }
  }

  lemma {:induction false} PlugCompose(outer: Ctx, inner: Ctx, t: Tree)
    ensures Plug(Compose(outer, inner), t) == Plug(outer, Plug(inner, t))
  {
    match inner
    case Top =>
    case InLeft(up, n, c, k, r) => PlugCompose(outer, up, Node(t, n, c, k, r));
    case InRight(up, l, n, c, k) => PlugCompose(outer, up, Node(l, n, c, k, t));
  }

  // ----- size and height -----

  function Size(t: Tree): nat {
    if t.Leaf? then 0 else Size(t.l) + 1 + Size(t.r)
  }

  lemma {:induction false} InorderLength(t: Tree)
    ensures |Inorder(t)| == Size(t)
  {
    if t.Node? {
      InorderLength(t.l);
      InorderLength(t.r);
    }
  }

  function Max(a: nat, b: nat): nat { if a < b then b else a }

  function Height(t: Tree): nat {
    if t.Leaf? then 0 else 1 + Max(Height(t.l), Height(t.r))
  }

  function Pow2(n: nat): nat {
    if n == 0 then 1 else 2 * Pow2(n - 1)
  }

  // ----- the red-black rules -----

  predicate IsBlack(t: Tree) { t.Leaf? || t.c.Black? }

  /** Black nodes on the leftmost path. */
  function BlackHeight(t: Tree): nat {
    if t.Leaf? then 0 else BlackHeight(t.l) + (if t.c.Black? then 1 else 0)
  }

  /** Every path from the root to a leaf meets the same number of black nodes. */
  predicate Balanced(t: Tree) {
    t.Node? ==> Balanced(t.l) && Balanced(t.r) && BlackHeight(t.l) == BlackHeight(t.r)
  }

  /** No red node has a red child. */
  predicate NoRedRed(t: Tree) {
    t.Node? ==>
      && NoRedRed(t.l) && NoRedRed(t.r)
      && (t.c.Red? ==> IsBlack(t.l) && IsBlack(t.r))
  }

  predicate RedBlack(t: Tree) { IsBlack(t) && Balanced(t) && NoRedRed(t) }

  /** As NoRedRed, but the root's own colour is not looked at. */
  predicate NoRedRedBelow(t: Tree) {
    t.Node? ==> NoRedRed(t.l) && NoRedRed(t.r)
  }

  function Paint(t: Tree, c: Color): Tree {
    if t.Leaf? then Leaf else t.(c := c)
  }

  /**
   * The hole's parent is red and is not the root.  The root is left out
   * because dict_delete paints it red for the time of its repair loop.
   */
  predicate Hot(x: Ctx) { !x.Top? && x.c.Red? && !x.up.Top? }

  predicate CtxNoRedRed(x: Ctx) {
    match x
    case Top => true
    case InLeft(up, _, c, _, r) =>
      NoRedRed(r) && CtxNoRedRed(up) && (Hot(x) ==> IsBlack(r)) && (Hot(up) ==> c.Black?)
    case InRight(up, l, _, c, _) =>
      NoRedRed(l) && CtxNoRedRed(up) && (Hot(x) ==> IsBlack(l)) && (Hot(up) ==> c.Black?)
  }

  /** The context is balanced once a tree of black height `h` fills the hole. */
  predicate CtxBalanced(x: Ctx, h: nat) {
    match x
    case Top => true
    case InLeft(up, _, c, _, r) =>
      Balanced(r) && BlackHeight(r) == h && CtxBalanced(up, if c.Black? then h + 1 else h)
    case InRight(up, l, _, c, _) =>
      Balanced(l) && BlackHeight(l) == h && CtxBalanced(up, if c.Black? then h + 1 else h)
  }

  /** Colour of the root of any tree plugged into a non-trivial context. */
  function RootColor(x: Ctx): Color
    requires !x.Top?
  {
    if x.up.Top? then x.c else RootColor(x.up)
  }

  lemma {:induction false} PlugBalanced(x: Ctx, t: Tree)
    ensures Balanced(Plug(x, t)) <==> Balanced(t) && CtxBalanced(x, BlackHeight(t))
  {
    match x
    case Top =>
    case InLeft(up, n, c, k, r) =>
      var u := Node(t, n, c, k, r);
      PlugBalanced(up, u);
      assert Balanced(u) <==> Balanced(t) && Balanced(r) && BlackHeight(t) == BlackHeight(r);
    case InRight(up, l, n, c, k) =>
      var u := Node(l, n, c, k, t);
      PlugBalanced(up, u);
      assert Balanced(u) <==> Balanced(l) && Balanced(t) && BlackHeight(l) == BlackHeight(t);
      assert BlackHeight(u) == BlackHeight(l) + (if c.Black? then 1 else 0);
  }

  lemma {:induction false} PlugNoRedRed(x: Ctx, t: Tree)
    ensures NoRedRedBelow(Plug(x, t)) <==>
            if x.Top? then NoRedRedBelow(t)
            else NoRedRed(t) && CtxNoRedRed(x) && (Hot(x) ==> IsBlack(t))
  {
    match x
    case Top =>
    case InLeft(up, n, c, k, r) =>
      var u := Node(t, n, c, k, r);
      PlugNoRedRed(up, u);
      assert NoRedRed(u) <==> NoRedRed(t) && NoRedRed(r) && (c.Red? ==> IsBlack(t) && IsBlack(r));
      assert CtxNoRedRed(x) <==>
        NoRedRed(r) && CtxNoRedRed(up) && (Hot(x) ==> IsBlack(r)) && (Hot(up) ==> c.Black?);
    case InRight(up, l, n, c, k) =>
      var u := Node(l, n, c, k, t);
      PlugNoRedRed(up, u);
      assert NoRedRed(u) <==> NoRedRed(l) && NoRedRed(t) && (c.Red? ==> IsBlack(l) && IsBlack(t));
      assert CtxNoRedRed(x) <==>
        NoRedRed(l) && CtxNoRedRed(up) && (Hot(x) ==> IsBlack(l)) && (Hot(up) ==> c.Black?);
  }

  lemma {:induction false} PlugRoot(x: Ctx, t: Tree)
    requires !x.Top?
    ensures Plug(x, t).Node? && Plug(x, t).c == RootColor(x)
  {
    match x
    case InLeft(up, n, c, k, r) => if !up.Top? { PlugRoot(up, Node(t, n, c, k, r)); }
    case InRight(up, l, n, c, k) => if !up.Top? { PlugRoot(up, Node(l, n, c, k, t)); }
  }

  // ----- a red-black tree is shallow -----

  lemma {:induction false} HeightAndSize(t: Tree)
    requires Balanced(t) && NoRedRed(t)
    ensures Height(t) <= 2 * BlackHeight(t) + (if IsBlack(t) then 0 else 1)
    ensures Pow2(BlackHeight(t)) <= Size(t) + 1
  {
    if t.Node? {
      HeightAndSize(t.l);
      HeightAndSize(t.r);
    }
  }

  lemma {:induction false} Pow2Add(a: nat, b: nat)
    ensures Pow2(a + b) == Pow2(a) * Pow2(b)
  {
    if a > 0 { Pow2Add(a - 1, b); }
  }

  lemma {:induction false} Pow2Mono(a: nat, b: nat)
    requires a <= b
    ensures 1 <= Pow2(a) <= Pow2(b)
  {
    if a < b { Pow2Mono(a, b - 1); } else if a > 0 { Pow2Mono(a - 1, b - 1); }
  }

  lemma SquareMono(a: nat, b: nat)
    requires a <= b
    ensures a * a <= b * b
  {
    assert a * a <= a * b <= b * b;
  }

  /** Height at most 2 * log2(n + 1), stated without logarithms. */
  lemma HeightBound(t: Tree)
    requires RedBlack(t)
    ensures Pow2(Height(t)) <= (Size(t) + 1) * (Size(t) + 1)
  {
    HeightAndSize(t);
    var h := BlackHeight(t);
    Pow2Mono(Height(t), h + h);
    Pow2Add(h, h);
    SquareMono(Pow2(h), Size(t) + 1);
  }
}
