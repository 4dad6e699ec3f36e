/**
 * The shape that dict_load_end builds from a sorted list, and the bookkeeping
 * that guarantees it: the array of waiting nodes is a binary counter.
 */
module BulkLoad {
  import opened RedBlackTree

  // ----- levels -----

  /** Colour of a node at a level; level 0 is the bottom row. */
  function LevelColor(j: nat): Color { if j % 2 == 0 then Red else Black }

  /** A subtree of level `j`: perfect above the bottom row, whose places may be empty. */
  predicate Layered(t: Tree, j: nat) {
    if j == 0 then t.Leaf? || (t.c.Red? && t.l.Leaf? && t.r.Leaf?)
    else t.Node? && t.c == LevelColor(j) && Layered(t.l, j - 1) && Layered(t.r, j - 1)
  }

  /** Alternating colours make every layered tree balanced. */
  lemma {:induction false} LayeredRules(t: Tree, j: nat)
    requires Layered(t, j)
    ensures Balanced(t) && NoRedRed(t) && BlackHeight(t) == (j + 1) / 2
    ensures j % 2 == 1 ==> IsBlack(t)
  {
    if j > 0 {
      LayeredRules(t.l, j - 1);
      LayeredRules(t.r, j - 1);
    }
  }

  lemma LayeredRedBlack(t: Tree, j: nat)
    requires Layered(t, j)
    ensures RedBlack(Paint(t, Black))
  {
    LayeredRules(t, j);
  }

  // ----- the array of waiting nodes -----

  const DEPTH_MAX: nat := 64

  /**
   * From slot `i` up, the waiting nodes are the bits of `v`: the node in slot `j`
   * heads a subtree of level `j + 1` and lacks its right child, of level `j`.
   * In context form they are the right spine above the hole.
   */
  ghost predicate Slots(tree: seq<Ref>, x: Ctx, i: nat, v: nat)
    requires |tree| == DEPTH_MAX
    decreases DEPTH_MAX - i
  {
    if i >= DEPTH_MAX then v == 0 && x.Top?
    else if v % 2 == 0 then tree[i] == NULL && Slots(tree, x, i + 1, v / 2)
    else
      && x.InRight? && tree[i] == x.n && x.n != NULL
      && x.c == LevelColor(i + 1) && Layered(x.l, i)
      && Slots(tree, x.up, i + 1, v / 2)
  }

  /** Slots below `i` do not matter. */
  lemma {:induction false} SlotsFrame(tree: seq<Ref>, tree': seq<Ref>, x: Ctx, i: nat, v: nat)
    requires |tree| == DEPTH_MAX == |tree'| && Slots(tree, x, i, v)
    requires forall j | i <= j < DEPTH_MAX :: tree'[j] == tree[j]
    ensures Slots(tree', x, i, v)
    decreases DEPTH_MAX - i
  {
    if i < DEPTH_MAX {
      SlotsFrame(tree, tree', if v % 2 == 0 then x else x.up, i + 1, v / 2);
    }
  }

  /** Empty slots are zero bits. */
  lemma {:induction false} SlotsLow(tree: seq<Ref>, x: Ctx, i: nat, l: nat, v: nat)
    requires |tree| == DEPTH_MAX && i <= l <= DEPTH_MAX && Slots(tree, x, l, v)
    requires forall j | i <= j < l :: tree[j] == NULL
    ensures Slots(tree, x, i, v * Pow2(l - i))
    decreases l - i
  {
    if i < l {
      SlotsLow(tree, x, i + 1, l, v);
      Doubled(v, l - i);
    }
  }

  lemma Doubled(v: nat, e: nat)
    requires e > 0
    ensures v * Pow2(e) == 2 * (v * Pow2(e - 1))
    ensures (v * Pow2(e)) % 2 == 0 && (v * Pow2(e)) / 2 == v * Pow2(e - 1)
  {
  }

  lemma {:induction false} SlotsZero(tree: seq<Ref>, x: Ctx, i: nat)
    requires |tree| == DEPTH_MAX && Slots(tree, x, i, 0)
    ensures x.Top? && forall j | i <= j < DEPTH_MAX :: tree[j] == NULL
    decreases DEPTH_MAX - i
  {
    if i < DEPTH_MAX { SlotsZero(tree, x, i + 1); }
  }

  // ----- counting -----

  /** The counter value behind a complete subtree of level `l`: `u` ends in `l` ones. */
  predicate Carry(u: nat, v: nat, l: nat) { u + 1 == (v + 1) * Pow2(l) }

  lemma CarryStep(u: nat, v: nat, l: nat)
    requires Carry(u, v, l) && v % 2 == 1
    ensures Carry(u, v / 2, l + 1)
  {
    assert (v + 1) == 2 * (v / 2 + 1);
    assert (v + 1) * Pow2(l) == (v / 2 + 1) * (2 * Pow2(l));
  }

  /** A level never reaches DICT_DEPTH_MAX while fewer than 2^63 nodes have been counted. */
  lemma CarryBound(u: nat, v: nat, l: nat)
    requires Carry(u, v, l) && u < Pow2(DEPTH_MAX - 1)
    ensures l < DEPTH_MAX && (l == DEPTH_MAX - 1 ==> v == 0)
  {
    Pow2Mono(0, DEPTH_MAX - 1);
    MulMono(1, v + 1, Pow2(l));
    if l >= DEPTH_MAX { Pow2Mono(DEPTH_MAX, l); }
    if v > 0 { MulMono(2, v + 1, Pow2(l)); }
  }

  lemma MulMono(a: nat, b: nat, c: nat)
    requires a <= b
    ensures a * c <= b * c
  {
  }

  /** When the counter stands at 2^k - 1, nothing waits above a complete subtree. */
  lemma CarryAllOnes(u: nat, v: nat, l: nat, k: nat)
    requires Carry(u, v, l) && v % 2 == 0 && u + 1 == Pow2(k)
    ensures v == 0
  {
    if v > 0 {
      Pow2Mono(0, l);
      if k < l {
        MulMono(1, v + 1, Pow2(l));
        Pow2Mono(k, l - 1);
      } else {
        Pow2Add(k - l, l);
        Cancel(v + 1, Pow2(k - l), Pow2(l));
      }
    }
  }

  lemma MulStrict(a: nat, b: nat, c: nat)
    requires a < b && c > 0
    ensures a * c < b * c
  {
  }

  lemma Cancel(a: nat, b: nat, c: nat)
    requires c > 0 && a * c == b * c
    ensures a == b
  {
    if a < b { MulStrict(a, b, c); }
    if b < a { MulStrict(b, a, c); }
  }
}
