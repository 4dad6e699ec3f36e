/**
 * dict_verify: the dictionary's own consistency test, shown to accept exactly
 * the states that every operation keeps.
 */
module DictVerify {
  import opened RedBlackTree
  import opened NodeStore
  import opened DictWalk
  import opened Dict

  /** verify_redblack: the black height (counting the sentinel) of a red-black subtree, 0 for any other. */
  method VerifyRedBlack(h: Heap, nil: Ref, root: Ref, ghost t: Tree, ghost par: Ref) returns (height: nat)
    requires Rep(h.View(), t, par, nil) && Tagged(h.color, h.key, t) && nil !in Nodes(t) && root == Ptr(t, nil)
    requires h.View().Has(nil) && h.color[nil] == Black
    ensures height == if Balanced(t) && NoRedRed(t) then BlackHeight(t) + 1 else 0
    decreases t
  {
    if root != nil {
      var left := VerifyRedBlack(h, nil, h.left[root], t.l, root);
      var right := VerifyRedBlack(h, nil, h.right[root], t.r, root);
      if left == 0 || right == 0 { return 0; }
      if left != right { return 0; }
      RootColors(h.View(), t, nil);
      if h.color[root] == Red {
        if h.color[h.left[root]] != Black { return 0; }
        if h.color[h.right[root]] != Black { return 0; }
        return left;
      }
      return left + 1;
    }
    return 1;
  }

  /** The colours read through a node's child pointers. */
  lemma RootColors(m: Mem, t: Tree, nil: Ref)
    requires t.Node? && Tagged(m.color, m.key, t) && m.Has(nil) && m.color[nil] == Black
    ensures 0 <= Ptr(t.l, nil) < |m.color| && 0 <= Ptr(t.r, nil) < |m.color|
    ensures (m.color[Ptr(t.l, nil)] == Black) == IsBlack(t.l) && (m.color[Ptr(t.r, nil)] == Black) == IsBlack(t.r)
  {
  }

  method VerifyNodeCount(h: Heap, nil: Ref, root: Ref, ghost t: Tree, ghost par: Ref) returns (n: nat)
    requires Rep(h.View(), t, par, nil) && nil !in Nodes(t) && root == Ptr(t, nil)
    ensures n == Size(t)
    decreases t
  {
    if root == nil { return 0; }
    var l := VerifyNodeCount(h, nil, h.left[root], t.l, root);
    var r := VerifyNodeCount(h, nil, h.right[root], t.r, root);
    n := 1 + l + r;
  }

  /** The order that neighbours must be in. */
  ghost predicate InOrder(cmp: (int, int) -> int, dupes: bool, a: int, b: int) {
    if dupes then cmp(a, b) <= 0 else cmp(a, b) < 0
  }

  lemma InOrderTest(cmp: (int, int) -> int, dupes: bool, a: int, b: int)
    ensures InOrder(cmp, dupes, a, b) <==> !(if dupes then cmp(a, b) > 0 else cmp(a, b) >= 0)
  {
  }

  lemma AheadNode(m: Mem, x: Ctx, t: Tree, nil: Ref)
    requires AheadOf(m, x, t, nil)
    ensures t.Node?
  {
  }

  ghost predicate Chained(cmp: (int, int) -> int, dupes: bool, s: seq<Entry>) {
    forall i | 0 < i < |s| :: InOrder(cmp, dupes, s[i - 1].k, s[i].k)
  }

  lemma {:induction false} TaggedKeys(color: seq<Color>, key: seq<int>, t: Tree, i: nat)
    requires Tagged(color, key, t) && i < |Inorder(t)|
    ensures 0 <= Inorder(t)[i].n < |key| && key[Inorder(t)[i].n] == Inorder(t)[i].k
  {
    var n := |Inorder(t.l)|;
    if i < n {
      TaggedKeys(color, key, t.l, i);
    } else if i > n {
      TaggedKeys(color, key, t.r, i - n - 1);
      assert Inorder(t)[i] == Inorder(t.r)[i - n - 1];
    }
  }

  lemma GoodKeys(m: Mem, t: Tree, nil: Ref)
    requires Good(m, Top, t, nil)
    ensures forall i | 0 <= i < |Inorder(t)| :: 0 <= Inorder(t)[i].n < |m.key| && m.key[Inorder(t)[i].n] == Inorder(t)[i].k
  {
    forall i | 0 <= i < |Inorder(t)|
      ensures 0 <= Inorder(t)[i].n < |m.key| && m.key[Inorder(t)[i].n] == Inorder(t)[i].k
    {
      TaggedKeys(m.color, m.key, t, i);
    }
  }

  /** verify_bintree: neighbours on the walk from dict_first by dict_next are in order. */
  method VerifyBintree(d: Dict) returns (ok: bool)
    requires Good(d.heap.View(), Top, d.tree, d.nil)
    ensures ok <==> Chained(d.compare, d.dupes, Inorder(d.tree))
  {
    hide Good, Rest, AheadOf, InOrder, Inorder;
    ghost var s := Inorder(d.tree);
    GoodKeys(d.heap.View(), d.tree, d.nil);
    ghost var x, t, y;
    var first;
    first, x, t := d.First();
    if first != NULL { AheadNode(d.heap.View(), x, t, d.nil); }
    ghost var i := 0;
    ghost var rest := s;
    while first != NULL
      invariant 0 <= i <= |s| && rest == s[i..] && (first == NULL <==> rest == [])
      invariant first != NULL ==> t.Node? && AheadOf(d.heap.View(), x, t, d.nil) && first == t.n
      invariant first != NULL ==> rest == [Entry(t.n, t.k)] + Rest(x, t)
      invariant forall j | 0 < j <= i && j < |s| :: InOrder(d.compare, d.dupes, s[j - 1].k, s[j].k)
      decreases |rest|
    {
      ghost var x', t';
      var next;
      assert s[i] == Entry(t.n, t.k) && s[i + 1..] == Rest(x, t);
      next, y, x', t' := d.heap.Next(first, d.nil, x, t);
      if next == NULL { return true; }
      AheadNode(d.heap.View(), x', t', d.nil);
      assert s[i + 1] == Entry(t'.n, t'.k);
      var c := d.compare(d.heap.key[first], d.heap.key[next]);
      InOrderTest(d.compare, d.dupes, s[i].k, s[i + 1].k);
      if (if d.dupes then c > 0 else c >= 0) {
        assert !InOrder(d.compare, d.dupes, s[i + 1 - 1].k, s[i + 1].k);
        return false;
      }
      assert s[i + 2..] == Rest(x', t');
      first, x, t, i, rest := next, x', t', i + 1, s[i + 1..];
    }
    return true;
  }

  lemma InOrderTrans(cmp: (int, int) -> int, dupes: bool, a: int, b: int, c: int)
    requires Preorder(cmp) && InOrder(cmp, dupes, a, b) && InOrder(cmp, dupes, b, c)
    ensures InOrder(cmp, dupes, a, c)
  {
    assert cmp(a, c) >= 0 ==> cmp(c, a) <= 0;
    assert cmp(c, a) <= 0 && cmp(a, b) <= 0 ==> cmp(c, b) <= 0;
  }

  lemma {:induction false} ChainedPair(cmp: (int, int) -> int, dupes: bool, s: seq<Entry>, i: nat, j: nat)
    requires Preorder(cmp) && Chained(cmp, dupes, s) && i < j < |s|
    ensures InOrder(cmp, dupes, s[i].k, s[j].k)
    decreases j
  {
    hide Preorder, InOrder;
    if i < j - 1 {
      ChainedPair(cmp, dupes, s, i, j - 1);
      InOrderTrans(cmp, dupes, s[i].k, s[j - 1].k, s[j].k);
    }
  }

  /** Neighbours in order is the same as every pair in order. */
  lemma ChainedSorted(cmp: (int, int) -> int, dupes: bool, s: seq<Entry>)
    requires Preorder(cmp)
    ensures Chained(cmp, dupes, s) <==> Sorted(cmp, s) && (dupes || StrictlySorted(cmp, s))
  {
    hide Preorder;
    if Chained(cmp, dupes, s) {
      forall i, j | 0 <= i < j < |s|
        ensures InOrder(cmp, dupes, s[i].k, s[j].k)
      {
        ChainedPair(cmp, dupes, s, i, j);
      }
    }
  }

  /**
   * Of a dictionary whose pointers form a tree, dict_verify accepts exactly
   * what the operations keep: the red-black rules, the order, the count, the
   * sentinel's fields, and no equal keys where duplicates are not allowed.
   */
  method Verify(d: Dict) returns (ok: bool)
    requires Good(d.heap.View(), Top, d.tree, d.nil) && Preorder(d.compare)
    ensures ok <==> d.Valid() && d.Exact()
  {
    hide Preorder, Sorted, StrictlySorted, Chained;
    var h, nil := d.heap, d.nil;
    ReadTop(h.View(), d.tree, nil);
    ReadFocus(h.View(), Top, d.tree, nil);
    var root := h.left[nil];
    if h.color[root] != Black { return false; }
    if h.color[nil] != Black { return false; }
    if h.right[nil] != nil { return false; }
    if h.parent[h.left[nil]] != nil { return false; }
    ChainedSorted(d.compare, d.dupes, Inorder(d.tree));
    var b := VerifyBintree(d);
    if !b { return false; }
    var height := VerifyRedBlack(h, nil, root, d.tree, nil);
    if height == 0 { return false; }
    var n := VerifyNodeCount(h, nil, root, d.tree, nil);
    return n == d.nodecount;
  }
}
