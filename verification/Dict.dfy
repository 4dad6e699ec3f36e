/**
 * The red-black dictionary of e2fsck: insertion, deletion, lookup, bounds and
 * in-order stepping, over an explicit store of node cells.
 */
module Dict {
  import opened RedBlackTree
  import opened NodeStore
  import opened NodeSurgery
  import opened Rebalance
  import opened DictRepair
  import opened DictShape
  import opened DictWalk
  import opened DictCut

  // ----- the order of keys -----

  /** What dict_compare must be: a total preorder given by the sign of its result. */
  ghost predicate Preorder(cmp: (int, int) -> int) {
    && (forall a, b :: cmp(a, b) < 0 <==> cmp(b, a) > 0)
    && (forall a, b, c :: cmp(a, b) <= 0 && cmp(b, c) <= 0 ==> cmp(a, c) <= 0)
  }

  ghost predicate Sorted(cmp: (int, int) -> int, s: seq<Entry>) {
    forall i, j | 0 <= i < j < |s| :: cmp(s[i].k, s[j].k) <= 0
  }

  /** Sorted and without two equal keys: what a dictionary without duplicates promises. */
  ghost predicate StrictlySorted(cmp: (int, int) -> int, s: seq<Entry>) {
    forall i, j | 0 <= i < j < |s| :: cmp(s[i].k, s[j].k) < 0
  }

  ghost predicate AllLe(cmp: (int, int) -> int, s: seq<Entry>, key: int) {
    forall i | 0 <= i < |s| :: cmp(key, s[i].k) >= 0
  }

  ghost predicate AllGreater(cmp: (int, int) -> int, s: seq<Entry>, key: int) {
    forall i | 0 <= i < |s| :: cmp(key, s[i].k) < 0
  }

  lemma ContentsAt(x: Ctx, t: Tree)
    requires t.Node?
    ensures Contents(x, t) == (Before(x) + Inorder(t.l)) + [Entry(t.n, t.k)] + (Inorder(t.r) + After(x))
  {
    hide Plug, Before, After;
    PlugInorder(x, t);
    Regroup(Before(x), Inorder(t.l), [Entry(t.n, t.k)], Inorder(t.r), After(x));
  }

  lemma SortedSplit(cmp: (int, int) -> int, a: seq<Entry>, e: Entry, b: seq<Entry>)
    requires Sorted(cmp, a + [e] + b)
    ensures forall d | d in b :: cmp(e.k, d.k) <= 0
    ensures forall d | d in a :: cmp(d.k, e.k) <= 0
  {
    var s := a + [e] + b;
    forall d | d in b
      ensures cmp(e.k, d.k) <= 0
    {
      var i :| 0 <= i < |b| && b[i] == d;
      assert s[|a|] == e && s[|a| + 1 + i] == d;
    }
    forall d | d in a
      ensures cmp(d.k, e.k) <= 0
    {
      var i :| 0 <= i < |a| && a[i] == d;
      assert s[|a|] == e && s[i] == d;
    }
  }

  lemma SortedParts(cmp: (int, int) -> int, x: Ctx, t: Tree)
    requires Sorted(cmp, Contents(x, t)) && t.Node?
    ensures forall e | e in Inorder(t.r) + After(x) :: cmp(t.k, e.k) <= 0
    ensures forall e | e in Before(x) + Inorder(t.l) :: cmp(e.k, t.k) <= 0
  {
    hide Contents, Inorder, Before, After, Sorted;
    ContentsAt(x, t);
    SortedSplit(cmp, Before(x) + Inorder(t.l), Entry(t.n, t.k), Inorder(t.r) + After(x));
  }

  /** One step down the search path keeps everything on the left `<= key` and everything on the right `> key`. */
  lemma Descend(cmp: (int, int) -> int, key: int, x: Ctx, t: Tree)
    requires Preorder(cmp) && Sorted(cmp, Contents(x, t)) && t.Node?
    requires AllLe(cmp, Before(x), key) && AllGreater(cmp, After(x), key)
    ensures cmp(key, t.k) < 0 ==> AllGreater(cmp, After(InLeft(x, t.n, t.c, t.k, t.r)), key)
    ensures cmp(key, t.k) >= 0 ==> AllLe(cmp, Before(InRight(x, t.l, t.n, t.c, t.k)), key)
  {
    hide Preorder, Sorted, Contents, Inorder, AllLe, AllGreater;
    SortedParts(cmp, x, t);
    if cmp(key, t.k) < 0 {
      GreaterAbove(cmp, key, Entry(t.n, t.k), Inorder(t.r) + After(x));
      assert After(InLeft(x, t.n, t.c, t.k, t.r)) == [Entry(t.n, t.k)] + (Inorder(t.r) + After(x));
    } else {
      LeBelow(cmp, key, Before(x) + Inorder(t.l), Entry(t.n, t.k));
    }
  }

  lemma LeThrough(cmp: (int, int) -> int, key: int, a: int, b: int)
    requires Preorder(cmp) && cmp(key, b) >= 0 && cmp(a, b) <= 0
    ensures cmp(key, a) >= 0
  {
    assert cmp(b, key) <= 0;
    assert cmp(a, key) <= 0;
  }

  lemma LeBelow(cmp: (int, int) -> int, key: int, s: seq<Entry>, e: Entry)
    requires Preorder(cmp) && cmp(key, e.k) >= 0 && forall d | d in s :: cmp(d.k, e.k) <= 0
    ensures AllLe(cmp, s + [e], key)
  {
    hide Preorder;
    forall i | 0 <= i < |s|
      ensures cmp(key, s[i].k) >= 0
    {
      LeThrough(cmp, key, s[i].k, e.k);
    }
  }

  ghost predicate AllLess(cmp: (int, int) -> int, s: seq<Entry>, key: int) {
    forall i | 0 <= i < |s| :: cmp(key, s[i].k) > 0
  }

  /** As Descend, for the searches that stop or turn at an equal key. */
  lemma DescendStrict(cmp: (int, int) -> int, key: int, x: Ctx, t: Tree)
    requires Preorder(cmp) && Sorted(cmp, Contents(x, t)) && t.Node?
    ensures AllLess(cmp, Before(x), key) && cmp(key, t.k) > 0 ==>
            AllLess(cmp, Before(InRight(x, t.l, t.n, t.c, t.k)), key)
    ensures AllGreater(cmp, After(x), key) && cmp(key, t.k) < 0 ==>
            AllGreater(cmp, After(InLeft(x, t.n, t.c, t.k, t.r)), key)
  {
    hide Preorder, Sorted, Contents, Inorder, AllLess, AllGreater;
    SortedParts(cmp, x, t);
    if AllLess(cmp, Before(x), key) && cmp(key, t.k) > 0 {
      LessBelow(cmp, key, Before(x) + Inorder(t.l), Entry(t.n, t.k));
    }
    if AllGreater(cmp, After(x), key) && cmp(key, t.k) < 0 {
      GreaterAbove(cmp, key, Entry(t.n, t.k), Inorder(t.r) + After(x));
      assert After(InLeft(x, t.n, t.c, t.k, t.r)) == [Entry(t.n, t.k)] + (Inorder(t.r) + After(x));
    }
  }

  lemma LessThrough(cmp: (int, int) -> int, key: int, a: int, b: int)
    requires Preorder(cmp) && cmp(key, b) > 0 && cmp(a, b) <= 0
    ensures cmp(key, a) > 0
  {
    assert cmp(key, a) <= 0 ==> cmp(key, b) <= 0;
  }

  lemma GreaterThrough(cmp: (int, int) -> int, key: int, a: int, b: int)
    requires Preorder(cmp) && cmp(key, a) < 0 && cmp(a, b) <= 0
    ensures cmp(key, b) < 0
  {
    assert cmp(key, b) >= 0 ==> cmp(b, key) <= 0;
    assert cmp(b, key) <= 0 ==> cmp(a, key) <= 0;
  }

  lemma LessBelow(cmp: (int, int) -> int, key: int, s: seq<Entry>, e: Entry)
    requires Preorder(cmp) && cmp(key, e.k) > 0 && forall d | d in s :: cmp(d.k, e.k) <= 0
    ensures AllLess(cmp, s + [e], key)
  {
    hide Preorder;
    forall i | 0 <= i < |s|
      ensures cmp(key, s[i].k) > 0
    {
      LessThrough(cmp, key, s[i].k, e.k);
    }
  }

  lemma GreaterAbove(cmp: (int, int) -> int, key: int, e: Entry, s: seq<Entry>)
    requires Preorder(cmp) && cmp(key, e.k) < 0 && forall d | d in s :: cmp(e.k, d.k) <= 0
    ensures AllGreater(cmp, [e] + s, key)
  {
    hide Preorder;
    forall i | 0 <= i < |s|
      ensures cmp(key, s[i].k) < 0
    {
      GreaterThrough(cmp, key, e.k, s[i].k);
    }
  }

  /** Every entry between two known ones compares like them. */
  lemma NotAbove(cmp: (int, int) -> int, key: int, x: Ctx, t: Tree)
    requires Preorder(cmp) && Sorted(cmp, Contents(x, t)) && t.Node?
    requires After(x) != [] && cmp(key, After(x)[0].k) == 0
    ensures cmp(key, t.k) >= 0
  {
    SortedParts(cmp, x, t);
    assert After(x)[0] in Inorder(t.r) + After(x);
  }

  /** `s[i]` is the entry a lookup of `key` should find. */
  ghost predicate FirstEqual(cmp: (int, int) -> int, s: seq<Entry>, key: int, i: int) {
    0 <= i < |s| && cmp(key, s[i].k) == 0 && AllLess(cmp, s[..i], key)
  }

  ghost predicate Hit(cmp: (int, int) -> int, s: seq<Entry>, key: int, r: Ref, i: int) {
    0 <= i < |s| && s[i].n == r && cmp(key, s[i].k) == 0
  }

  ghost predicate NoEqual(cmp: (int, int) -> int, s: seq<Entry>, key: int) {
    forall i | 0 <= i < |s| :: cmp(key, s[i].k) != 0
  }

  lemma HoleIndex(cmp: (int, int) -> int, key: int, x: Ctx)
    requires AllLess(cmp, Before(x), key) && After(x) != [] && cmp(key, After(x)[0].k) == 0
    ensures FirstEqual(cmp, Contents(x, Leaf), key, |Before(x)|)
    ensures Contents(x, Leaf)[|Before(x)|] == After(x)[0]
  {
    PlugInorder(x, Leaf);
    assert Contents(x, Leaf) == Before(x) + After(x);
    assert Contents(x, Leaf)[..|Before(x)|] == Before(x);
  }

  lemma HoleNone(cmp: (int, int) -> int, key: int, x: Ctx)
    requires AllLess(cmp, Before(x), key) && AllGreater(cmp, After(x), key)
    ensures NoEqual(cmp, Contents(x, Leaf), key)
  {
    PlugInorder(x, Leaf);
    assert Contents(x, Leaf) == Before(x) + After(x);
  }

  ghost predicate LowerAt(cmp: (int, int) -> int, s: seq<Entry>, key: int, r: Ref, i: int, first: bool) {
    0 <= i < |s| && s[i].n == r && cmp(key, s[i].k) <= 0 && (first ==> AllLess(cmp, s[..i], key))
  }

  ghost predicate UpperAt(cmp: (int, int) -> int, s: seq<Entry>, key: int, r: Ref, i: int, last: bool) {
    0 <= i < |s| && s[i].n == r && cmp(key, s[i].k) >= 0 && (last ==> AllGreater(cmp, s[i + 1..], key))
  }

  lemma HoleSplit(x: Ctx)
    ensures Contents(x, Leaf) == Before(x) + After(x)
    ensures Contents(x, Leaf)[..|Before(x)|] == Before(x) && Contents(x, Leaf)[|Before(x)|..] == After(x)
  {
    PlugInorder(x, Leaf);
  }

  lemma FocusLast(cmp: (int, int) -> int, key: int, x: Ctx, t: Tree)
    requires Preorder(cmp) && t.Node? && cmp(key, t.k) == 0
    ensures var s, i := Contents(x, t), |Before(x) + Inorder(t.l)|;
      && i < |s| && s[i] == Entry(t.n, t.k) && (StrictlySorted(cmp, s) ==> AllGreater(cmp, s[i + 1..], key))
  {
    FocusIndex(cmp, key, x, t);
  }

  /** The candidate of the search is the entry just before the place it is at. */
  ghost predicate Trailing(cmp: (int, int) -> int, s: seq<Entry>, key: int, r: Ref) {
    (r == NULL <==> s == []) && (s != [] ==> s[|s| - 1].n == r && cmp(key, s[|s| - 1].k) >= 0)
  }

  lemma TrailingNone(cmp: (int, int) -> int, key: int)
    ensures Trailing(cmp, Before(Top), key, NULL) && AllGreater(cmp, After(Top), key)
  {
  }

  lemma TrailingStep(cmp: (int, int) -> int, key: int, x: Ctx, t: Tree)
    requires t.Node? && cmp(key, t.k) >= 0
    ensures t.n != NULL ==> Trailing(cmp, Before(InRight(x, t.l, t.n, t.c, t.k)), key, t.n)
  {
  }

  lemma FocusUpper(cmp: (int, int) -> int, key: int, x: Ctx, t: Tree, last: bool)
    requires t.Node? && Preorder(cmp) && cmp(key, t.k) == 0 && (last ==> StrictlySorted(cmp, Contents(x, t)))
    ensures UpperAt(cmp, Contents(x, t), key, t.n, |Before(x) + Inorder(t.l)|, last)
  {
    hide StrictlySorted;
    FocusLast(cmp, key, x, t);
  }

  lemma HoleUpper(cmp: (int, int) -> int, key: int, x: Ctx, r: Ref, last: bool)
    requires AllGreater(cmp, After(x), key) && Trailing(cmp, Before(x), key, r)
    ensures r == NULL ==> AllGreater(cmp, Contents(x, Leaf), key)
    ensures r != NULL ==> UpperAt(cmp, Contents(x, Leaf), key, r, |Before(x)| - 1, last)
  {
    hide Before, After;
    HoleSplit(x);
  }

  lemma AheadAddress(m: Mem, x: Ctx, t: Tree, nil: Ref)
    requires AheadOf(m, x, t, nil)
    ensures t.n != NULL
  {
  }

  /** Where the entry at the focus stands; without equal keys it is the first match. */
  lemma FocusIndex(cmp: (int, int) -> int, key: int, x: Ctx, t: Tree)
    requires Preorder(cmp) && t.Node? && cmp(key, t.k) == 0
    ensures var s, i := Contents(x, t), |Before(x) + Inorder(t.l)|;
      && i < |s| && s[i] == Entry(t.n, t.k) && (StrictlySorted(cmp, s) ==> FirstEqual(cmp, s, key, i))
  {
    PlugInorder(x, t);
    Regroup(Before(x), Inorder(t.l), [Entry(t.n, t.k)], Inorder(t.r), After(x));
    var s, i := Contents(x, t), |Before(x) + Inorder(t.l)|;
    assert s[i] == Entry(t.n, t.k);
  }

  /** What the searches read at the focus. */
  lemma ReadFocus(m: Mem, x: Ctx, t: Tree, nil: Ref)
    requires Good(m, x, t, nil)
    ensures Ptr(t, nil) == nil <==> t.Leaf?
    ensures t.Node? ==> m.Has(t.n) && m.key[t.n] == t.k && m.left[t.n] == Ptr(t.l, nil) && m.right[t.n] == Ptr(t.r, nil)
  {
  }

  lemma ReadTop(m: Mem, t: Tree, nil: Ref)
    requires Good(m, Top, t, nil)
    ensures m.Has(nil) && m.left[nil] == Ptr(t, nil)
  {
  }

  /** How many entries of a sorted sequence are `<= key`. */
  function UpperIndex(cmp: (int, int) -> int, s: seq<Entry>, key: int): (i: nat)
    ensures i <= |s|
  {
    if s == [] || cmp(key, s[0].k) < 0 then 0 else 1 + UpperIndex(cmp, s[1..], key)
  }

  lemma {:induction false} UpperIndexSplit(cmp: (int, int) -> int, a: seq<Entry>, b: seq<Entry>, key: int)
    requires AllLe(cmp, a, key) && AllGreater(cmp, b, key)
    ensures UpperIndex(cmp, a + b, key) == |a|
  {
    if a == [] {
      assert a + b == b;
    } else {
      assert (a + b)[0] == a[0] && (a + b)[1..] == a[1..] + b;
      UpperIndexSplit(cmp, a[1..], b, key);
    }
  }

  /** The contents after filing `e`: behind every entry with an equal key. */
  function Filed(cmp: (int, int) -> int, s: seq<Entry>, e: Entry): seq<Entry> {
    var i := UpperIndex(cmp, s, e.k);
    s[..i] + [e] + s[i..]
  }

  lemma FiledSplit(cmp: (int, int) -> int, a: seq<Entry>, e: Entry, b: seq<Entry>)
    requires AllLe(cmp, a, e.k) && AllGreater(cmp, b, e.k)
    ensures Filed(cmp, a + b, e) == a + [e] + b
  {
    UpperIndexSplit(cmp, a, b, e.k);
    assert (a + b)[..|a|] == a && (a + b)[|a|..] == b;
  }

  /** A new key keeps a dictionary free of duplicates exactly when no entry has an equal one. */
  lemma FiledStrict(cmp: (int, int) -> int, s: seq<Entry>, e: Entry)
    requires Preorder(cmp) && Sorted(cmp, s)
    ensures StrictlySorted(cmp, Filed(cmp, s, e)) <==> StrictlySorted(cmp, s) && NoEqual(cmp, s, e.k)
  {
    hide Preorder, Sorted, UpperIndex, StrictlySorted, NoEqual;
    var i := UpperIndex(cmp, s, e.k);
    UpperIndexParts(cmp, s, e.k);
    assert s == s[..i] + s[i..];
    StrictDrop(cmp, s[..i], e, s[i..]);
    if StrictlySorted(cmp, s) && NoEqual(cmp, s, e.k) { StrictAdd(cmp, s[..i], e, s[i..]); }
  }

  lemma StrictDrop(cmp: (int, int) -> int, a: seq<Entry>, e: Entry, b: seq<Entry>)
    requires Preorder(cmp)
    ensures StrictlySorted(cmp, a + [e] + b) ==> StrictlySorted(cmp, a + b) && NoEqual(cmp, a + b, e.k)
  {
    hide Preorder;
    var u, s := a + [e] + b, a + b;
    if StrictlySorted(cmp, u) {
      forall j | 0 <= j < |s|
        ensures cmp(e.k, s[j].k) != 0
      {
        Opposite(cmp, e.k, s[j].k);
        assert u[|a|] == e && s[j] == u[if j < |a| then j else j + 1];
      }
      forall j, k | 0 <= j < k < |s|
        ensures cmp(s[j].k, s[k].k) < 0
      {
        assert s[j] == u[if j < |a| then j else j + 1] && s[k] == u[if k < |a| then k else k + 1];
      }
    }
  }

  lemma StrictAdd(cmp: (int, int) -> int, a: seq<Entry>, e: Entry, b: seq<Entry>)
    requires Preorder(cmp) && StrictlySorted(cmp, a + b) && NoEqual(cmp, a + b, e.k)
    requires AllLe(cmp, a, e.k) && AllGreater(cmp, b, e.k)
    ensures StrictlySorted(cmp, a + [e] + b)
  {
    hide Preorder;
    var u, s := a + [e] + b, a + b;
    forall j, k | 0 <= j < k < |u|
      ensures cmp(u[j].k, u[k].k) < 0
    {
      if j == |a| {
        assert u[k] == b[k - |a| - 1];
      } else if k == |a| {
        Opposite(cmp, e.k, a[j].k);
        assert u[j] == a[j] == s[j];
      } else {
        assert u[j] == s[if j < |a| then j else j - 1] && u[k] == s[if k < |a| then k else k - 1];
      }
    }
  }

  lemma Opposite(cmp: (int, int) -> int, a: int, b: int)
    requires Preorder(cmp)
    ensures cmp(a, b) < 0 <==> cmp(b, a) > 0
    ensures cmp(a, b) > 0 <==> cmp(b, a) < 0
  {
  }

  /** Of a sorted sequence, the entries before the upper index are at most the key, the others greater. */
  lemma {:induction false} UpperIndexParts(cmp: (int, int) -> int, s: seq<Entry>, key: int)
    requires Preorder(cmp) && Sorted(cmp, s)
    ensures var i := UpperIndex(cmp, s, key); AllLe(cmp, s[..i], key) && AllGreater(cmp, s[i..], key)
  {
    hide Preorder;
    if s != [] && cmp(key, s[0].k) >= 0 {
      var i := UpperIndex(cmp, s[1..], key);
      UpperIndexParts(cmp, s[1..], key);
      assert s[..i + 1] == [s[0]] + s[1..][..i] && s[i + 1..] == s[1..][i..];
    } else {
      forall j | 0 < j < |s|
        ensures cmp(key, s[j].k) < 0
      {
        GreaterThrough(cmp, key, s[0].k, s[j].k);
      }
    }
  }

  lemma FiledSorted(cmp: (int, int) -> int, a: seq<Entry>, e: Entry, b: seq<Entry>)
    requires Preorder(cmp) && Sorted(cmp, a + b) && AllLe(cmp, a, e.k) && AllGreater(cmp, b, e.k)
    ensures Sorted(cmp, a + [e] + b)
  {
    var s, u := a + b, a + [e] + b;
    forall i, j | 0 <= i < j < |u|
      ensures cmp(u[i].k, u[j].k) <= 0
    {
      if i == |a| {
        assert u[j] == b[j - |a| - 1];
      } else if j == |a| {
        assert u[i] == a[i];
      } else {
        assert u[i] == s[if i < |a| then i else i - 1] && u[j] == s[if j < |a| then j else j - 1];
      }
    }
  }

  lemma InsertedContents(cmp: (int, int) -> int, x: Ctx, node: Ref, key: int)
    requires Preorder(cmp) && Sorted(cmp, Contents(x, Leaf))
    requires AllLe(cmp, Before(x), key) && AllGreater(cmp, After(x), key)
    ensures var s := Contents(x, Node(Leaf, node, Red, key, Leaf));
      Sorted(cmp, s) && s == Filed(cmp, Contents(x, Leaf), Entry(node, key)) && |s| == |Contents(x, Leaf)| + 1
  {
    var t := Node(Leaf, node, Red, key, Leaf);
    PlugInorder(x, Leaf);
    PlugInorder(x, t);
    assert Inorder(t) == [Entry(node, key)];
    assert Contents(x, Leaf) == Before(x) + After(x);
    FiledSplit(cmp, Before(x), Entry(node, key), After(x));
    FiledSorted(cmp, Before(x), Entry(node, key), After(x));
  }

  lemma {:induction false} WithoutIndex(s: seq<Entry>, n: Ref) returns (i: nat)
    ensures i <= |s|
    ensures Without(s, n) == if i < |s| then s[..i] + s[i + 1..] else s
  {
    if s == [] {
      i := 0;
    } else if s[0].n == n {
      i := 0;
    } else {
      var j := WithoutIndex(s[1..], n);
      i := j + 1;
      assert s == [s[0]] + s[1..];
      if i < |s| { assert s[1..][..j] == s[1..i] && s[1..][j + 1..] == s[i + 1..]; }
    }
  }

  /** If the comparison is an order, everything before the path is less and everything behind it greater. */
  lemma {:induction false} PathOrder(cmp: (int, int) -> int, x: Ctx, t: Tree, key: int)
    requires Preorder(cmp) && Sorted(cmp, Contents(x, t)) && OnPath(cmp, x, key)
    ensures AllLess(cmp, Before(x), key) && AllGreater(cmp, After(x), key)
    decreases x
  {
    hide Preorder, Sorted, AllLess, AllGreater;
    if x.Top? {
      PathTop(cmp, key);
    } else {
      PathOrder(cmp, x.up, Lift(x, t), key);
      DescendStrict(cmp, key, x.up, Lift(x, t));
    }
  }

  lemma PathTop(cmp: (int, int) -> int, key: int)
    ensures AllLess(cmp, Before(Top), key) && AllGreater(cmp, After(Top), key)
  {
  }

  lemma GraftedLength(x: Ctx, node: Ref, key: int)
    ensures |Contents(x, Node(Leaf, node, Red, key, Leaf))| == |Contents(x, Leaf)| + 1
  {
    PlugInorder(x, Leaf);
    PlugInorder(x, Node(Leaf, node, Red, key, Leaf));
  }

  /** If the comparison is an order, the hole lies behind everything not greater and before everything greater. */
  lemma {:induction false} HoleOrder(cmp: (int, int) -> int, x: Ctx, t: Tree, key: int)
    requires Preorder(cmp) && Sorted(cmp, Contents(x, t)) && AllLe(cmp, Before(x), key) && AllGreater(cmp, After(x), key)
    ensures var y := Hole(cmp, x, t, key);
      Plug(y, Leaf) == Plug(x, t) && AllLe(cmp, Before(y), key) && AllGreater(cmp, After(y), key)
    decreases t
  {
    hide Preorder, Sorted, AllLe, AllGreater;
    if t.Node? {
      Descend(cmp, key, x, t);
      if cmp(key, t.k) < 0 {
        HoleOrder(cmp, InLeft(x, t.n, t.c, t.k, t.r), t.l, key);
      } else {
        HoleOrder(cmp, InRight(x, t.l, t.n, t.c, t.k), t.r, key);
      }
    }
  }

  lemma HoleIs(cmp: (int, int) -> int, t: Tree, key: int)
    requires Preorder(cmp) && Sorted(cmp, Inorder(t))
    ensures var y := Hole(cmp, Top, t, key);
      Plug(y, Leaf) == t && AllLe(cmp, Before(y), key) && AllGreater(cmp, After(y), key)
  {
    HoleOrder(cmp, Top, t, key);
  }

  lemma OwnedWithout(s: seq<Entry>, n: Ref, nil: Ref)
    ensures Owned(Without(s, n), nil) <= Owned(s, nil)
  {
    WithoutMembers(s, n);
  }

  lemma {:induction false} WithoutMembers(s: seq<Entry>, n: Ref)
    ensures forall e | e in Without(s, n) :: e in s
  {
    if s != [] { WithoutMembers(s[1..], n); }
  }

  lemma WithoutSorted(cmp: (int, int) -> int, s: seq<Entry>, n: Ref)
    requires Sorted(cmp, s)
    ensures Sorted(cmp, Without(s, n))
  {
    var i := WithoutIndex(s, n);
  }

  // ----- the cells -----

  class Heap {
    var left: seq<Ref>
    var right: seq<Ref>
    var parent: seq<Ref>
    var color: seq<Color>
    var key: seq<int>

    ghost function View(): Mem
      reads this
    {
      Mem(left, right, parent, color, key)
    }

    constructor (cells: nat)
      ensures forall n | 0 <= n < cells :: View().Has(n)
    {
      left, right, parent := seq(cells, _ => NULL), seq(cells, _ => NULL), seq(cells, _ => NULL);
      color, key := seq(cells, _ => Red), seq(cells, _ => 0);
    }

    /** A new cell, behind all others. */
    method Alloc() returns (n: Ref)
      modifies this
      ensures Grown(old(View()), View()) && n == |left| - 1
      ensures View().Has(n) && !old(View()).Has(n)
    {
      n := |left|;
      if |right| > n { n := |right|; }
      if |parent| > n { n := |parent|; }
      if |color| > n { n := |color|; }
      if |key| > n { n := |key|; }
      left := left + seq(n + 1 - |left|, _ => NULL);
      right := right + seq(n + 1 - |right|, _ => NULL);
      parent := parent + seq(n + 1 - |parent|, _ => NULL);
      color := color + seq(n + 1 - |color|, _ => Red);
      key := key + seq(n + 1 - |key|, _ => 0);
    }

    /** The given node and its right child change places; keys stay in order. */
    method RotateLeft(upper: Ref, ghost m0: Mem, ghost own: set<Ref>)
      requires CanRotL(View(), upper)
      requires Framed(m0, View(), own) && {upper, right[upper], left[right[upper]], parent[upper]} <= own
      modifies this
      ensures View() == RotLMem(old(View()), upper) && Framed(m0, View(), own)
    {
      var lower := right[upper];
      var lowleft := left[lower];
      right := right[upper := lowleft];
      parent := parent[lowleft := upper];
      var upparent := parent[upper];
      parent := parent[lower := upparent];
      if upper == left[upparent] {
        left := left[upparent := lower];
      } else {
        right := right[upparent := lower];
      }
      left := left[lower := upper];
      parent := parent[upper := lower];
    }

    method RotateRight(upper: Ref, ghost m0: Mem, ghost own: set<Ref>)
      requires CanRotR(View(), upper)
      requires Framed(m0, View(), own) && {upper, left[upper], right[left[upper]], parent[upper]} <= own
      modifies this
      ensures View() == RotRMem(old(View()), upper) && Framed(m0, View(), own)
    {
      var lower := left[upper];
      var lowright := right[lower];
      left := left[upper := lowright];
      parent := parent[lowright := upper];
      var upparent := parent[upper];
      parent := parent[lower := upparent];
      if upper == right[upparent] {
        right := right[upparent := lower];
      } else {
        left := left[upparent := lower];
      }
      right := right[lower := upper];
      parent := parent[upper := lower];
    }

    /** Makes `node` a red leaf below `par`. */
    method Hang(par: Ref, asLeft: bool, node: Ref, key': int, nil: Ref, ghost m0: Mem, ghost own: set<Ref>)
      requires View().Has(par) && View().Has(node)
      requires Framed(m0, View(), own) && {par, node} <= own
      modifies this
      ensures View() == GraftMem(old(View()), par, asLeft, node, key', nil) && Framed(m0, View(), own)
    {
      key := key[node := key'];
      if asLeft {
        left := left[par := node];
      } else {
        right := right[par := node];
      }
      parent := parent[node := par];
      left := left[node := nil];
      right := right[node := nil];
      color := color[node := Red];
    }

    /** The inner loop of dict_first and dict_next: down to the leftmost node below `start`. */
    method Leftmost(start: Ref, nil: Ref, ghost x: Ctx, ghost t: Tree) returns (r: Ref, ghost y: Ctx, ghost s: Tree)
      requires t.Node? && start == t.n && InPlace(View(), x, t, t.n, nil)
      ensures Plug(y, s) == t && LeftSpine(y) && s.Node? && s.l.Leaf? && r == s.n && r != nil
      ensures AheadOf(View(), Compose(x, y), s, nil)
    {
      hide InPlace, AheadOf;
      r, y, s := start, Top, t;
      DownLeft(View(), x, t, nil);
      while left[r] != nil
        invariant s.Node? && r == s.n && InPlace(View(), Compose(x, y), s, s.n, nil) && View().Has(r)
        invariant Plug(y, s) == t && LeftSpine(y)
        decreases s
      {
        DownLeft(View(), Compose(x, y), s, nil);
        r := left[r];
        y, s := InLeft(y, s.n, s.c, s.k, s.r), s.l;
        DownLeft(View(), Compose(x, y), s, nil);
      }
      DownLeft(View(), Compose(x, y), s, nil);
    }

    /** dict_next, from any place the walk can reach. */
    method Next(curr: Ref, nil: Ref, ghost x: Ctx, ghost t: Tree)
      returns (r: Ref, ghost y: Ctx, ghost x': Ctx, ghost s: Tree)
      requires AheadOf(View(), x, t, nil) && curr == t.n
      ensures Rest(x, t) == [] <==> r == NULL
      ensures r != NULL ==> AheadOf(View(), x', s, nil) && r == s.n && Rest(x, t) == [Entry(s.n, s.k)] + Rest(x', s)
      ensures t.r.Node? ==>
        && Plug(y, s) == t.r && LeftSpine(y) && s.Node? && s.l.Leaf? && r == s.n
        && x' == Compose(InRight(x, t.l, t.n, t.c, t.k), y)
      ensures r != NULL ==> AheadCells(x', s) <= AheadCells(x, t)
    {
      y, x', s := Top, x, t;
      if right[curr] != nil {
        DownRight(View(), x, t, nil);
        ghost var x1 := InRight(x, t.l, t.n, t.c, t.k);
        r, y, s := Leftmost(right[curr], nil, x1, t.r);
        LeftmostFirst(x1, y, t.r, s);
        LeftmostCells(x1, y, t.r, s);
        x' := Compose(x1, y);
        return;
      }
      var c, par := curr, parent[curr];
      while par != nil && c == right[par]
        invariant AheadCtx(View(), x', c, nil) && par == Par(x', nil) && After(x') == After(x)
        invariant par != nil ==> View().Has(par)
        invariant PathCells(x') <= PathCells(x)
        decreases x'
      {
        c := par;
        x' := x'.up;
        par := parent[c];
      }
      if par == nil {
        r := NULL;
      } else {
        r, s, x' := par, Node(Leaf, x'.n, x'.c, x'.k, x'.r), x'.up;
      }
    }

    /** Moves `child` into the place of `del`. */
    method Splice(del: Ref, child: Ref, ghost m0: Mem, ghost own: set<Ref>)
      requires CanSplice(View(), del, child) && child != del
      requires Framed(m0, View(), own) && {child, parent[del]} <= own
      modifies this
      ensures View() == SpliceMem(old(View()), del, child) && Framed(m0, View(), own)
      ensures color == old(color) && parent == old(parent[child := parent[del]])
    {
      var q := parent[del];
      parent := parent[child := q];
      if left[q] == del {
        left := left[q := child];
      } else {
        right := right[q := child];
      }
    }

    /** Puts `next` where `del` is, and exchanges their colours. */
    method Replace(del: Ref, next: Ref, delparent: Ref, ghost m0: Mem, ghost own: set<Ref>)
      requires CanReplace(View(), del, next) && del != next && delparent == parent[del]
      requires Framed(m0, View(), own) && {del, next, parent[del], left[del], right[del]} <= own
      modifies this
      ensures View() == ReplaceMem(old(View()), del, next) && Framed(m0, View(), own)
      ensures color == old(color[next := color[del]][del := color[next]])
    {
      var nextcolor := color[next];
      parent := parent[next := delparent];
      left := left[next := left[del]];
      right := right[next := right[del]];
      parent := parent[left[next] := next];
      parent := parent[right[next] := next];
      color := color[next := color[del]];
      color := color[del := nextcolor];
      if left[delparent] == del {
        left := left[delparent := next];
      } else {
        right := right[delparent := next];
      }
    }

    method Unlink(del: Ref, ghost m0: Mem, ghost own: set<Ref>)
      requires View().Has(del)
      requires Framed(m0, View(), own) && del in own
      modifies this
      ensures View() == UnlinkMem(old(View()), del) && Framed(m0, View(), own)
    {
      parent := parent[del := NULL];
      right := right[del := NULL];
      left := left[del := NULL];
    }

    method SetColor(n: Ref, c: Color, ghost m0: Mem, ghost own: set<Ref>)
      requires View().Has(n)
      requires Framed(m0, View(), own) && n in own
      modifies this
      ensures View() == PaintMem(old(View()), n, c) && Framed(m0, View(), own)
    {
      color := color[n := c];
    }
  }

  class Dict {
    const heap: Heap
    const nil: Ref
    const compare: (int, int) -> int
    var dupes: bool
    var nodecount: nat
    ghost var tree: Tree

    /** What holds whatever the comparison does: a red-black tree in the cells, black sentinel, right count. */
    ghost predicate Linked()
      reads this, heap
    {
      && Good(heap.View(), Top, tree, nil)
      && NilBlack(heap.View(), nil)
      && (tree.Leaf? ==> heap.parent[nil] == nil)
      && RedBlack(tree) && nodecount == Size(tree)
    }

    /** What dict_verify checks, except for the absence of duplicates. */
    ghost predicate Valid()
      reads this, heap
    {
      Linked() && Preorder(compare) && Sorted(compare, Inorder(tree))
    }

    /** dict_init, on a cell set aside for the sentinel. */
    constructor (heap: Heap, nil: Ref, compare: (int, int) -> int)
      requires heap.View().Has(nil)
      modifies heap
      ensures this.heap == heap && this.nil == nil && this.compare == compare
      ensures Linked() && (Preorder(compare) ==> Valid()) && tree == Leaf && !dupes
      ensures Framed(old(heap.View()), heap.View(), {nil})
    {
      this.heap, this.nil, this.compare := heap, nil, compare;
      dupes, nodecount, tree := false, 0, Leaf;
      new;
      heap.left := heap.left[nil := nil];
      heap.right := heap.right[nil := nil];
      heap.parent := heap.parent[nil := nil];
      heap.color := heap.color[nil := Black];
    }

    // ----- dict_insert -----

    /** Red parent and red uncle: all three are recoloured and the climb goes on from the grandparent. */
    method RaiseRed(par: Ref, uncle: Ref, grandpa: Ref, ghost y: Ctx, ghost p: Tree, ghost m0: Mem, ghost own: set<Ref>)
      requires Good(heap.View(), y, p, nil) && RisingParent(y, p) && !IsBlack(Uncle(y))
      requires par == p.n && uncle == Uncle(y).n && grandpa == y.n
      requires NilBlack(heap.View(), nil)
      requires Framed(m0, heap.View(), own) && Owned(Contents(y, p), nil) <= own
      modifies heap
      ensures Framed(m0, heap.View(), own)
      ensures Good(heap.View(), y.up, Recolored(y, p), nil)
      ensures Rising(y.up, Recolored(y, p)) && Contents(y.up, Recolored(y, p)) == Contents(y, p)
      ensures NilBlack(heap.View(), nil)
    {
      hide Good, Framed, Owned;
      LiftGood(heap.View(), y, p, nil);
      LiftContents(y, p);
      Reach(heap.View(), y.up, Lift(y, p), nil, own);
      RecolorGood(heap.View(), y, p, nil);
      heap.SetColor(par, Black, m0, own);
      heap.SetColor(uncle, Black, m0, own);
      heap.SetColor(grandpa, Red, m0, own);
    }

    /** Black uncle, red pair on the outside: the grandparent is rotated right and the climb ends. */
    method SettleLeft(top: Ref, grandpa: Ref, ghost y: Ctx, ghost p: Tree, ghost m0: Mem, ghost own: set<Ref>)
      requires Good(heap.View(), y, p, nil) && RisingParent(y, p) && y.InLeft?
      requires IsBlack(Uncle(y)) && IsBlack(p.r) && top == p.n && grandpa == y.n
      requires NilBlack(heap.View(), nil)
      requires Framed(m0, heap.View(), own) && Owned(Contents(y, p), nil) <= own
      modifies heap
      ensures Framed(m0, heap.View(), own)
      ensures Good(heap.View(), y.up, RotR(Poised(y, p)), nil)
      ensures Settled(y.up, RotR(Poised(y, p)))
      ensures Contents(y.up, RotR(Poised(y, p))) == Contents(y, p)
      ensures NilBlack(heap.View(), nil)
    {
      hide Good, Framed, Owned;
      LiftGood(heap.View(), y, p, nil);
      LiftContents(y, p);
      Reach(heap.View(), y.up, Lift(y, p), nil, own);
      PoisedGood(heap.View(), y, p, nil);
      heap.SetColor(top, Black, m0, own);
      heap.SetColor(grandpa, Red, m0, own);
      OuterLeftGood(heap.View(), y, p, nil);
      Reach(heap.View(), y.up, Poised(y, p), nil, own);
      heap.RotateRight(grandpa, m0, own);
    }

    /** Red parent on its grandparent's left side. */
    method RaiseLeft(node: Ref, par: Ref, grandpa: Ref, ghost x: Ctx, ghost t: Tree, ghost m0: Mem, ghost own: set<Ref>)
      returns (climb: bool, ghost t': Tree)
      requires Good(heap.View(), x, t, nil) && Rising(x, t) && !x.Top? && x.c.Red? && x.up.InLeft?
      requires NilBlack(heap.View(), nil)
      requires node == t.n && par == x.n && grandpa == x.up.n
      requires Framed(m0, heap.View(), own) && Owned(Contents(x, t), nil) <= own
      modifies heap
      ensures Framed(m0, heap.View(), own)
      ensures Good(heap.View(), x.up.up, t', nil) && Contents(x.up.up, t') == Contents(x, t)
      ensures NilBlack(heap.View(), nil)
      ensures if climb then Rising(x.up.up, t') && t'.n == grandpa else Settled(x.up.up, t')
      ensures Climbed(x, t) == if climb then Climbed(x.up.up, t') else Paint(Plug(x.up.up, t'), Black)
    {
      hide Climbed, Good, Framed, Owned;
      ghost var y, p := x.up, Lift(x, t);
      ClimbedStep(x, t);
      RisingRed(x, t);
      LiftGood(heap.View(), x, t, nil);
      LiftContents(x, t);
      Look(heap.View(), y, p, nil);
      Look(heap.View(), x, t, nil);
      var uncle := heap.right[grandpa];
      if heap.color[uncle] == Red {
        climb, t' := true, Recolored(y, p);
        RaiseRed(par, uncle, grandpa, y, p, m0, own);
      } else if node == heap.right[par] {
        InnerLeftGood(heap.View(), y, p, nil);
        Reach(heap.View(), y, p, nil, own);
        heap.RotateLeft(par, m0, own);
        climb, t' := false, RotR(Poised(y, RotL(p)));
        SettleLeft(node, grandpa, y, RotL(p), m0, own);
      } else {
        climb, t' := false, RotR(Poised(y, p));
        SettleLeft(par, grandpa, y, p, m0, own);
      }
    }

    /** Black uncle, red pair on the outside: the grandparent is rotated left and the climb ends. */
    method SettleRight(top: Ref, grandpa: Ref, ghost y: Ctx, ghost p: Tree, ghost m0: Mem, ghost own: set<Ref>)
      requires Good(heap.View(), y, p, nil) && RisingParent(y, p) && y.InRight?
      requires IsBlack(Uncle(y)) && IsBlack(p.l) && top == p.n && grandpa == y.n
      requires NilBlack(heap.View(), nil)
      requires Framed(m0, heap.View(), own) && Owned(Contents(y, p), nil) <= own
      modifies heap
      ensures Framed(m0, heap.View(), own)
      ensures Good(heap.View(), y.up, RotL(Poised(y, p)), nil)
      ensures Settled(y.up, RotL(Poised(y, p)))
      ensures Contents(y.up, RotL(Poised(y, p))) == Contents(y, p)
      ensures NilBlack(heap.View(), nil)
    {
      hide Good, Framed, Owned;
      LiftGood(heap.View(), y, p, nil);
      LiftContents(y, p);
      Reach(heap.View(), y.up, Lift(y, p), nil, own);
      PoisedGood(heap.View(), y, p, nil);
      heap.SetColor(top, Black, m0, own);
      heap.SetColor(grandpa, Red, m0, own);
      OuterRightGood(heap.View(), y, p, nil);
      Reach(heap.View(), y.up, Poised(y, p), nil, own);
      heap.RotateLeft(grandpa, m0, own);
    }

    /** Red parent on its grandparent's right side (the mirror image). */
    method RaiseRight(node: Ref, par: Ref, grandpa: Ref, ghost x: Ctx, ghost t: Tree, ghost m0: Mem, ghost own: set<Ref>)
      returns (climb: bool, ghost t': Tree)
      requires Good(heap.View(), x, t, nil) && Rising(x, t) && !x.Top? && x.c.Red? && x.up.InRight?
      requires NilBlack(heap.View(), nil)
      requires node == t.n && par == x.n && grandpa == x.up.n
      requires Framed(m0, heap.View(), own) && Owned(Contents(x, t), nil) <= own
      modifies heap
      ensures Framed(m0, heap.View(), own)
      ensures Good(heap.View(), x.up.up, t', nil) && Contents(x.up.up, t') == Contents(x, t)
      ensures NilBlack(heap.View(), nil)
      ensures if climb then Rising(x.up.up, t') && t'.n == grandpa else Settled(x.up.up, t')
      ensures Climbed(x, t) == if climb then Climbed(x.up.up, t') else Paint(Plug(x.up.up, t'), Black)
    {
      hide Climbed, Good, Framed, Owned;
      ghost var y, p := x.up, Lift(x, t);
      ClimbedStep(x, t);
      RisingRed(x, t);
      LiftGood(heap.View(), x, t, nil);
      LiftContents(x, t);
      Look(heap.View(), y, p, nil);
      Look(heap.View(), x, t, nil);
      var uncle := heap.left[grandpa];
      if heap.color[uncle] == Red {
        climb, t' := true, Recolored(y, p);
        RaiseRed(par, uncle, grandpa, y, p, m0, own);
      } else if node == heap.left[par] {
        InnerRightGood(heap.View(), y, p, nil);
        Reach(heap.View(), y, p, nil, own);
        heap.RotateRight(par, m0, own);
        climb, t' := false, RotL(Poised(y, RotR(p)));
        SettleRight(node, grandpa, y, RotR(p), m0, own);
      } else {
        climb, t' := false, RotL(Poised(y, p));
        SettleRight(par, grandpa, y, p, m0, own);
      }
    }

    /** The recolour-and-rotate climb of dict_insert, from a freshly hung red leaf. */
    method Raise(start: Ref, ghost x0: Ctx, ghost t0: Tree, ghost m0: Mem, ghost own: set<Ref>) returns (ghost x: Ctx, ghost t: Tree)
      requires Good(heap.View(), x0, t0, nil) && Rising(x0, t0) && start == t0.n
      requires NilBlack(heap.View(), nil)
      requires Framed(m0, heap.View(), own) && Owned(Contents(x0, t0), nil) <= own
      modifies heap
      ensures Framed(m0, heap.View(), own)
      ensures Good(heap.View(), x, t, nil) && Settled(x, t) && Contents(x, t) == Contents(x0, t0)
      ensures NilBlack(heap.View(), nil)
      ensures Paint(Plug(x, t), Black) == Climbed(x0, t0)
    {
      hide Climbed, Good, Framed, Owned;
      x, t := x0, t0;
      var node := start;
      LookUp(heap.View(), x, t, nil);
      var par := heap.parent[node];
      while heap.color[par] == Red
        invariant Good(heap.View(), x, t, nil) && Rising(x, t) && node == t.n && par == Par(x, nil)
        invariant NilBlack(heap.View(), nil) && heap.View().Has(par)
        invariant Climbed(x, t) == Climbed(x0, t0)
        invariant Contents(x, t) == Contents(x0, t0) && Framed(m0, heap.View(), own)
        decreases x
      {
        LookUp(heap.View(), x, t, nil);
        RisingRed(x, t);
        LiftGood(heap.View(), x, t, nil);
        Look(heap.View(), x.up, Lift(x, t), nil);
        var grandpa := heap.parent[par];
        var climb: bool;
        if par == heap.left[grandpa] {
          climb, t := RaiseLeft(node, par, grandpa, x, t, m0, own);
        } else {
          climb, t := RaiseRight(node, par, grandpa, x, t, m0, own);
        }
        x := x.up.up;
        if !climb { return; }
        node := grandpa;
        LookUp(heap.View(), x, t, nil);
        par := heap.parent[grandpa];
      }
      LookUp(heap.View(), x, t, nil);
      ClimbedEnds(x, t);
    }

    /** The search loop of dict_insert: the place for `key`, behind all equal keys if the comparison is an order. */
    method FindHole(key: int) returns (par: Ref, result: int, ghost x: Ctx)
      requires Linked()
      ensures Good(heap.View(), x, Leaf, nil) && Plug(x, Leaf) == tree && par == Par(x, nil)
      ensures result < 0 <==> !x.InRight?
      ensures x == Hole(compare, Top, tree, key)
    {
      var where := heap.left[nil];
      par, result, x := nil, -1, Top;
      ghost var t := tree;
      while where != nil
        invariant Good(heap.View(), x, t, nil) && Plug(x, t) == tree
        invariant where == Ptr(t, nil) && par == Par(x, nil)
        invariant result < 0 <==> !x.InRight?
        invariant Hole(compare, x, t, key) == Hole(compare, Top, tree, key)
        decreases t
      {
        LookDown(heap.View(), x, t, nil);
        par := where;
        result := compare(key, heap.key[where]);
        if result < 0 {
          where := heap.left[where];
          ZipLeft(heap.View(), x, t.l, t.n, t.c, t.k, t.r, nil);
          x, t := InLeft(x, t.n, t.c, t.k, t.r), t.l;
        } else {
          where := heap.right[where];
          ZipRight(heap.View(), x, t.l, t.n, t.c, t.k, t.r, nil);
          x, t := InRight(x, t.l, t.n, t.c, t.k), t.r;
        }
      }
    }

    /** dict_insert, whatever the comparison does: the tree it leaves is Inserted. */
    method File(node: Ref, key: int)
      requires Linked() && heap.View().Has(node) && node != nil && node !in Nodes(tree)
      modifies this, heap
      ensures Linked() && nodecount == old(nodecount) + 1 && dupes == old(dupes)
      ensures tree == Inserted(compare, old(tree), node, key)
      ensures Inorder(tree) == Contents(Hole(compare, Top, old(tree), key), Node(Leaf, node, Red, key, Leaf))
      ensures Framed(old(heap.View()), heap.View(), old(Nodes(tree)) + {node, nil})
    {
      hide Good, Framed, Owned, Climbed, Hole;
      ghost var m0, own := heap.View(), Nodes(tree) + {node, nil};
      FramedSelf(m0, own);
      ghost var x: Ctx, t: Tree;
      var par, result;
      par, result, x := FindHole(key);
      CtxNodesPlug(x, Leaf);
      GraftGood(heap.View(), x, node, key, nil);
      heap.Hang(par, result < 0, node, key, nil, m0, own);
      nodecount := nodecount + 1;

      t := Node(Leaf, node, Red, key, Leaf);
      RisingStart(x, node, key);
      OwnedAt(x, t, nil);
      GraftedLength(x, node, key);
      x, t := Raise(node, x, t, m0, own);
      PaintRoot(x, t, m0, own);
      InorderLength(old(tree));
      InorderLength(tree);
    }

    /** Files `node` under `key`, behind every entry with an equal key. */
    method Insert(node: Ref, key: int)
      requires Valid() && heap.View().Has(node) && node != nil && node !in Nodes(tree)
      modifies this, heap
      ensures Valid() && nodecount == old(nodecount) + 1 && dupes == old(dupes)
      ensures Inorder(tree) == Filed(compare, old(Inorder(tree)), Entry(node, key))
      ensures tree == Inserted(compare, old(tree), node, key)
      ensures Framed(old(heap.View()), heap.View(), old(Nodes(tree)) + {node, nil})
    {
      hide Linked, Preorder, Sorted, Framed, Filed, Hole, Inserted;
      HoleIs(compare, tree, key);
      InsertedContents(compare, Hole(compare, Top, tree, key), node, key);
      File(node, key);
    }

    /** The last step of both repairs: the root is painted black. */
    method PaintRoot(ghost x: Ctx, ghost t: Tree, ghost m0: Mem, ghost own: set<Ref>)
      requires Good(heap.View(), x, t, nil) && Settled(x, t) && heap.View().Has(nil)
      requires Framed(m0, heap.View(), own) && Owned(Contents(x, t), nil) <= own
      modifies heap, `tree
      ensures Framed(m0, heap.View(), own)
      ensures Good(heap.View(), Top, tree, nil) && RedBlack(tree) && Inorder(tree) == Contents(x, t)
      ensures NilBlack(heap.View(), nil) == (old(NilBlack(heap.View(), nil)) || tree.Leaf?)
      ensures heap.parent == old(heap.parent) && tree == Paint(Plug(x, t), Black)
    {
      hide Framed, Owned;
      ReachEnds(heap.View(), x, t, nil, own);
      GoodCompose(heap.View(), Top, x, t, nil);
      ComposeTop(x);
      SettledPlug(x, t);
      ghost var u := Plug(x, t);
      PaintContents(Top, u, Black);
      if u.Node? {
        PaintGood(heap.View(), Top, u, Black, nil);
      } else {
        PaintOther(heap.View(), Top, u, nil, Black, nil);
      }
      heap.SetColor(heap.left[nil], Black, m0, own);
      tree := Paint(u, Black);
    }

    // ----- dict_delete -----

    /** Red sister on the right: one rotation gives the short child a black sister. */
    method RedSisterLeft(par: Ref, sister: Ref, ghost x: Ctx, ghost t: Tree, ghost m0: Mem, ghost own: set<Ref>)
      requires Good(heap.View(), x, t, nil) && ShortBody(x, t) && x.InLeft? && x.r.Node? && x.r.c.Red?
      requires par == x.n && sister == x.r.n && NilBlack(heap.View(), nil)
      requires Framed(m0, heap.View(), own) && Owned(Contents(x, t), nil) <= own
      modifies heap
      ensures Framed(m0, heap.View(), own)
      ensures Good(heap.View(), UnderLeft(x), t, nil) && NilBlack(heap.View(), nil)
      ensures ShortBody(UnderLeft(x), t) && x.r.l.Node? && x.r.l.c.Black?
      ensures Contents(UnderLeft(x), t) == Contents(x, t)
    {
      hide Good, ShortBody, Framed, Owned;
      LiftGood(heap.View(), x, t, nil);
      LiftContents(x, t);
      Reach(heap.View(), x.up, Lift(x, t), nil, own);
      RedSisterLeftGood(heap.View(), x, t, nil);
      heap.SetColor(sister, Black, m0, own);
      heap.SetColor(par, Red, m0, own);
      heap.RotateLeft(par, m0, own);
    }

    /** Only the inner nephew is red: a rotation of the sister puts a red nephew on the outside. */
    method TurnLeft(par: Ref, sister: Ref, ghost x: Ctx, ghost t: Tree, ghost m0: Mem, ghost own: set<Ref>) returns (sister': Ref)
      requires Good(heap.View(), x, t, nil) && ShortBody(x, t) && x.InLeft? && x.r.Node? && x.r.c.Black?
      requires !IsBlack(x.r.l) && IsBlack(x.r.r)
      requires par == x.n && sister == x.r.n && NilBlack(heap.View(), nil)
      requires Framed(m0, heap.View(), own) && Owned(Contents(x, t), nil) <= own
      modifies heap
      ensures Framed(m0, heap.View(), own)
      ensures var s := InnerNephewLeft(x.r);
        && Good(heap.View(), x.(r := s), t, nil) && NilBlack(heap.View(), nil) && sister' == s.n
        && s.c.Black? && !IsBlack(s.r) && ShortBody(x.(r := s), t) && Contents(x.(r := s), t) == Contents(x, t)
    {
      hide Good, ShortBody, Framed, Owned;
      LookSisterLeft(heap.View(), x, t, nil);
      AcrossLeftGood(heap.View(), x, t, nil);
      AcrossContents(x, t);
      Reach(heap.View(), AcrossLeft(x, t), x.r, nil, own);
      TurnInnerLeftGood(heap.View(), x, t, nil);
      heap.SetColor(heap.left[sister], Black, m0, own);
      heap.SetColor(sister, Red, m0, own);
      heap.RotateRight(sister, m0, own);
      LookSisterLeft(heap.View(), x.(r := InnerNephewLeft(x.r)), t, nil);
      sister' := heap.right[par];
    }

    /** Outer nephew red: one rotation of the parent pays for the missing black node. */
    method PayLeft(par: Ref, sister: Ref, ghost x: Ctx, ghost t: Tree, ghost m0: Mem, ghost own: set<Ref>)
      requires Good(heap.View(), x, t, nil) && ShortBody(x, t) && x.InLeft? && x.r.Node? && x.r.c.Black?
      requires !IsBlack(x.r.r) && par == x.n && sister == x.r.n && NilBlack(heap.View(), nil)
      requires Framed(m0, heap.View(), own) && Owned(Contents(x, t), nil) <= own
      modifies heap
      ensures Framed(m0, heap.View(), own)
      ensures var t' := RotL(PaidLeft(x, t));
        && Good(heap.View(), x.up, t', nil) && NilBlack(heap.View(), nil) && Shows(heap.View(), t, nil)
        && Settled(x.up, t') && Contents(x.up, t') == Contents(x, t)
    {
      hide Good, ShortBody, Settled, Framed, Owned;
      LookSisterLeft(heap.View(), x, t, nil);
      LiftGood(heap.View(), x, t, nil);
      LiftContents(x, t);
      Reach(heap.View(), x.up, Lift(x, t), nil, own);
      OuterNephewLeftGood(heap.View(), x, t, nil);
      heap.SetColor(sister, heap.color[par], m0, own);
      heap.SetColor(heap.right[sister], Black, m0, own);
      heap.SetColor(par, Black, m0, own);
      heap.RotateLeft(par, m0, own);
    }

    /** Both nephews black: the sister turns red, and the parent is short now. */
    method BlackNephewsLeft(par: Ref, sister: Ref, ghost x: Ctx, ghost t: Tree, ghost m0: Mem, ghost own: set<Ref>)
      returns (ghost t': Tree)
      requires Good(heap.View(), x, t, nil) && ShortBody(x, t) && x.InLeft? && x.r.Node? && x.r.c.Black?
      requires IsBlack(x.r.l) && IsBlack(x.r.r) && par == x.n && sister == x.r.n && NilBlack(heap.View(), nil)
      requires Framed(m0, heap.View(), own) && Owned(Contents(x, t), nil) <= own
      modifies heap
      ensures Framed(m0, heap.View(), own) && Good(heap.View(), x.up, t', nil) && NilBlack(heap.View(), nil)
      ensures Short(x.up, t') && t'.Node? && t'.n == par && t'.c == x.c && Contents(x.up, t') == Contents(x, t)
    {
      hide Good, ShortBody, Short, Framed, Owned;
      LookSisterLeft(heap.View(), x, t, nil);
      LiftGood(heap.View(), x, t, nil);
      LiftContents(x, t);
      Reach(heap.View(), x.up, Lift(x, t), nil, own);
      BlackNephewsLeftGood(heap.View(), x, t, nil);
      heap.SetColor(sister, Red, m0, own);
      t' := Node(t, x.n, x.c, x.k, Paint(x.r, Red));
    }

    /** A red nephew: it is turned to the outside if it is not there, and pays. */
    method RedNephewLeft(par: Ref, sister0: Ref, ghost x: Ctx, ghost t: Tree, ghost m0: Mem, ghost own: set<Ref>)
      returns (ghost t': Tree)
      requires Good(heap.View(), x, t, nil) && ShortBody(x, t) && x.InLeft? && x.r.Node? && x.r.c.Black?
      requires !(IsBlack(x.r.l) && IsBlack(x.r.r)) && par == x.n && sister0 == x.r.n && NilBlack(heap.View(), nil)
      requires Framed(m0, heap.View(), own) && Owned(Contents(x, t), nil) <= own
      modifies heap
      ensures Framed(m0, heap.View(), own) && Good(heap.View(), x.up, t', nil) && NilBlack(heap.View(), nil)
      ensures Settled(x.up, t') && Shows(heap.View(), t, nil) && Contents(x.up, t') == Contents(x, t)
    {
      hide Good, ShortBody, Settled, Framed, Owned;
      LookSisterLeft(heap.View(), x, t, nil);
      var sister := sister0;
      ghost var y := x;
      if heap.color[heap.right[sister]] == Black {
        sister := TurnLeft(par, sister, y, t, m0, own);
        y := y.(r := InnerNephewLeft(y.r));
      }
      PayLeft(par, sister, y, t, m0, own);
      t' := RotL(PaidLeft(y, t));
    }

    /** One round of the loop with the short child on the left. */
    method MendLeft(par: Ref, ghost x: Ctx, ghost t: Tree, ghost m0: Mem, ghost own: set<Ref>) returns (climb: bool, ghost x': Ctx, ghost t': Tree)
      requires Good(heap.View(), x, t, nil) && ShortBody(x, t) && x.InLeft? && x.r.Node?
      requires par == x.n && NilBlack(heap.View(), nil)
      requires Framed(m0, heap.View(), own) && Owned(Contents(x, t), nil) <= own
      modifies heap
      ensures Framed(m0, heap.View(), own)
      ensures Good(heap.View(), x', t', nil) && NilBlack(heap.View(), nil) && Contents(x', t') == Contents(x, t)
      ensures climb ==> Short(x', t') && t'.Node? && t'.n == par && (x' == x.up || !IsBlack(t'))
      ensures !climb ==> Settled(x', t') && Shows(heap.View(), t, nil)
    {
      hide Good, ShortBody, Settled, Short, Framed, Owned;
      LookSisterLeft(heap.View(), x, t, nil);
      ghost var y := x;
      var sister := heap.right[par];
      if heap.color[sister] == Red {
        RedSisterLeft(par, sister, x, t, m0, own);
        y := UnderLeft(x);
        LookSisterLeft(heap.View(), y, t, nil);
        sister := heap.right[par];
      }
      LookSisterLeft(heap.View(), y, t, nil);
      x' := y.up;
      if heap.color[heap.left[sister]] == Black && heap.color[heap.right[sister]] == Black {
        climb := true;
        t' := BlackNephewsLeft(par, sister, y, t, m0, own);
      } else {
        climb := false;
        t' := RedNephewLeft(par, sister, y, t, m0, own);
      }
    }

    /** Red sister on the left: one rotation gives the short child a black sister. */
    method RedSisterRight(par: Ref, sister: Ref, ghost x: Ctx, ghost t: Tree, ghost m0: Mem, ghost own: set<Ref>)
      requires Good(heap.View(), x, t, nil) && ShortBody(x, t) && x.InRight? && x.l.Node? && x.l.c.Red?
      requires par == x.n && sister == x.l.n && NilBlack(heap.View(), nil)
      requires Framed(m0, heap.View(), own) && Owned(Contents(x, t), nil) <= own
      modifies heap
      ensures Framed(m0, heap.View(), own)
      ensures Good(heap.View(), UnderRight(x), t, nil) && NilBlack(heap.View(), nil)
      ensures ShortBody(UnderRight(x), t) && x.l.r.Node? && x.l.r.c.Black?
      ensures Contents(UnderRight(x), t) == Contents(x, t)
    {
      hide Good, ShortBody, Framed, Owned;
      LiftGood(heap.View(), x, t, nil);
      LiftContents(x, t);
      Reach(heap.View(), x.up, Lift(x, t), nil, own);
      RedSisterRightGood(heap.View(), x, t, nil);
      heap.SetColor(sister, Black, m0, own);
      heap.SetColor(par, Red, m0, own);
      heap.RotateRight(par, m0, own);
    }

    /** Only the inner nephew is red: a rotation of the sister puts a red nephew on the outside. */
    method TurnRight(par: Ref, sister: Ref, ghost x: Ctx, ghost t: Tree, ghost m0: Mem, ghost own: set<Ref>) returns (sister': Ref)
      requires Good(heap.View(), x, t, nil) && ShortBody(x, t) && x.InRight? && x.l.Node? && x.l.c.Black?
      requires !IsBlack(x.l.r) && IsBlack(x.l.l)
      requires par == x.n && sister == x.l.n && NilBlack(heap.View(), nil)
      requires Framed(m0, heap.View(), own) && Owned(Contents(x, t), nil) <= own
      modifies heap
      ensures Framed(m0, heap.View(), own)
      ensures var s := InnerNephewRight(x.l);
        && Good(heap.View(), x.(l := s), t, nil) && NilBlack(heap.View(), nil) && sister' == s.n
        && s.c.Black? && !IsBlack(s.l) && ShortBody(x.(l := s), t) && Contents(x.(l := s), t) == Contents(x, t)
    {
      hide Good, ShortBody, Framed, Owned;
      LookSisterRight(heap.View(), x, t, nil);
      AcrossRightGood(heap.View(), x, t, nil);
      AcrossContents(x, t);
      Reach(heap.View(), AcrossRight(x, t), x.l, nil, own);
      TurnInnerRightGood(heap.View(), x, t, nil);
      heap.SetColor(heap.right[sister], Black, m0, own);
      heap.SetColor(sister, Red, m0, own);
      heap.RotateLeft(sister, m0, own);
      LookSisterRight(heap.View(), x.(l := InnerNephewRight(x.l)), t, nil);
      sister' := heap.left[par];
    }

    /** Outer nephew red: one rotation of the parent pays for the missing black node. */
    method PayRight(par: Ref, sister: Ref, ghost x: Ctx, ghost t: Tree, ghost m0: Mem, ghost own: set<Ref>)
      requires Good(heap.View(), x, t, nil) && ShortBody(x, t) && x.InRight? && x.l.Node? && x.l.c.Black?
      requires !IsBlack(x.l.l) && par == x.n && sister == x.l.n && NilBlack(heap.View(), nil)
      requires Framed(m0, heap.View(), own) && Owned(Contents(x, t), nil) <= own
      modifies heap
      ensures Framed(m0, heap.View(), own)
      ensures var t' := RotR(PaidRight(x, t));
        && Good(heap.View(), x.up, t', nil) && NilBlack(heap.View(), nil) && Shows(heap.View(), t, nil)
        && Settled(x.up, t') && Contents(x.up, t') == Contents(x, t)
    {
      hide Good, ShortBody, Settled, Framed, Owned;
      LookSisterRight(heap.View(), x, t, nil);
      LiftGood(heap.View(), x, t, nil);
      LiftContents(x, t);
      Reach(heap.View(), x.up, Lift(x, t), nil, own);
      OuterNephewRightGood(heap.View(), x, t, nil);
      heap.SetColor(sister, heap.color[par], m0, own);
      heap.SetColor(heap.left[sister], Black, m0, own);
      heap.SetColor(par, Black, m0, own);
      heap.RotateRight(par, m0, own);
    }

    /** Both nephews black: the sister turns red, and the parent is short now. */
    method BlackNephewsRight(par: Ref, sister: Ref, ghost x: Ctx, ghost t: Tree, ghost m0: Mem, ghost own: set<Ref>)
      returns (ghost t': Tree)
      requires Good(heap.View(), x, t, nil) && ShortBody(x, t) && x.InRight? && x.l.Node? && x.l.c.Black?
      requires IsBlack(x.l.l) && IsBlack(x.l.r) && par == x.n && sister == x.l.n && NilBlack(heap.View(), nil)
      requires Framed(m0, heap.View(), own) && Owned(Contents(x, t), nil) <= own
      modifies heap
      ensures Framed(m0, heap.View(), own) && Good(heap.View(), x.up, t', nil) && NilBlack(heap.View(), nil)
      ensures Short(x.up, t') && t'.Node? && t'.n == par && t'.c == x.c && Contents(x.up, t') == Contents(x, t)
    {
      hide Good, ShortBody, Short, Framed, Owned;
      LookSisterRight(heap.View(), x, t, nil);
      LiftGood(heap.View(), x, t, nil);
      LiftContents(x, t);
      Reach(heap.View(), x.up, Lift(x, t), nil, own);
      BlackNephewsRightGood(heap.View(), x, t, nil);
      heap.SetColor(sister, Red, m0, own);
      t' := Node(Paint(x.l, Red), x.n, x.c, x.k, t);
    }

    /** A red nephew: it is turned to the outside if it is not there, and pays. */
    method RedNephewRight(par: Ref, sister0: Ref, ghost x: Ctx, ghost t: Tree, ghost m0: Mem, ghost own: set<Ref>)
      returns (ghost t': Tree)
      requires Good(heap.View(), x, t, nil) && ShortBody(x, t) && x.InRight? && x.l.Node? && x.l.c.Black?
      requires !(IsBlack(x.l.l) && IsBlack(x.l.r)) && par == x.n && sister0 == x.l.n && NilBlack(heap.View(), nil)
      requires Framed(m0, heap.View(), own) && Owned(Contents(x, t), nil) <= own
      modifies heap
      ensures Framed(m0, heap.View(), own) && Good(heap.View(), x.up, t', nil) && NilBlack(heap.View(), nil)
      ensures Settled(x.up, t') && Shows(heap.View(), t, nil) && Contents(x.up, t') == Contents(x, t)
    {
      hide Good, ShortBody, Settled, Framed, Owned;
      LookSisterRight(heap.View(), x, t, nil);
      var sister := sister0;
      ghost var y := x;
      if heap.color[heap.left[sister]] == Black {
        sister := TurnRight(par, sister, y, t, m0, own);
        y := y.(l := InnerNephewRight(y.l));
      }
      PayRight(par, sister, y, t, m0, own);
      t' := RotR(PaidRight(y, t));
    }

    /** One round of the loop with the short child on the right. */
    method MendRight(par: Ref, ghost x: Ctx, ghost t: Tree, ghost m0: Mem, ghost own: set<Ref>) returns (climb: bool, ghost x': Ctx, ghost t': Tree)
      requires Good(heap.View(), x, t, nil) && ShortBody(x, t) && x.InRight? && x.l.Node?
      requires par == x.n && NilBlack(heap.View(), nil)
      requires Framed(m0, heap.View(), own) && Owned(Contents(x, t), nil) <= own
      modifies heap
      ensures Framed(m0, heap.View(), own)
      ensures Good(heap.View(), x', t', nil) && NilBlack(heap.View(), nil) && Contents(x', t') == Contents(x, t)
      ensures climb ==> Short(x', t') && t'.Node? && t'.n == par && (x' == x.up || !IsBlack(t'))
      ensures !climb ==> Settled(x', t') && Shows(heap.View(), t, nil)
    {
      hide Good, ShortBody, Settled, Short, Framed, Owned;
      LookSisterRight(heap.View(), x, t, nil);
      ghost var y := x;
      var sister := heap.left[par];
      if heap.color[sister] == Red {
        RedSisterRight(par, sister, x, t, m0, own);
        y := UnderRight(x);
        LookSisterRight(heap.View(), y, t, nil);
        sister := heap.left[par];
      }
      LookSisterRight(heap.View(), y, t, nil);
      x' := y.up;
      if heap.color[heap.right[sister]] == Black && heap.color[heap.left[sister]] == Black {
        climb := true;
        t' := BlackNephewsRight(par, sister, y, t, m0, own);
      } else {
        climb := false;
        t' := RedNephewRight(par, sister, y, t, m0, own);
      }
    }

    /** In the one case where the tree has become empty, the sentinel itself is the red root. */
    ghost predicate RootRed(x: Ctx, t: Tree)
      reads heap
    {
      heap.View().Has(nil) && heap.color[nil] == if x.Top? && t.Leaf? then Red else Black
    }

    /** The repair loop of dict_delete, from the child that took the place of a black node. */
    method Mend(start: Ref, ghost x0: Ctx, ghost t0: Tree, ghost m0: Mem, ghost own: set<Ref>) returns (ghost x: Ctx, ghost t: Tree)
      requires Good(heap.View(), x0, t0, nil) && Short(x0, t0) && start == Ptr(t0, nil) && RootRed(x0, t0)
      requires t0.Leaf? ==> heap.parent[nil] == Par(x0, nil)
      requires Framed(m0, heap.View(), own) && Owned(Contents(x0, t0), nil) <= own
      modifies heap
      ensures Framed(m0, heap.View(), own)
      ensures Good(heap.View(), x, t, nil) && Settled(x, t) && Contents(x, t) == Contents(x0, t0)
      ensures NilBlack(heap.View(), nil)
      ensures x0.Top? && t0.Leaf? ==> heap.parent == old(heap.parent)
    {
      hide Good, Short, Settled, Framed, Owned;
      x, t := x0, t0;
      var child := start;
      MendHead(heap.View(), x, t, nil);
      while heap.color[child] == Black
        invariant Good(heap.View(), x, t, nil) && Short(x, t) && child == Ptr(t, nil) && RootRed(x, t)
        invariant heap.View().Has(child) && heap.parent[child] == Par(x, nil)
        invariant heap.color[child] == Black <==> IsBlack(t) && !x.Top?
        invariant Contents(x, t) == Contents(x0, t0) && Framed(m0, heap.View(), own)
        invariant x0.Top? && t0.Leaf? ==> x.Top? && t.Leaf? && heap.parent == old(heap.parent)
        decreases if IsBlack(t) then 1 + Depth(x) else 0
      {
        ShortEnter(x, t);
        ReachEnds(heap.View(), x, t, nil, own);
        SisterSides(heap.View(), x, t, nil);
        var par := heap.parent[child];
        var climb: bool;
        ghost var x', t';
        if child == heap.left[par] {
          climb, x', t' := MendLeft(par, x, t, m0, own);
        } else {
          climb, x', t' := MendRight(par, x, t, m0, own);
        }
        if !climb {
          assert heap.color == heap.color[child := Black];
          heap.SetColor(child, Black, m0, own);
          x, t := x', t';
          return;
        }
        child, x, t := par, x', t';
        MendHead(heap.View(), x, t, nil);
      }
      Blacken(child, x, t, m0, own);
      t := Paint(t, Black);
    }

    /** The loop has met a red node: it turns black, which is what was missing. */
    method Blacken(child: Ref, ghost x: Ctx, ghost t: Tree, ghost m0: Mem, ghost own: set<Ref>)
      requires Good(heap.View(), x, t, nil) && Short(x, t) && (IsBlack(t) ==> x.Top?)
      requires child == Ptr(t, nil) && RootRed(x, t)
      requires Framed(m0, heap.View(), own) && Owned(Contents(x, t), nil) <= own
      modifies heap
      ensures Framed(m0, heap.View(), own)
      ensures Good(heap.View(), x, Paint(t, Black), nil) && Settled(x, Paint(t, Black))
      ensures Contents(x, Paint(t, Black)) == Contents(x, t)
      ensures NilBlack(heap.View(), nil) && heap.parent == old(heap.parent)
    {
      hide Good, Settled, Framed, Owned;
      ShortStop(x, t);
      ReachEnds(heap.View(), x, t, nil, own);
      PaintContents(x, t, Black);
      NilOutside(heap.View(), x, t, nil);
      if t.Node? {
        PaintGood(heap.View(), x, t, Black, nil);
      } else {
        PaintOther(heap.View(), x, t, nil, Black, nil);
      }
      heap.SetColor(child, Black, m0, own);
    }

    /** What is left after the node has been taken out, before any repair. */
    ghost predicate Taken(del: Ref, child: Ref, x: Ctx, s: Tree)
      reads this, heap
    {
      && Good(heap.View(), x, s, nil) && NilBlack(heap.View(), nil) && child == Ptr(s, nil)
      && heap.View().Has(child) && heap.parent[child] == Par(x, nil)
      && heap.View().Has(del) && del != nil && del !in Nodes(s) && del !in CtxNodes(x)
      && Cut(x, s, heap.color[del])
    }

    /** A node with at most one child: that child moves up. */
    method TakeSingle(del: Ref, ghost x: Ctx, ghost t: Tree, ghost m0: Mem, ghost own: set<Ref>) returns (child: Ref)
      requires Good(heap.View(), x, t, nil) && t.Node? && del == t.n && (t.l.Leaf? || t.r.Leaf?)
      requires RedBlack(Plug(x, t)) && NilBlack(heap.View(), nil)
      requires Framed(m0, heap.View(), own) && Owned(Contents(x, t), nil) <= own
      modifies heap
      ensures Framed(m0, heap.View(), own)
      ensures Taken(del, child, x, OnlyChild(t))
      ensures Contents(x, OnlyChild(t)) == Without(Contents(x, t), del)
      ensures |Contents(x, OnlyChild(t))| == |Contents(x, t)| - 1
    {
      hide Cut, Good, Contents, RedBlack, Framed, Owned;
      GoodSeparate(heap.View(), x, t, nil);
      SingleCut(x, t, nil);
      LookDown(heap.View(), x, t, nil);
      Reach(heap.View(), x, t, nil, own);
      SpliceGood(heap.View(), x, t, nil);
      child := if heap.left[del] != nil then heap.left[del] else heap.right[del];
      heap.Splice(del, child, m0, own);
    }

    /** A node with two children: its successor takes its place. */
    method TakePair(del: Ref, ghost x: Ctx, ghost t: Tree, ghost m0: Mem, ghost own: set<Ref>) returns (child: Ref, ghost x': Ctx, ghost s: Tree)
      requires Good(heap.View(), x, t, nil) && t.Node? && del == t.n && t.l.Node? && t.r.Node?
      requires RedBlack(Plug(x, t)) && NilBlack(heap.View(), nil)
      requires Framed(m0, heap.View(), own) && Owned(Contents(x, t), nil) <= own
      modifies heap
      ensures Framed(m0, heap.View(), own)
      ensures Taken(del, child, x', s)
      ensures Contents(x', s) == Without(Contents(x, t), del) && |Contents(x', s)| == |Contents(x, t)| - 1
    {
      hide Cut, Good, AheadOf, Separate, Contents, RedBlack, SpliceMem, ReplaceMem;
      hide Framed, Owned, Nodes, CtxNodes, Plug, Compose, LeftSpine, Rest, Without;
      GoodAhead(heap.View(), x, t, nil);
      GoodSeparate(heap.View(), x, t, nil);
      LookDown(heap.View(), x, t, nil);
      var delparent := heap.parent[del];
      var next; ghost var y, z, u;
      next, y, z, u := heap.Next(del, nil, x, t);
      PairCut(x, t, y, u, nil);
      SuccessorOut(heap.View(), x, t, y, u, nil);
      NextRight(heap.View(), x, t, y, u, nil);
      PairReach(heap.View(), x, t, y, u, nil, own);
      child := heap.right[next];
      heap.Splice(next, child, m0, own);
      SuccessorIn(heap.View(), x, t, y, u, nil);
      ReachIn(heap.View(), x, Node(t.l, t.n, t.c, t.k, Plug(y, u.r)), nil, own);
      heap.Replace(del, next, delparent, m0, own);
      x', s := Below(x, t, u.n, u.k, y), u.r;
    }

    /** The first half of dict_delete: the node leaves the tree and its pointers are cleared. */
    method TakeOut(del: Ref, ghost x0: Ctx, ghost t: Tree, ghost m0: Mem, ghost own: set<Ref>) returns (child: Ref, ghost x: Ctx, ghost s: Tree)
      requires Good(heap.View(), x0, t, nil) && t.Node? && del == t.n
      requires RedBlack(Plug(x0, t)) && NilBlack(heap.View(), nil)
      requires Framed(m0, heap.View(), own) && Owned(Contents(x0, t), nil) <= own
      modifies heap
      ensures Framed(m0, heap.View(), own)
      ensures Taken(del, child, x, s)
      ensures Contents(x, s) == Without(Contents(x0, t), del) && |Contents(x, s)| == |Contents(x0, t)| - 1
    {
      hide Good, Cut, RedBlack, Without, Contents, OnlyChild, Framed, Owned;
      Reach(heap.View(), x0, t, nil, own);
      LookDown(heap.View(), x0, t, nil);
      x := x0;
      if heap.left[del] != nil && heap.right[del] != nil {
        child, x, s := TakePair(del, x0, t, m0, own);
      } else {
        child := TakeSingle(del, x0, t, m0, own);
        s := OnlyChild(t);
      }
      UnlinkGood(heap.View(), x, s, del, nil);
      heap.Unlink(del, m0, own);
    }

    /** The root turns red for the time of the repair loop, so that the loop stops there. */
    method ReddenRoot(ghost x: Ctx, ghost s: Tree, ghost m0: Mem, ghost own: set<Ref>) returns (ghost x': Ctx, ghost s': Tree)
      requires Good(heap.View(), x, s, nil) && NilBlack(heap.View(), nil) && Cut(x, s, Black)
      requires Framed(m0, heap.View(), own) && Owned(Contents(x, s), nil) <= own
      modifies heap
      ensures Framed(m0, heap.View(), own)
      ensures Good(heap.View(), x', s', nil) && Short(x', s') && RootRed(x', s')
      ensures Contents(x', s') == Contents(x, s) && heap.parent == old(heap.parent)
      ensures Ptr(s', nil) == Ptr(s, nil) && Par(x', nil) == Par(x, nil)
      ensures x'.Top? && s'.Leaf? <==> x.Top? && s.Leaf?
    {
      hide Good, Cut, Short, Framed, Owned;
      CutBlack(x, s);
      ReachEnds(heap.View(), x, s, nil, own);
      RedRootGood(heap.View(), x, s, nil);
      heap.SetColor(heap.left[nil], Red, m0, own);
      x', s' := if x.Top? then Top else PaintTop(x, Red), if x.Top? then Paint(s, Red) else s;
    }

    /** The second half of dict_delete: repair if the removed colour was black. */
    method Close(del: Ref, child: Ref, ghost x0: Ctx, ghost s0: Tree, ghost m0: Mem, ghost own: set<Ref>)
      requires Taken(del, child, x0, s0)
      requires Framed(m0, heap.View(), own) && Owned(Contents(x0, s0), nil) <= own
      modifies heap, `tree
      ensures Framed(m0, heap.View(), own)
      ensures Good(heap.View(), Top, tree, nil) && NilBlack(heap.View(), nil) && RedBlack(tree)
      ensures tree.Leaf? ==> heap.parent[nil] == nil
      ensures Inorder(tree) == Contents(x0, s0)
    {
      hide Good, Cut, RedBlack, Settled, Short, Framed, Owned;
      ghost var x, s := x0, s0;
      if Contents(x, s) == [] { EmptyContents(x, s); }
      if heap.color[del] == Black {
        x, s := ReddenRoot(x, s, m0, own);
        x, s := Mend(child, x, s, m0, own);
        PaintRoot(x, s, m0, own);
      } else {
        CutRed(x, s);
        CutRedTop(x, s);
        GoodCompose(heap.View(), Top, x, s, nil);
        ComposeTop(x);
        PlugRoot(x, s);
        tree := Plug(x, s);
      }
    }

    /** Takes `del` out of the dictionary; every other entry keeps its node, key and place in the order. */
    method Delete(del: Ref) returns (r: Ref)
      requires Valid() && del in Nodes(tree)
      modifies this, heap
      ensures Valid() && r == del && nodecount == old(nodecount) - 1 && dupes == old(dupes)
      ensures Inorder(tree) == Without(old(Inorder(tree)), del)
      ensures Framed(old(heap.View()), heap.View(), old(Nodes(tree)) + {nil})
    {
      hide Good, Cut, RedBlack, Sorted, Preorder, Without, Framed, Owned;
      ghost var m0, own := heap.View(), Nodes(tree) + {nil};
      FramedSelf(m0, own);
      OwnedNodes(tree, nil);
      ghost var x, t := Locate(tree, del);
      InorderLength(tree);
      WithoutSorted(compare, Inorder(tree), del);
      GoodCompose(heap.View(), Top, x, t, nil);
      ComposeTop(x);
      var child;
      ghost var s;
      child, x, s := TakeOut(del, x, t, m0, own);
      nodecount := nodecount - 1;
      OwnedWithout(old(Inorder(tree)), del, nil);
      Close(del, child, x, s, m0, own);
      InorderLength(tree);
      r := del;
    }

    /** The searches stop at the first match unless duplicates are allowed. */
    ghost predicate Exact()
      reads this
    {
      dupes || StrictlySorted(compare, Inorder(tree))
    }

    // ----- dict_lookup, dict_lower_bound, dict_upper_bound -----

    /** The part of dict_lookup that runs when duplicates are allowed: from one match to the leftmost. */
    method LeftmostEqual(key: int, found: Ref, ghost x0: Ctx, ghost t0: Tree) returns (saved: Ref, ghost i: int)
      requires Valid() && Good(heap.View(), x0, t0, nil) && Plug(x0, t0) == tree
      requires t0.Node? && found == t0.n && compare(key, t0.k) == 0 && AllLess(compare, Before(x0), key)
      ensures FirstEqual(compare, Inorder(tree), key, i) && Inorder(tree)[i].n == saved && saved != NULL
    {
      hide Good, Preorder, Sorted, AllLess;
      ghost var x, t := x0, t0;
      var root := found;
      while true
        invariant Good(heap.View(), x, t, nil) && Plug(x, t) == tree && t.Node? && root == t.n
        invariant compare(key, t.k) == 0 && AllLess(compare, Before(x), key)
        decreases t
      {
        ReadFocus(heap.View(), x, t, nil);
        saved := root;
        root := heap.left[root];
        ghost var y := InLeft(x, t.n, t.c, t.k, t.r);
        ghost var u := t.l;
        LiftGood(heap.View(), y, u, nil);
        ReadFocus(heap.View(), y, u, nil);
        while root != nil && compare(key, heap.key[root]) != 0
          invariant Good(heap.View(), y, u, nil) && Plug(y, u) == tree && root == Ptr(u, nil)
          invariant AllLess(compare, Before(y), key) && After(y) == [Entry(t.n, t.k)] + Inorder(t.r) + After(x)
          invariant root == nil <==> u.Leaf?
          invariant u.Node? ==> heap.View().Has(root) && heap.key[root] == u.k
          invariant t decreases to u
          decreases u
        {
          NotAbove(compare, key, y, u);
          DescendStrict(compare, key, y, u);
          ReadFocus(heap.View(), y, u, nil);
          root := heap.right[root];
          y, u := InRight(y, u.l, u.n, u.c, u.k), u.r;
          LiftGood(heap.View(), y, u, nil);
          ReadFocus(heap.View(), y, u, nil);
        }
        if root == nil {
          HoleIndex(compare, key, y);
          i := |Before(y)|;
          return;
        }
        x, t := y, u;
      }
    }

    /** The search loop of dict_lookup, whatever the comparison does: the first match on the way down, or NULL. */
    method Seek(key: int) returns (r: Ref, ghost x: Ctx, ghost t: Tree)
      requires Linked()
      ensures r == Search(compare, tree, key)
      ensures Good(heap.View(), x, t, nil) && Plug(x, t) == tree && OnPath(compare, x, key)
      ensures if r == NULL then t.Leaf? else t.Node? && r == t.n && compare(key, t.k) == 0
    {
      hide Good;
      x, t := Top, tree;
      ReadTop(heap.View(), tree, nil);
      var root := heap.left[nil];
      ReadFocus(heap.View(), x, t, nil);
      while root != nil
        invariant Good(heap.View(), x, t, nil) && Plug(x, t) == tree && root == Ptr(t, nil)
        invariant root == nil <==> t.Leaf?
        invariant OnPath(compare, x, key) && Search(compare, t, key) == Search(compare, tree, key)
        decreases t
      {
        ReadFocus(heap.View(), x, t, nil);
        var result := compare(key, heap.key[root]);
        if result < 0 {
          root := heap.left[root];
          x, t := InLeft(x, t.n, t.c, t.k, t.r), t.l;
        } else if result > 0 {
          root := heap.right[root];
          x, t := InRight(x, t.l, t.n, t.c, t.k), t.r;
        } else {
          r := root;
          return;
        }
        LiftGood(heap.View(), x, t, nil);
        ReadFocus(heap.View(), x, t, nil);
      }
      r := NULL;
    }

    /** A node with an equal key, or NULL; the first of them if duplicates are allowed. */
    method Lookup(key: int) returns (r: Ref)
      requires Valid()
      ensures r == NULL ==> NoEqual(compare, Inorder(tree), key)
      ensures r != NULL ==> exists i :: Hit(compare, Inorder(tree), key, r, i)
      ensures r != NULL && Exact() ==>
        exists i :: FirstEqual(compare, Inorder(tree), key, i) && Inorder(tree)[i].n == r
      ensures !dupes ==> r == Search(compare, tree, key)
    {
      hide Good, Preorder, Sorted, StrictlySorted, AllLess, AllGreater, OnPath, Search;
      ghost var x, t;
      r, x, t := Seek(key);
      PathOrder(compare, x, t, key);
      if r == NULL {
        HoleNone(compare, key, x);
      } else {
        FocusIndex(compare, key, x, t);
        ghost var i := |Before(x) + Inorder(t.l)|;
        assert Hit(compare, Inorder(tree), key, r, i);
        if dupes {
          r, i := LeftmostEqual(key, r, x, t);
          assert Hit(compare, Inorder(tree), key, r, i);
        }
      }
    }

    /** The first entry not below `key` (any equal one if duplicates are not allowed), or NULL. */
    method LowerBound(key: int) returns (tentative: Ref)
      requires Valid()
      ensures tentative == NULL ==> AllLess(compare, Inorder(tree), key)
      ensures tentative != NULL ==> exists i :: LowerAt(compare, Inorder(tree), key, tentative, i, Exact())
    {
      hide Good, Preorder, Sorted, StrictlySorted;
      ghost var x, t := Top, tree;
      var root := heap.left[nil];
      tentative := NULL;
      ReadTop(heap.View(), tree, nil);
      ReadFocus(heap.View(), x, t, nil);
      while root != nil
        invariant Good(heap.View(), x, t, nil) && Plug(x, t) == tree && root == Ptr(t, nil)
        invariant root == nil <==> t.Leaf?
        invariant AllLess(compare, Before(x), key)
        invariant tentative == NULL <==> After(x) == []
        invariant After(x) != [] ==> After(x)[0].n == tentative && compare(key, After(x)[0].k) <= 0
        decreases t
      {
        ReadFocus(heap.View(), x, t, nil);
        DescendStrict(compare, key, x, t);
        var result := compare(key, heap.key[root]);
        if result > 0 {
          root := heap.right[root];
          x, t := InRight(x, t.l, t.n, t.c, t.k), t.r;
        } else if result == 0 && !dupes {
          FocusIndex(compare, key, x, t);
          assert LowerAt(compare, Inorder(tree), key, root, |Before(x) + Inorder(t.l)|, Exact());
          return root;
        } else {
          tentative := root;
          root := heap.left[root];
          x, t := InLeft(x, t.n, t.c, t.k, t.r), t.l;
        }
        LiftGood(heap.View(), x, t, nil);
        ReadFocus(heap.View(), x, t, nil);
      }
      HoleSplit(x);
      assert tentative != NULL ==> LowerAt(compare, Inorder(tree), key, tentative, |Before(x)|, Exact());
    }

    /** The last entry not above `key` (any equal one if duplicates are not allowed), or NULL. */
    method UpperBound(key: int) returns (tentative: Ref)
      requires Valid()
      ensures tentative == NULL ==> AllGreater(compare, Inorder(tree), key)
      ensures tentative != NULL ==> exists i :: UpperAt(compare, Inorder(tree), key, tentative, i, Exact())
    {
      hide Good, Preorder, Sorted, StrictlySorted, Inorder, AllGreater, AllLess, Trailing, UpperAt;
      ghost var x, t := Top, tree;
      var root := heap.left[nil];
      tentative := NULL;
      ReadTop(heap.View(), tree, nil);
      ReadFocus(heap.View(), x, t, nil);
      TrailingNone(compare, key);
      while root != nil
        invariant Good(heap.View(), x, t, nil) && Plug(x, t) == tree && root == Ptr(t, nil)
        invariant root == nil <==> t.Leaf?
        invariant AllGreater(compare, After(x), key) && Trailing(compare, Before(x), key, tentative)
        decreases t
      {
        ReadFocus(heap.View(), x, t, nil);
        DescendStrict(compare, key, x, t);
        var result := compare(key, heap.key[root]);
        if result < 0 {
          root := heap.left[root];
          x, t := InLeft(x, t.n, t.c, t.k, t.r), t.l;
        } else if result == 0 && !dupes {
          FocusUpper(compare, key, x, t, Exact());
          return root;
        } else {
          TrailingStep(compare, key, x, t);
          tentative := root;
          root := heap.right[root];
          x, t := InRight(x, t.l, t.n, t.c, t.k), t.r;
        }
        LiftGood(heap.View(), x, t, nil);
        ReadFocus(heap.View(), x, t, nil);
      }
      HoleUpper(compare, key, x, tentative, Exact());
    }

    // ----- dict_first, dict_next -----

    /** The lowest entry, or NULL. */
    method First() returns (r: Ref, ghost x: Ctx, ghost t: Tree)
      requires Good(heap.View(), Top, tree, nil)
      ensures r == NULL <==> Inorder(tree) == []
      ensures r != NULL ==> AheadOf(heap.View(), x, t, nil) && r == t.n
      ensures r != NULL ==> Inorder(tree) == [Entry(t.n, t.k)] + Rest(x, t) && AheadCells(x, t) <= Nodes(tree)
    {
      hide Good, Preorder, Sorted, AheadOf;
      x, t := Top, tree;
      ReadTop(heap.View(), tree, nil);
      var root := heap.left[nil];
      ReadFocus(heap.View(), Top, tree, nil);
      if root == nil { return NULL, Top, tree; }
      GoodAhead(heap.View(), Top, tree, nil);
      r, x, t := heap.Leftmost(root, nil, Top, tree);
      LeftmostFirst(Top, x, tree, t);
      LeftmostCells(Top, x, tree, t);
      ComposeTop(x);
      AheadAddress(heap.View(), x, t, nil);
    }

    /** dict_process: first and next together visit every entry once, in order. */
    method Process() returns (visited: seq<Ref>)
      requires Linked()
      ensures |visited| == nodecount == |Inorder(tree)|
      ensures forall i | 0 <= i < |visited| :: visited[i] == Inorder(tree)[i].n
    {
      hide Good, Preorder, Sorted, Rest;
      InorderLength(tree);
      ghost var x, t, y;
      var node;
      node, x, t := First();
      visited := [];
      ghost var rest := Inorder(tree);
      while node != NULL
        invariant rest == [] <==> node == NULL
        invariant node != NULL ==> t.Node? && AheadOf(heap.View(), x, t, nil) && node == t.n && rest == [Entry(t.n, t.k)] + Rest(x, t)
        invariant |visited| + |rest| == |Inorder(tree)| && Inorder(tree)[|visited|..] == rest
        invariant forall i | 0 <= i < |visited| :: visited[i] == Inorder(tree)[i].n
        decreases |rest|
      {
        visited := visited + [node];
        rest := rest[1..];
        node, y, x, t := heap.Next(node, nil, x, t);
      }
    }
  }
}
