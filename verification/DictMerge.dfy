/**
 * dict_load_next and dict_merge: two dictionaries are threaded into one sorted
 * list while they are still being walked, and the list is then loaded.
 */
module DictMerge {
  import opened RedBlackTree
  import opened NodeStore
  import opened Rebalance
  import opened DictRepair
  import opened DictWalk
  import opened DictLoad
  import opened BulkLoad
  import D = Dict

  // ----- dict_load_next -----

  /** The list is threaded, and the load sentinel's right pointer names its last node. */
  ghost predicate Threaded(m: Mem, nil: Ref, loadnil: Ref, list: seq<Ref>) {
    && Listed(m, nil, loadnil, list)
    && m.right[loadnil] == if list == [] then loadnil else list[|list| - 1]
  }

  function LoadNextMem(m: Mem, loadnil: Ref, node: Ref, key: int): Mem
    requires m.Has(loadnil) && m.Has(node) && m.Has(m.right[loadnil])
  {
    m.(key := m.key[node := key], left := m.left[m.right[loadnil] := node][node := loadnil],
       right := m.right[loadnil := node])
  }

  lemma {:induction false} ChainExtend(left: seq<Ref>, left': seq<Ref>, p: Ref, list: seq<Ref>, end: Ref, n: Ref)
    requires Chain(left, p, list, end) && list != [] && NoRepeats(list) && n !in list && end !in list
    requires |left'| == |left| && 0 <= n < |left| && left'[n] == end
    requires 0 <= list[|list| - 1] < |left| && left'[list[|list| - 1]] == n
    requires forall i | 0 <= i < |left| && i != n && i != list[|list| - 1] :: left'[i] == left[i]
    ensures Chain(left', p, list + [n], end)
    decreases list
  {
    var rest := (list + [n])[1..];
    if |list| == 1 {
      assert rest == [n] && rest[1..] == [];
    } else {
      assert rest == list[1..] + [n];
      ChainExtend(left, left', left[p], list[1..], end, n);
    }
  }

  /** Appending to the threaded list touches only its old last node, the new node and the load sentinel. */
  lemma LoadNextThreaded(m: Mem, nil: Ref, loadnil: Ref, list: seq<Ref>, node: Ref, key: int)
    requires Threaded(m, nil, loadnil, list)
    requires m.Has(node) && node !in list && node != nil && node != loadnil && nil != loadnil
    ensures m.Has(m.right[loadnil])
    ensures Threaded(LoadNextMem(m, loadnil, node, key), nil, loadnil, list + [node])
  {
    var last := m.right[loadnil];
    var m', list' := LoadNextMem(m, loadnil, node, key), list + [node];
    assert Members(m', list', nil, loadnil) && NoRepeats(list');
    if list == [] {
      assert list' == [node] && list'[1..] == [];
      assert Chain(m'.left, loadnil, [], loadnil) && Chain(m'.left, node, [node], loadnil);
    } else {
      assert last == list[|list| - 1];
      ChainExtend(m.left, m'.left, m.left[loadnil], list, loadnil, node);
    }
  }

  /** dict_load_next. */
  method LoadNext(d: D.Dict, loadnil: Ref, node: Ref, key: int, ghost list: seq<Ref>, ghost m0: Mem, ghost own: set<Ref>)
    requires Threaded(d.heap.View(), d.nil, loadnil, list)
    requires d.heap.View().Has(node) && node !in list && node != d.nil && node != loadnil && d.nil != loadnil
    requires Framed(m0, d.heap.View(), own) && loadnil in own && node in own && (set n | n in list) <= own
    modifies d`nodecount, d.heap
    ensures Framed(m0, d.heap.View(), own)
    ensures Threaded(d.heap.View(), d.nil, loadnil, list + [node]) && d.nodecount == old(d.nodecount) + 1
    ensures old(d.heap.View().Has(d.heap.right[loadnil]))
    ensures d.heap.View() == LoadNextMem(old(d.heap.View()), loadnil, node, key)
  {
    hide Threaded, Framed;
    LoadNextThreaded(d.heap.View(), d.nil, loadnil, list, node, key);
    TailIsCell(d.heap.View(), d.nil, loadnil, list);
    LoadNextFramed(m0, d.heap.View(), loadnil, node, key, own);
    d.heap.key := d.heap.key[node := key];
    d.heap.left := d.heap.left[d.heap.right[loadnil] := node];
    d.heap.right := d.heap.right[loadnil := node];
    d.heap.left := d.heap.left[node := loadnil];
    d.nodecount := d.nodecount + 1;
  }

  lemma TailIsCell(m: Mem, nil: Ref, loadnil: Ref, list: seq<Ref>)
    requires Threaded(m, nil, loadnil, list)
    ensures m.Has(loadnil) && m.Has(m.right[loadnil]) && (m.right[loadnil] == loadnil || m.right[loadnil] in list)
  {
  }

  // ----- the merged order -----

  /** On equal keys the source's entry comes first. */
  function Merged(cmp: (int, int) -> int, a: seq<Entry>, b: seq<Entry>): seq<Entry> {
    if a == [] then b
    else if b == [] then a
    else if cmp(a[0].k, b[0].k) < 0 then [a[0]] + Merged(cmp, a[1..], b)
    else [b[0]] + Merged(cmp, a, b[1..])
  }

  /** Each entry of either side exactly once. */
  lemma {:induction false} MergedContents(cmp: (int, int) -> int, a: seq<Entry>, b: seq<Entry>)
    ensures multiset(Merged(cmp, a, b)) == multiset(a) + multiset(b)
  {
    if a == [] || b == [] {
    } else if cmp(a[0].k, b[0].k) < 0 {
      MergedContents(cmp, a[1..], b);
      assert a == [a[0]] + a[1..];
    } else {
      MergedContents(cmp, a, b[1..]);
      assert b == [b[0]] + b[1..];
    }
  }

  lemma {:induction false} MergedSorted(cmp: (int, int) -> int, a: seq<Entry>, b: seq<Entry>)
    requires D.Preorder(cmp) && D.Sorted(cmp, a) && D.Sorted(cmp, b)
    ensures D.Sorted(cmp, Merged(cmp, a, b))
  {
    if a == [] || b == [] {
    } else if cmp(a[0].k, b[0].k) < 0 {
      MergedSorted(cmp, a[1..], b);
      HeadSorted(cmp, a[0], Merged(cmp, a[1..], b), a[1..], b);
    } else {
      MergedSorted(cmp, a, b[1..]);
      HeadSorted(cmp, b[0], Merged(cmp, a, b[1..]), a, b[1..]);
    }
  }

  ghost predicate NoCommon(cmp: (int, int) -> int, a: seq<Entry>, b: seq<Entry>) {
    forall x, y | x in a && y in b :: cmp(x.k, y.k) != 0
  }

  /** The merge has no equal keys exactly when neither side has any and no key is on both sides. */
  lemma {:induction false} MergedStrict(cmp: (int, int) -> int, a: seq<Entry>, b: seq<Entry>)
    requires D.Preorder(cmp) && D.Sorted(cmp, a) && D.Sorted(cmp, b)
    ensures D.StrictlySorted(cmp, Merged(cmp, a, b)) <==>
            D.StrictlySorted(cmp, a) && D.StrictlySorted(cmp, b) && NoCommon(cmp, a, b)
    decreases |a| + |b|
  {
    hide D.Preorder, D.Sorted, D.StrictlySorted;
    if a == [] || b == [] {
      StrictNone(cmp);
    } else if cmp(a[0].k, b[0].k) < 0 {
      TailSorted(cmp, a);
      MergedStrict(cmp, a[1..], b);
      StrictHead(cmp, a[0], Merged(cmp, a[1..], b));
      StrictHead(cmp, a[0], a[1..]);
      MergedMembers(cmp, a[1..], b);
      AllAbove(cmp, a[0].k, b);
      assert a == [a[0]] + a[1..];
    } else {
      TailSorted(cmp, b);
      MergedStrict(cmp, a, b[1..]);
      StrictHead(cmp, b[0], Merged(cmp, a, b[1..]));
      StrictHead(cmp, b[0], b[1..]);
      MergedMembers(cmp, a, b[1..]);
      NoneBelow(cmp, b[0].k, a);
      assert b == [b[0]] + b[1..];
    }
  }

  lemma StrictNone(cmp: (int, int) -> int)
    ensures D.StrictlySorted(cmp, [])
  {
  }

  lemma TailSorted(cmp: (int, int) -> int, s: seq<Entry>)
    requires D.Sorted(cmp, s) && s != []
    ensures D.Sorted(cmp, s[1..])
  {
  }

  lemma MergedMembers(cmp: (int, int) -> int, a: seq<Entry>, b: seq<Entry>)
    ensures forall x :: x in Merged(cmp, a, b) <==> x in a || x in b
  {
    MergedContents(cmp, a, b);
    forall x
      ensures x in Merged(cmp, a, b) <==> x in a || x in b
    {
      assert x in Merged(cmp, a, b) <==> x in multiset(Merged(cmp, a, b));
    }
  }

  lemma StrictHead(cmp: (int, int) -> int, e: Entry, s: seq<Entry>)
    ensures D.StrictlySorted(cmp, [e] + s) <==> D.StrictlySorted(cmp, s) && forall x | x in s :: cmp(e.k, x.k) < 0
  {
    var u := [e] + s;
    if D.StrictlySorted(cmp, u) {
      forall i, j | 0 <= i < j < |s|
        ensures cmp(s[i].k, s[j].k) < 0
      {
        assert u[i + 1] == s[i] && u[j + 1] == s[j];
      }
      forall x | x in s
        ensures cmp(e.k, x.k) < 0
      {
        var i :| 0 <= i < |s| && s[i] == x;
        assert u[0] == e && u[i + 1] == x;
      }
    }
  }

  /** A key below the first of a sorted sequence is below all of it. */
  lemma AllAbove(cmp: (int, int) -> int, key: int, s: seq<Entry>)
    requires D.Preorder(cmp) && D.Sorted(cmp, s) && s != [] && cmp(key, s[0].k) < 0
    ensures forall x | x in s :: cmp(key, x.k) < 0
  {
    hide D.Preorder;
    forall x | x in s
      ensures cmp(key, x.k) < 0
    {
      var i :| 0 <= i < |s| && s[i] == x;
      if i > 0 { D.GreaterThrough(cmp, key, s[0].k, x.k); }
    }
  }

  /** If it is not above the first, then being below all of it is being equal to none. */
  lemma NoneBelow(cmp: (int, int) -> int, key: int, s: seq<Entry>)
    requires D.Preorder(cmp) && D.Sorted(cmp, s) && s != [] && cmp(s[0].k, key) >= 0
    ensures (forall x | x in s :: cmp(key, x.k) < 0) <==> forall x | x in s :: cmp(x.k, key) != 0
  {
    forall x | x in s
      ensures cmp(key, x.k) < 0 <==> cmp(x.k, key) != 0
    {
      var i :| 0 <= i < |s| && s[i] == x;
      assert cmp(key, s[0].k) <= 0 && (i > 0 ==> cmp(s[0].k, x.k) <= 0);
      assert cmp(key, x.k) <= 0;
    }
  }

  lemma HeadSorted(cmp: (int, int) -> int, e: Entry, s: seq<Entry>, a: seq<Entry>, b: seq<Entry>)
    requires D.Preorder(cmp) && D.Sorted(cmp, a) && D.Sorted(cmp, b) && D.Sorted(cmp, s) && s == Merged(cmp, a, b)
    requires (a != [] ==> cmp(e.k, a[0].k) <= 0) && (b != [] ==> cmp(e.k, b[0].k) <= 0)
    ensures D.Sorted(cmp, [e] + s)
  {
    var u := [e] + s;
    if s != [] { assert cmp(e.k, s[0].k) <= 0; }
    forall i, j | 0 <= i < j < |u|
      ensures cmp(u[i].k, u[j].k) <= 0
    {
      if i > 0 {
        assert u[i] == s[i - 1] && u[j] == s[j - 1];
      } else if j > 1 {
        assert cmp(s[0].k, s[j - 1].k) <= 0;
      }
    }
  }

  // ----- dict_merge -----

  /** `node` is the next of the entries `rest` of the dictionary with sentinel `nil`. */
  ghost predicate Walk(m: Mem, node: Ref, x: Ctx, t: Tree, nil: Ref, rest: seq<Entry>, loadnil: Ref) {
    if node == NULL then rest == []
    else
      && t.Node? && node == t.n && AheadOf(m, x, t, nil) && loadnil !in AheadCells(x, t)
      && rest == [Entry(t.n, t.k)] + Rest(x, t)
  }

  /** The entries' cells exist, hold the right keys, and are not sentinels of the load. */
  ghost predicate Stock(m: Mem, rest: seq<Entry>, nil: Ref, loadnil: Ref) {
    forall i | 0 <= i < |rest| ::
      m.Has(rest[i].n) && m.key[rest[i].n] == rest[i].k && rest[i].n != nil && rest[i].n != loadnil
  }

  /** No node occurs twice among the list and the two rests. */
  ghost predicate Apart(list: seq<Ref>, a: seq<Entry>, b: seq<Entry>) {
    && (forall i, j | 0 <= i < |a| && 0 <= j < |list| :: a[i].n != list[j])
    && (forall i, j | 0 <= i < |b| && 0 <= j < |list| :: b[i].n != list[j])
    && (forall i, j | 0 <= i < |a| && 0 <= j < |b| :: a[i].n != b[j].n)
    && (forall i, j | 0 <= i < j < |a| :: a[i].n != a[j].n)
    && (forall i, j | 0 <= i < j < |b| :: b[i].n != b[j].n)
  }

  lemma ApartStep(list: seq<Ref>, a: seq<Entry>, b: seq<Entry>)
    requires Apart(list, a, b) && a != []
    ensures Apart(list + [a[0].n], a[1..], b) && a[0].n !in list
  {
  }

  lemma ApartSwap(list: seq<Ref>, a: seq<Entry>, b: seq<Entry>)
    requires Apart(list, a, b)
    ensures Apart(list, b, a)
  {
  }

  lemma AppendBehind(m: Mem, loadnil: Ref, added: Ref, key: int)
    requires m.Has(loadnil) && m.Has(added) && m.Has(m.right[loadnil]) && key == m.key[added]
    ensures BehindOnly(m, LoadNextMem(m, loadnil, added, key), {m.right[loadnil], added, loadnil}, loadnil)
  {
  }

  /** A walk survives an append to the list, if neither the list nor the new node lies ahead of it. */
  lemma WalkSurvives(m: Mem, node: Ref, x: Ctx, t: Tree, nil: Ref, rest: seq<Entry>,
                     dnil: Ref, loadnil: Ref, list: seq<Ref>, added: Ref, key: int)
    requires Walk(m, node, x, t, nil, rest, loadnil) && Stock(m, rest, dnil, loadnil)
    requires Threaded(m, dnil, loadnil, list) && m.Has(added) && m.Has(m.right[loadnil]) && key == m.key[added]
    requires forall i, j | 0 <= i < |rest| && 0 <= j < |list| :: rest[i].n != list[j]
    requires forall i | 0 <= i < |rest| :: rest[i].n != added
    ensures Walk(LoadNextMem(m, loadnil, added, key), node, x, t, nil, rest, loadnil)
    ensures Stock(LoadNextMem(m, loadnil, added, key), rest, dnil, loadnil)
  {
    hide AheadOf, Rest, AheadCells, BehindOnly, Threaded, Stock, Clear, LoadNextMem;
    ThreadedCell(m, dnil, loadnil, list);
    var m' := LoadNextMem(m, loadnil, added, key);
    StockSurvives(m, rest, dnil, loadnil, added, key);
    if node != NULL {
      var bad := {m.right[loadnil], added, loadnil};
      AppendBehind(m, loadnil, added, key);
      ClearAhead(m, rest, dnil, loadnil, list, added);
      assert rest == [] + [Entry(t.n, t.k)] + Rest(x, t);
      ClearParts([], [Entry(t.n, t.k)], Rest(x, t), bad);
      AheadFrame(m, m', x, t, nil, bad, loadnil);
    }
  }

  lemma ThreadedCell(m: Mem, dnil: Ref, loadnil: Ref, list: seq<Ref>)
    requires Threaded(m, dnil, loadnil, list)
    ensures m.Has(loadnil)
  {
  }

  lemma StockSurvives(m: Mem, rest: seq<Entry>, dnil: Ref, loadnil: Ref, added: Ref, key: int)
    requires Stock(m, rest, dnil, loadnil) && m.Has(loadnil) && m.Has(added) && m.Has(m.right[loadnil]) && key == m.key[added]
    ensures Stock(LoadNextMem(m, loadnil, added, key), rest, dnil, loadnil)
  {
  }

  /** Nothing ahead is the sentinel, the end of the list or the new node. */
  lemma ClearAhead(m: Mem, rest: seq<Entry>, dnil: Ref, loadnil: Ref, list: seq<Ref>, added: Ref)
    requires Stock(m, rest, dnil, loadnil) && Threaded(m, dnil, loadnil, list) && m.Has(loadnil)
    requires forall i, j | 0 <= i < |rest| && 0 <= j < |list| :: rest[i].n != list[j]
    requires forall i | 0 <= i < |rest| :: rest[i].n != added
    ensures Clear(rest, {m.right[loadnil], added, loadnil})
  {
    hide Listed;
  }

  /** One copy step of dict_merge: step on, then append the node just left. */
  method Advance(dest: D.Dict, loadnil: Ref, node: Ref, nil: Ref, ghost x: Ctx, ghost t: Tree, ghost rest: seq<Entry>,
                 ghost node': Ref, ghost nil': Ref, ghost x': Ctx, ghost t': Tree, ghost rest': seq<Entry>,
                 ghost list: seq<Ref>, ghost m0: Mem, ghost own: set<Ref>)
    returns (next: Ref, ghost x1: Ctx, ghost t1: Tree)
    requires Threaded(dest.heap.View(), dest.nil, loadnil, list) && dest.nil != loadnil && node != NULL
    requires Walk(dest.heap.View(), node, x, t, nil, rest, loadnil) && Stock(dest.heap.View(), rest, dest.nil, loadnil)
    requires Walk(dest.heap.View(), node', x', t', nil', rest', loadnil) && Stock(dest.heap.View(), rest', dest.nil, loadnil)
    requires Apart(list, rest, rest')
    requires Framed(m0, dest.heap.View(), own) && Owned(rest, loadnil) <= own && (set n | n in list) <= own
    modifies dest`nodecount, dest.heap
    ensures Framed(m0, dest.heap.View(), own) && node in own && Owned(rest[1..], loadnil) <= own
    ensures rest != [] && rest[0].n == node
    ensures Threaded(dest.heap.View(), dest.nil, loadnil, list + [node]) && dest.nodecount == old(dest.nodecount) + 1
    ensures Walk(dest.heap.View(), next, x1, t1, nil, rest[1..], loadnil)
    ensures Walk(dest.heap.View(), node', x', t', nil', rest', loadnil)
    ensures Stock(dest.heap.View(), rest[1..], dest.nil, loadnil) && Stock(dest.heap.View(), rest', dest.nil, loadnil)
    ensures Apart(list + [node], rest[1..], rest')
    ensures dest.heap.key == old(dest.heap.key) && dest.heap.color == old(dest.heap.color)
    ensures SameCells(old(dest.heap.View()), dest.heap.View())
  {
    hide Threaded, AheadOf, Rest, AheadCells, Framed, Owned;
    ghost var y;
    next, y, x1, t1 := dest.heap.Next(node, nil, x, t);
    ApartStep(list, rest, rest');
    ghost var m := dest.heap.View();
    assert rest[0] == Entry(t.n, t.k) && rest[1..] == Rest(x, t);
    assert dest.heap.key[node] == rest[0].k;
    TailIsCell(m, dest.nil, loadnil, list);
    OwnedHead(rest, loadnil);
    LoadNext(dest, loadnil, node, dest.heap.key[node], list, m0, own);
    assert dest.heap.View() == LoadNextMem(m, loadnil, node, m.key[node]) && dest.heap.key == m.key;
    assert |dest.heap.left| == |m.left| && |dest.heap.right| == |m.right| && |dest.heap.parent| == |m.parent|;
    WalkSurvives(m, next, x1, t1, nil, rest[1..], dest.nil, loadnil, list, node, m.key[node]);
    WalkSurvives(m, node', x', t', nil', rest', dest.nil, loadnil, list, node, m.key[node]);
  }

  /** A dictionary's entries, as the walk starts. */
  lemma StartStock(d: D.Dict, dnil: Ref, loadnil: Ref)
    requires d.Valid() && dnil !in Nodes(d.tree) && loadnil !in Nodes(d.tree)
    ensures Stock(d.heap.View(), Inorder(d.tree), dnil, loadnil)
    ensures forall i, j | 0 <= i < j < |Inorder(d.tree)| :: Inorder(d.tree)[i].n != Inorder(d.tree)[j].n
    ensures forall i | 0 <= i < |Inorder(d.tree)| :: Inorder(d.tree)[i].n in Nodes(d.tree)
  {
    InorderTags(d.heap.View(), d.tree, d.nil, d.nil);
    InorderDistinct(d.tree);
  }

  lemma {:induction false} InorderTags(m: Mem, t: Tree, par: Ref, nil: Ref)
    requires Rep(m, t, par, nil) && Tagged(m.color, m.key, t)
    ensures forall i | 0 <= i < |Inorder(t)| ::
      var e := Inorder(t)[i]; e.n in Nodes(t) && m.Has(e.n) && m.key[e.n] == e.k
  {
    if t.Node? {
      InorderTags(m, t.l, t.n, nil);
      InorderTags(m, t.r, t.n, nil);
    }
  }

  lemma DistinctJoin(a: seq<Entry>, e: Entry, b: seq<Entry>, left: set<Ref>, right: set<Ref>)
    requires forall i, j | 0 <= i < j < |a| :: a[i].n != a[j].n
    requires forall i, j | 0 <= i < j < |b| :: b[i].n != b[j].n
    requires forall i | 0 <= i < |a| :: a[i].n in left
    requires forall i | 0 <= i < |b| :: b[i].n in right
    requires left !! right && e.n !in left && e.n !in right
    ensures var s := a + [e] + b;
      && (forall i, j | 0 <= i < j < |s| :: s[i].n != s[j].n)
      && (forall i | 0 <= i < |s| :: s[i].n in left + {e.n} + right)
  {
  }

  lemma {:induction false} InorderDistinct(t: Tree)
    requires Distinct(t)
    ensures forall i, j | 0 <= i < j < |Inorder(t)| :: Inorder(t)[i].n != Inorder(t)[j].n
    ensures forall i | 0 <= i < |Inorder(t)| :: Inorder(t)[i].n in Nodes(t)
  {
    if t.Node? {
      InorderDistinct(t.l);
      InorderDistinct(t.r);
      DistinctJoin(Inorder(t.l), Entry(t.n, t.k), Inorder(t.r), Nodes(t.l), Nodes(t.r));
    }
  }

  /** load_begin_internal. */
  method LoadBegin(d: D.Dict, loadnil: Ref, ghost m0: Mem, ghost own: set<Ref>)
    requires d.heap.View().Has(loadnil) && d.heap.View().Has(d.nil) && loadnil != d.nil
    requires Framed(m0, d.heap.View(), own) && loadnil in own
    modifies d.heap
    ensures Framed(m0, d.heap.View(), own)
    ensures d.heap.View() == old(d.heap.View().(left := d.heap.left[loadnil := loadnil], right := d.heap.right[loadnil := loadnil]))
    ensures Threaded(d.heap.View(), d.nil, loadnil, [])
  {
    d.heap.left := d.heap.left[loadnil := loadnil];
    d.heap.right := d.heap.right[loadnil := loadnil];
  }

  /** Two dictionaries that may be merged: same store and order, nothing shared. */
  ghost predicate Mergeable(dest: D.Dict, source: D.Dict, loadnil: Ref)
    reads dest, source, dest.heap, source.heap
  {
    && dest.heap == source.heap && dest.compare == source.compare && dest.Valid() && source.Valid()
    && Nodes(dest.tree) !! Nodes(source.tree) && dest.nil != source.nil
    && dest.nil !in Nodes(source.tree) && source.nil !in Nodes(dest.tree)
    && dest.heap.View().Has(loadnil) && loadnil !in {dest.nil, source.nil}
    && loadnil !in Nodes(dest.tree) && loadnil !in Nodes(source.tree)
    && dest.nodecount + source.nodecount < Pow2(DEPTH_MAX - 1)
  }

  lemma MergedLeft(cmp: (int, int) -> int, a: seq<Entry>, b: seq<Entry>)
    requires a != [] && (b == [] || cmp(a[0].k, b[0].k) < 0)
    ensures Merged(cmp, a, b) == [a[0]] + Merged(cmp, a[1..], b)
  {
  }

  lemma MergedRight(cmp: (int, int) -> int, a: seq<Entry>, b: seq<Entry>)
    requires b != [] && (a == [] || cmp(a[0].k, b[0].k) >= 0)
    ensures Merged(cmp, a, b) == [b[0]] + Merged(cmp, a, b[1..])
  {
  }

  /** What is already listed, then the merge of what is still to come. */
  ghost predicate Progress(cmp: (int, int) -> int, list: seq<Ref>, key: seq<int>, a: seq<Entry>, b: seq<Entry>, all: seq<Entry>) {
    && (forall i | 0 <= i < |list| :: 0 <= list[i] < |key|)
    && Entries(list, key) + Merged(cmp, a, b) == all
  }

  lemma ProgressStep(cmp: (int, int) -> int, list: seq<Ref>, key: seq<int>, a: seq<Entry>, b: seq<Entry>,
                     a': seq<Entry>, b': seq<Entry>, e: Entry, all: seq<Entry>)
    requires Progress(cmp, list, key, a, b, all) && Merged(cmp, a, b) == [e] + Merged(cmp, a', b')
    requires 0 <= e.n < |key| && key[e.n] == e.k
    ensures Progress(cmp, list + [e.n], key, a', b', all)
  {
    var list' := list + [e.n];
    assert list'[..|list'| - 1] == list;
    ConcatAssoc(Entries(list, key), [e], Merged(cmp, a', b'));
  }

  lemma RestClear(m: Mem, x: Ctx, t: Tree, rest: seq<Entry>, nil: Ref, loadnil: Ref)
    requires t.Node? && rest == [Entry(t.n, t.k)] + Rest(x, t) && Stock(m, rest, nil, loadnil)
    ensures Clear(Rest(x, t), {loadnil})
  {
    assert forall i | 0 <= i < |Rest(x, t)| :: Rest(x, t)[i] == rest[i + 1];
  }

  /** The walks start before the load sentinel is set up, and survive that. */
  lemma WalkBegins(m: Mem, node: Ref, x: Ctx, t: Tree, nil: Ref, rest: seq<Entry>, dnil: Ref, loadnil: Ref)
    requires Walk(m, node, x, t, nil, rest, loadnil) && Stock(m, rest, dnil, loadnil) && m.Has(loadnil)
    ensures var m' := m.(left := m.left[loadnil := loadnil], right := m.right[loadnil := loadnil]);
      Walk(m', node, x, t, nil, rest, loadnil) && Stock(m', rest, dnil, loadnil)
  {
    hide AheadOf, Clear, Rest, AheadCells;
    var m' := m.(left := m.left[loadnil := loadnil], right := m.right[loadnil := loadnil]);
    if node != NULL {
      assert BehindOnly(m, m', {loadnil}, loadnil);
      RestClear(m, x, t, rest, dnil, loadnil);
      AheadFrame(m, m', x, t, nil, {loadnil}, loadnil);
    }
  }

  ghost predicate Absent(n: Ref, list: seq<Ref>, a: seq<Entry>, b: seq<Entry>) {
    n !in list && (forall i | 0 <= i < |a| :: a[i].n != n) && (forall i | 0 <= i < |b| :: b[i].n != n)
  }

  /** Both walks on their way, `list` taken so far, `total` entries in all. */
  ghost predicate Merging(m: Mem, cmp: (int, int) -> int, dnil: Ref, snil: Ref, loadnil: Ref,
                          l: Ref, x: Ctx, t: Tree, a: seq<Entry>, r: Ref, y: Ctx, s: Tree, b: seq<Entry>,
                          list: seq<Ref>, all: seq<Entry>, total: nat)
  {
    && Threaded(m, dnil, loadnil, list)
    && Walk(m, l, x, t, dnil, a, loadnil) && Stock(m, a, dnil, loadnil)
    && Walk(m, r, y, s, snil, b, loadnil) && Stock(m, b, dnil, loadnil)
    && Apart(list, a, b) && Absent(snil, list, a, b)
    && Progress(cmp, list, m.key, a, b, all)
    && |list| + |a| + |b| == total
  }

  /** The copying loop of dict_merge. */
  method Copy(dest: D.Dict, nil': Ref, loadnil: Ref, l0: Ref, r0: Ref,
              ghost x0: Ctx, ghost t0: Tree, ghost a0: seq<Entry>, ghost y0: Ctx, ghost s0: Tree, ghost b0: seq<Entry>,
              ghost all: seq<Entry>, ghost total: nat, ghost m0: Mem, ghost own: set<Ref>)
    returns (ghost list: seq<Ref>)
    requires Merging(dest.heap.View(), dest.compare, dest.nil, nil', loadnil, l0, x0, t0, a0, r0, y0, s0, b0, [], all, total)
    requires dest.nodecount == 0 && dest.nil != loadnil
    requires Framed(m0, dest.heap.View(), own) && Owned(a0, loadnil) <= own && Owned(b0, loadnil) <= own
    modifies dest`nodecount, dest.heap
    ensures Framed(m0, dest.heap.View(), own) && (set n | n in list) <= own
    ensures Threaded(dest.heap.View(), dest.nil, loadnil, list) && dest.nodecount == |list| == total && nil' !in list
    ensures Progress(dest.compare, list, dest.heap.key, [], [], all)
    ensures dest.heap.key == old(dest.heap.key) && dest.heap.color == old(dest.heap.color)
    ensures SameCells(old(dest.heap.View()), dest.heap.View())
  {
    hide Threaded, Walk, Stock, Apart, Progress, Merged, Framed, Owned;
    var leftnode, rightnode := l0, r0;
    ghost var x, t, a, y, s, b := x0, t0, a0, y0, s0, b0;
    list := [];
    while leftnode != NULL || rightnode != NULL
      invariant Merging(dest.heap.View(), dest.compare, dest.nil, nil', loadnil, leftnode, x, t, a, rightnode, y, s, b, list, all, total)
      invariant dest.nodecount == |list| && (set n | n in list) <= own
      invariant Framed(m0, dest.heap.View(), own) && Owned(a, loadnil) <= own && Owned(b, loadnil) <= own
      invariant dest.heap.key == old(dest.heap.key) && dest.heap.color == old(dest.heap.color)
      invariant SameCells(old(dest.heap.View()), dest.heap.View())
      decreases |a| + |b|
    {
      WalkHead(dest.heap.View(), leftnode, x, t, dest.nil, a, dest.nil, loadnil);
      WalkHead(dest.heap.View(), rightnode, y, s, nil', b, dest.nil, loadnil);
      ghost var taken := list;
      if leftnode != NULL && (rightnode == NULL || dest.compare(dest.heap.key[leftnode], dest.heap.key[rightnode]) < 0) {
        MergedLeft(dest.compare, a, b);
        ProgressStep(dest.compare, list, dest.heap.key, a, b, a[1..], b, a[0], all);
        list := list + [leftnode];
        leftnode, x, t := Advance(dest, loadnil, leftnode, dest.nil, x, t, a, rightnode, nil', y, s, b, taken, m0, own);
        a := a[1..];
      } else {
        MergedRight(dest.compare, a, b);
        ProgressStep(dest.compare, list, dest.heap.key, a, b, a, b[1..], b[0], all);
        ApartSwap(list, a, b);
        list := list + [rightnode];
        rightnode, y, s := Advance(dest, loadnil, rightnode, nil', y, s, b, leftnode, dest.nil, x, t, a, taken, m0, own);
        b := b[1..];
        ApartSwap(list, b, a);
      }
    }
    WalkHead(dest.heap.View(), leftnode, x, t, dest.nil, a, dest.nil, loadnil);
    WalkHead(dest.heap.View(), rightnode, y, s, nil', b, dest.nil, loadnil);
  }

  /** dict_merge up to the final load. */
  method Thread(dest: D.Dict, source: D.Dict, loadnil: Ref, ghost m0: Mem, ghost own: set<Ref>) returns (ghost list: seq<Ref>)
    requires Mergeable(dest, source, loadnil) && Framed(m0, dest.heap.View(), own)
    requires Nodes(dest.tree) + Nodes(source.tree) + {loadnil} <= own
    modifies dest`nodecount, dest.heap
    ensures Framed(m0, dest.heap.View(), own) && (set n | n in list) <= own
    ensures Threaded(dest.heap.View(), dest.nil, loadnil, list)
    ensures dest.nodecount == |list| == old(dest.nodecount + source.nodecount)
    ensures Progress(dest.compare, list, dest.heap.key, [], [], Merged(dest.compare, Inorder(dest.tree), Inorder(source.tree)))
    ensures dest.heap.key == old(dest.heap.key) && dest.heap.color == old(dest.heap.color)
    ensures SameCells(old(dest.heap.View()), dest.heap.View())
    ensures source.nil !in list
  {
    hide Threaded, Walk, Stock, Apart, Progress, Merged, Absent, Good, RedBlack, D.Sorted, D.Preorder, Framed, Owned;
    ghost var a, b := Inorder(dest.tree), Inorder(source.tree);
    StartMerge(dest, source, loadnil);
    ghost var x, t, y, s;
    var leftnode, rightnode;
    leftnode, x, t := dest.First();
    rightnode, y, s := source.First();
    StartWalk(dest, leftnode, x, t, loadnil);
    StartWalk(source, rightnode, y, s, loadnil);
    WalkBegins(dest.heap.View(), leftnode, x, t, dest.nil, a, dest.nil, loadnil);
    WalkBegins(dest.heap.View(), rightnode, y, s, source.nil, b, dest.nil, loadnil);
    dest.nodecount := 0;
    LoadBegin(dest, loadnil, m0, own);
    OwnedNodes(dest.tree, loadnil);
    OwnedNodes(source.tree, loadnil);
    list := Copy(dest, source.nil, loadnil, leftnode, rightnode, x, t, a, y, s, b,
                 Merged(dest.compare, a, b), |a| + |b|, m0, own);
  }

  lemma WalkHead(m: Mem, node: Ref, x: Ctx, t: Tree, nil: Ref, rest: seq<Entry>, dnil: Ref, loadnil: Ref)
    requires Walk(m, node, x, t, nil, rest, loadnil) && Stock(m, rest, dnil, loadnil)
    ensures node == NULL <==> rest == []
    ensures node != NULL ==> rest[0].n == node && m.Has(node) && m.key[node] == rest[0].k
  {
  }

  lemma StartWalk(d: D.Dict, node: Ref, x: Ctx, t: Tree, loadnil: Ref)
    requires node == NULL <==> Inorder(d.tree) == []
    requires node != NULL ==> AheadOf(d.heap.View(), x, t, d.nil) && node == t.n && AheadCells(x, t) <= Nodes(d.tree)
    requires node != NULL ==> Inorder(d.tree) == [Entry(t.n, t.k)] + Rest(x, t)
    requires loadnil !in Nodes(d.tree)
    ensures Walk(d.heap.View(), node, x, t, d.nil, Inorder(d.tree), loadnil)
  {
  }

  lemma StartMerge(dest: D.Dict, source: D.Dict, loadnil: Ref)
    requires Mergeable(dest, source, loadnil)
    ensures var a, b := Inorder(dest.tree), Inorder(source.tree);
      && Stock(dest.heap.View(), a, dest.nil, loadnil) && Stock(dest.heap.View(), b, dest.nil, loadnil)
      && Apart([], a, b) && Absent(source.nil, [], a, b)
      && Progress(dest.compare, [], dest.heap.key, a, b, Merged(dest.compare, a, b))
      && |a| == dest.nodecount && |b| == source.nodecount
  {
    StartStock(dest, dest.nil, loadnil);
    StartStock(source, dest.nil, loadnil);
    InorderLength(dest.tree);
    InorderLength(source.tree);
  }

  lemma ProgressDone(cmp: (int, int) -> int, list: seq<Ref>, key: seq<int>, all: seq<Entry>)
    requires Progress(cmp, list, key, [], [], all)
    ensures (forall i | 0 <= i < |list| :: 0 <= list[i] < |key|) && Entries(list, key) == all
  {
  }

  lemma ListedFrame(m: Mem, m': Mem, nil: Ref, loadnil: Ref, list: seq<Ref>, n: Ref)
    requires Threaded(m, nil, loadnil, list) && SameCells(m, m') && n !in list && n != loadnil
    requires forall i | 0 <= i < |m.left| && i != n :: m'.left[i] == m.left[i]
    ensures Listed(m', nil, loadnil, list)
  {
    ChainFrame(m.left, m'.left, m.left[loadnil], list, loadnil, n);
  }

  /** dict_merge: `dest` takes over every entry of `source`, which is left empty. */
  method Merge(dest: D.Dict, source: D.Dict, loadnil: Ref)
    requires source != dest ==> Mergeable(dest, source, loadnil)
    modifies dest, source, dest.heap
    ensures source == dest ==> dest.tree == old(dest.tree) && dest.heap.View() == old(dest.heap.View()) && dest.nodecount == old(dest.nodecount)
    ensures source != dest ==>
      && dest.Valid() && source.Valid() && source.tree == Leaf
      && Inorder(dest.tree) == Merged(dest.compare, old(Inorder(dest.tree)), old(Inorder(source.tree)))
      && dest.nodecount == old(dest.nodecount) + old(source.nodecount)
    ensures dest.dupes == old(dest.dupes) && source.dupes == old(source.dupes)
    ensures Framed(old(dest.heap.View()), dest.heap.View(),
                   old(Nodes(dest.tree) + Nodes(source.tree)) + {dest.nil, source.nil, loadnil})
  {
    hide Framed, Threaded, Progress, Good, RedBlack, D.Sorted, D.Preorder, Listed, Entries, Merged;
    ghost var m0, own := dest.heap.View(), Nodes(dest.tree) + Nodes(source.tree) + {dest.nil, source.nil, loadnil};
    FramedSelf(m0, own);
    if source == dest { return; }
    ghost var all := Merged(dest.compare, Inorder(dest.tree), Inorder(source.tree));
    MergedSorted(dest.compare, Inorder(dest.tree), Inorder(source.tree));
    MergeCells(dest, source, loadnil);
    ghost var list := Thread(dest, source, loadnil, m0, own);
    ProgressDone(dest.compare, list, dest.heap.key, all);
    ghost var m := dest.heap.View();
    source.nodecount := 0;
    dest.heap.left := dest.heap.left[source.nil := source.nil];
    dest.heap.right := dest.heap.right[source.nil := source.nil];
    dest.heap.parent := dest.heap.parent[source.nil := source.nil];
    source.tree := Leaf;
    ClearedFramed(m0, m, source.nil, own);
    ListedFrame(m, dest.heap.View(), dest.nil, loadnil, list, source.nil);
    ghost var m1 := dest.heap.View();
    LoadEnd(dest, loadnil, list);
    UntouchedFramed(m0, m1, dest.heap.View(), (set n | n in list) + {dest.nil}, own);
    EmptyGood(source.compare, m1, dest.heap.View(), source.nil, (set n | n in list) + {dest.nil});
  }

  lemma OwnedHead(s: seq<Entry>, nil: Ref)
    requires s != []
    ensures s[0].n in Owned(s, nil) && nil in Owned(s, nil) && Owned(s[1..], nil) <= Owned(s, nil)
  {
    assert s[0] in s;
  }

  lemma UntouchedFramed(m0: Mem, m: Mem, m': Mem, s: set<Ref>, own: set<Ref>)
    requires Framed(m0, m, own) && Untouched(m, m', s) && s <= own
    ensures Framed(m0, m', own)
  {
    forall n: Ref | m0.Has(n) && n !in own
      ensures m'.left[n] == m0.left[n] && m'.right[n] == m0.right[n] && m'.parent[n] == m0.parent[n]
      ensures m'.color[n] == m0.color[n] && m'.key[n] == m0.key[n]
    {
      assert m.Has(n);
    }
  }

  lemma LoadNextFramed(m0: Mem, m: Mem, loadnil: Ref, node: Ref, key: int, own: set<Ref>)
    requires Framed(m0, m, own) && m.Has(loadnil) && m.Has(node) && m.Has(m.right[loadnil])
    requires {loadnil, node, m.right[loadnil]} <= own
    ensures Framed(m0, LoadNextMem(m, loadnil, node, key), own)
  {
  }

  lemma ClearedFramed(m0: Mem, m: Mem, nil: Ref, own: set<Ref>)
    requires Framed(m0, m, own) && nil in own && m.Has(nil)
    ensures Framed(m0, m.(left := m.left[nil := nil], right := m.right[nil := nil], parent := m.parent[nil := nil]), own)
  {
  }

  lemma MergeCells(dest: D.Dict, source: D.Dict, loadnil: Ref)
    requires Mergeable(dest, source, loadnil)
    ensures dest.heap.View().Has(source.nil) && dest.heap.color[source.nil] == Black
  {
  }

  lemma EmptyGood(cmp: (int, int) -> int, m: Mem, m': Mem, nil: Ref, s: set<Ref>)
    requires Untouched(m, m', s) && nil !in s && m.Has(nil) && Links(m, nil, nil, nil, nil)
    ensures Good(m', Top, Leaf, nil) && m'.Has(nil) && m'.color[nil] == m.color[nil] && m'.parent[nil] == nil
    ensures RedBlack(Leaf) && D.Sorted(cmp, Inorder(Leaf))
  {
  }
}
