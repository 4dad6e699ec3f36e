/**
 * A dictionary without duplicates under integer keys, with a record at every
 * node: what pass 1b makes of dict_init(dict_int_cmp), dict_lookup and
 * dict_alloc_insert.
 *
 * What a lookup finds and where an insertion goes is stated for all keys. If
 * the keys lie in one half circle of 32-bit words, dict_int_cmp is an order and
 * keys that differ by a multiple of 2^32 share one node: the records are then a
 * map from ranks.
 */
module KeyTable {
  import opened RedBlackTree
  import opened NodeStore
  import opened DictShape
  import opened IntKeys
  import D = Dict
  import DictVerify
  import Rebalance

  // ----- searching in a half circle -----

  ghost predicate KeysNear(base: int, t: Tree) {
    t.Node? ==> Near(base, t.k) && KeysNear(base, t.l) && KeysNear(base, t.r)
  }

  /** The keys go once around the circle, or less. */
  ghost predicate Ranked(base: int, s: seq<Entry>) {
    forall i, j | 0 <= i < j < |s| :: Rank(base, s[i].k) < Rank(base, s[j].k)
  }

  ghost predicate AllBelow(base: int, s: seq<Entry>, h: int) { forall e | e in s :: Rank(base, e.k) < h }
  ghost predicate AllAbove(base: int, s: seq<Entry>, h: int) { forall e | e in s :: Rank(base, e.k) > h }
  ghost predicate NoneAt(base: int, s: seq<Entry>, h: int) { forall e | e in s :: Rank(base, e.k) != h }

  lemma RankedSplit(base: int, a: seq<Entry>, e: Entry, b: seq<Entry>)
    requires Ranked(base, a + [e] + b)
    ensures Ranked(base, a) && Ranked(base, b) && AllBelow(base, a, Rank(base, e.k)) && AllAbove(base, b, Rank(base, e.k))
  {
    hide Rank;
    var s := a + [e] + b;
    assert s[|a|] == e;
    assert forall i | 0 <= i < |a| :: a[i] == s[i];
    assert forall i | 0 <= i < |b| :: b[i] == s[|a| + 1 + i];
    forall d | d in a
      ensures Rank(base, d.k) < Rank(base, e.k)
    {
      var i :| 0 <= i < |a| && a[i] == d;
      assert s[i] == d;
    }
    forall d | d in b
      ensures Rank(base, d.k) > Rank(base, e.k)
    {
      var i :| 0 <= i < |b| && b[i] == d;
      assert s[|a| + 1 + i] == d;
    }
    forall i, j | 0 <= i < j < |b|
      ensures Rank(base, b[i].k) < Rank(base, b[j].k)
    {
      assert b[i] == s[|a| + 1 + i] && b[j] == s[|a| + 1 + j];
    }
  }

  /** The search with dict_int_cmp finds the entry of the key's rank, if there is one. */
  lemma {:induction false} SearchRank(base: int, t: Tree, key: int)
    requires KeysNear(base, t) && Near(base, key) && Ranked(base, Inorder(t)) && NULL !in Nodes(t)
    ensures var n := Search(IntCmp, t, key);
      if n == NULL then NoneAt(base, Inorder(t), Rank(base, key))
      else exists e :: e in Inorder(t) && e.n == n && Rank(base, e.k) == Rank(base, key)
  {
    hide Rank, Near, IntCmp, Ranked;
    if t.Node? {
      var e := Entry(t.n, t.k);
      RankedSplit(base, Inorder(t.l), e, Inorder(t.r));
      SearchRank(base, t.l, key);
      SearchRank(base, t.r, key);
      NearCmp(base, key, t.k);
      assert e in Inorder(t);
      assert forall d :: d in Inorder(t) <==> d in Inorder(t.l) || d == e || d in Inorder(t.r);
    }
  }

  /** An insertion with dict_int_cmp goes between the smaller and the greater ranks. */
  lemma {:induction false} HoleRank(base: int, x: Ctx, t: Tree, key: int)
    requires KeysNear(base, t) && Near(base, key) && Ranked(base, Rebalance.Contents(x, t))
    requires NoneAt(base, Inorder(t), Rank(base, key))
    requires AllBelow(base, Before(x), Rank(base, key)) && AllAbove(base, After(x), Rank(base, key))
    ensures var y := Hole(IntCmp, x, t, key);
      && Plug(y, Leaf) == Plug(x, t)
      && AllBelow(base, Before(y), Rank(base, key)) && AllAbove(base, After(y), Rank(base, key))
    decreases t
  {
    hide Rank, Near, IntCmp, Ranked;
    if t.Node? {
      var e := Entry(t.n, t.k);
      D.ContentsAt(x, t);
      RankedSplit(base, Before(x) + Inorder(t.l), e, Inorder(t.r) + After(x));
      NearCmp(base, key, t.k);
      assert e in Inorder(t);
      assert forall d | d in Inorder(t.l) || d in Inorder(t.r) :: d in Inorder(t);
      if IntCmp(key, t.k) < 0 {
        HoleRank(base, InLeft(x, t.n, t.c, t.k, t.r), t.l, key);
      } else {
        HoleRank(base, InRight(x, t.l, t.n, t.c, t.k), t.r, key);
      }
    }
  }

  // ----- entries and records -----

  /** Entry `i` is the one for this key. */
  ghost predicate IsAt(base: int, s: seq<Entry>, key: int, i: int) {
    0 <= i < |s| && Rank(base, s[i].k) == Rank(base, key)
  }

  /** One entry of each rank, with its record. */
  ghost predicate Tied<R(!new)>(base: int, s: seq<Entry>, data: map<Ref, R>, recs: map<int, R>, names: map<int, int>) {
    && recs.Keys == names.Keys
    && (forall i | 0 <= i < |s| :: TiedAt(base, s[i], data, recs, names))
    && (forall h | h in names :: exists i :: IsAt(base, s, names[h], i))
    && (forall h | h in names :: Rank(base, names[h]) == h)
    && (forall i, j | 0 <= i < j < |s| :: s[i].n != s[j].n && Rank(base, s[i].k) < Rank(base, s[j].k))
  }

  ghost predicate TiedAt<R(!new)>(base: int, e: Entry, data: map<Ref, R>, recs: map<int, R>, names: map<int, int>) {
    var h := Rank(base, e.k);
    h in recs && h in names && names[h] == e.k && e.n in data && recs[h] == data[e.n] && Near(base, e.k)
  }

  lemma TiedNone<R(!new)>(base: int, data: map<Ref, R>)
    ensures Tied(base, [], data, map[], map[])
  {
  }

  lemma TiedParts<R(!new)>(base: int, s: seq<Entry>, data: map<Ref, R>, recs: map<int, R>, names: map<int, int>)
    requires Tied(base, s, data, recs, names)
    ensures Ranked(base, s) && forall e | e in s :: Near(base, e.k) && e.n in data
  {
    hide Rank, Near;
    forall e | e in s
      ensures Near(base, e.k) && e.n in data
    {
      var i :| 0 <= i < |s| && s[i] == e;
      assert TiedAt(base, s[i], data, recs, names);
    }
  }

  lemma {:induction false} NearTree(base: int, t: Tree)
    requires forall e | e in Inorder(t) :: Near(base, e.k)
    ensures KeysNear(base, t)
  {
    hide Near;
    if t.Node? {
      assert Entry(t.n, t.k) in Inorder(t);
      assert forall d | d in Inorder(t.l) || d in Inorder(t.r) :: d in Inorder(t);
      NearTree(base, t.l);
      NearTree(base, t.r);
    }
  }

  /** No entry has the key's rank: there is no record for it, and the other way round. */
  lemma TiedAbsent<R(!new)>(base: int, s: seq<Entry>, data: map<Ref, R>, recs: map<int, R>, names: map<int, int>, key: int)
    requires Tied(base, s, data, recs, names)
    ensures NoneAt(base, s, Rank(base, key)) <==> Rank(base, key) !in recs
  {
    hide Rank, Near;
    var h := Rank(base, key);
    if h in recs {
      var i :| IsAt(base, s, names[h], i);
      assert s[i] in s;
    } else {
      forall e | e in s
        ensures Rank(base, e.k) != h
      {
        var i :| 0 <= i < |s| && s[i] == e;
        assert TiedAt(base, s[i], data, recs, names);
      }
    }
  }

  lemma TiedPresent<R(!new)>(base: int, s: seq<Entry>, data: map<Ref, R>, recs: map<int, R>, names: map<int, int>, key: int, e: Entry)
    requires Tied(base, s, data, recs, names) && e in s && Rank(base, e.k) == Rank(base, key)
    ensures exists i :: IsAt(base, s, key, i) && s[i].n == e.n
    ensures Rank(base, key) in recs && e.n in data && recs[Rank(base, key)] == data[e.n]
  {
    hide Rank, Near;
    var i :| 0 <= i < |s| && s[i] == e;
    assert TiedAt(base, s[i], data, recs, names);
    assert IsAt(base, s, key, i);
  }

  /** Overwriting the record at a node. */
  lemma TiedPut<R(!new)>(base: int, s: seq<Entry>, data: map<Ref, R>, recs: map<int, R>, names: map<int, int>, key: int, i: int, r: R)
    requires Tied(base, s, data, recs, names) && IsAt(base, s, key, i)
    ensures Rank(base, key) in recs && Tied(base, s, data[s[i].n := r], recs[Rank(base, key) := r], names)
  {
    hide Rank, Near;
    assert TiedAt(base, s[i], data, recs, names);
    var data', recs' := data[s[i].n := r], recs[Rank(base, key) := r];
    assert recs'.Keys == recs.Keys;
    forall j | 0 <= j < |s|
      ensures TiedAt(base, s[j], data', recs', names)
    {
      assert TiedAt(base, s[j], data, recs, names);
    }
  }

  /** A new entry among the others, at its place in the order of ranks. */
  lemma TiedAdd<R(!new)>(base: int, a: seq<Entry>, b: seq<Entry>, e: Entry, data: map<Ref, R>, recs: map<int, R>, names: map<int, int>, r: R)
    requires Tied(base, a + b, data, recs, names) && Near(base, e.k) && Rank(base, e.k) !in recs
    requires forall i | 0 <= i < |a + b| :: (a + b)[i].n != e.n
    requires forall i | 0 <= i < |a| :: Rank(base, a[i].k) < Rank(base, e.k)
    requires forall i | 0 <= i < |b| :: Rank(base, e.k) < Rank(base, b[i].k)
    ensures Tied(base, a + [e] + b, data[e.n := r], recs[Rank(base, e.k) := r], names[Rank(base, e.k) := e.k])
  {
    hide Rank, Near;
    var s, u, h := a + b, a + [e] + b, Rank(base, e.k);
    var data', recs', names' := data[e.n := r], recs[h := r], names[h := e.k];
    assert recs'.Keys == recs.Keys + {h} && names'.Keys == names.Keys + {h};
    forall j | 0 <= j < |u|
      ensures TiedAt(base, u[j], data', recs', names')
    {
      if j != |a| { assert TiedAt(base, s[if j < |a| then j else j - 1], data, recs, names); }
    }
    forall g | g in names'
      ensures exists i :: IsAt(base, u, names'[g], i)
    {
      if g == h {
        assert IsAt(base, u, e.k, |a|);
      } else {
        var i :| IsAt(base, s, names[g], i);
        assert IsAt(base, u, names[g], if i < |a| then i else i + 1);
      }
    }
    SpreadAdd(base, a, b, e);
  }

  lemma SpreadAdd(base: int, a: seq<Entry>, b: seq<Entry>, e: Entry)
    requires forall i, j | 0 <= i < j < |a + b| :: (a + b)[i].n != (a + b)[j].n && Rank(base, (a + b)[i].k) < Rank(base, (a + b)[j].k)
    requires forall i | 0 <= i < |a + b| :: (a + b)[i].n != e.n
    requires forall i | 0 <= i < |a| :: Rank(base, a[i].k) < Rank(base, e.k)
    requires forall i | 0 <= i < |b| :: Rank(base, e.k) < Rank(base, b[i].k)
    ensures var u := a + [e] + b;
      forall i, j | 0 <= i < j < |u| :: u[i].n != u[j].n && Rank(base, u[i].k) < Rank(base, u[j].k)
  {
    hide Rank;
    var s, u := a + b, a + [e] + b;
    forall i, j | 0 <= i < j < |u|
      ensures u[i].n != u[j].n && Rank(base, u[i].k) < Rank(base, u[j].k)
    {
      if i == |a| {
        assert u[j] == b[j - |a| - 1] == s[j - 1];
      } else if j == |a| {
        assert u[i] == a[i] == s[i];
      } else {
        assert u[i] == s[if i < |a| then i else i - 1] && u[j] == s[if j < |a| then j else j - 1];
      }
    }
  }

  lemma OtherNodes(t: Tree, n: Ref)
    requires n !in Nodes(t)
    ensures forall i | 0 <= i < |Inorder(t)| :: Inorder(t)[i].n != n
  {
    forall i | 0 <= i < |Inorder(t)|
      ensures Inorder(t)[i].n != n
    {
      Rebalance.InorderNodes(t, Inorder(t)[i]);
    }
  }

  ghost function KeysOf(s: seq<Entry>): (ks: seq<int>)
    ensures |ks| == |s| && forall i | 0 <= i < |s| :: ks[i] == s[i].k
  {
    seq(|s|, i requires 0 <= i < |s| => s[i].k)
  }

  lemma TiedOrder<R(!new)>(base: int, s: seq<Entry>, data: map<Ref, R>, recs: map<int, R>, names: map<int, int>)
    requires Tied(base, s, data, recs, names)
    ensures |s| == |recs|
    ensures forall i | 0 <= i < |s| :: TiedAt(base, s[i], data, recs, names)
    ensures forall i, j | 0 <= i < j < |s| :: Rank(base, s[i].k) < Rank(base, s[j].k)
    ensures forall h | h in names :: names[h] in KeysOf(s)
  {
    hide Rank, Near;
    var ranks := set i | 0 <= i < |s| :: Rank(base, s[i].k);
    RankCount(base, s);
    forall h | h in names
      ensures names[h] in KeysOf(s) && h in ranks
    {
      var i :| IsAt(base, s, names[h], i);
      assert TiedAt(base, s[i], data, recs, names);
      assert KeysOf(s)[i] == names[h];
    }
    forall h | h in ranks
      ensures h in recs.Keys
    {
      var i :| 0 <= i < |s| && h == Rank(base, s[i].k);
      assert TiedAt(base, s[i], data, recs, names);
    }
    assert ranks == recs.Keys;
    assert |recs| == |recs.Keys|;
  }

  lemma {:induction false} RankCount(base: int, s: seq<Entry>)
    requires forall i, j | 0 <= i < j < |s| :: Rank(base, s[i].k) < Rank(base, s[j].k)
    ensures |(set i | 0 <= i < |s| :: Rank(base, s[i].k))| == |s|
  {
    hide Rank;
    if s != [] {
      var n := |s| - 1;
      var a := s[..n];
      RankCount(base, a);
      var ranks, less := set i | 0 <= i < |s| :: Rank(base, s[i].k), set i | 0 <= i < |a| :: Rank(base, a[i].k);
      forall h | h in ranks
        ensures h in less || h == Rank(base, s[n].k)
      {
        var i :| 0 <= i < |s| && h == Rank(base, s[i].k);
        if i < n { assert a[i] == s[i]; }
      }
      forall h | h in less
        ensures h in ranks && h != Rank(base, s[n].k)
      {
        var i :| 0 <= i < |a| && h == Rank(base, a[i].k);
        assert a[i] == s[i];
      }
      assert Rank(base, s[n].k) in ranks;
      assert ranks == less + {Rank(base, s[n].k)};
    }
  }

  lemma NodesNotNull(m: Mem, t: Tree, par: Ref, nil: Ref)
    requires Rep(m, t, par, nil)
    ensures NULL !in Nodes(t)
  {
    NodesAreCells(m, t, par, nil);
  }

  class Table<R(!new)> {
    /** Where the half circle starts, if the keys are in one. */
    ghost const base: int
    const dict: D.Dict
    /** The records by node, by rank, and the key each rank was filed under. */
    var data: map<Ref, R>
    ghost var recs: map<int, R>
    ghost var names: map<int, int>

    /** What holds for any keys: a linked dictionary over dict_int_cmp with a record at every node. */
    ghost predicate Linked()
      reads this, dict, dict.heap
    {
      dict.Linked() && !dict.dupes && dict.compare == IntCmp && forall e | e in Inorder(dict.tree) :: e.n in data
    }

    /** The keys lie in the half circle, and the records are a map from ranks. */
    ghost predicate Valid()
      reads this, dict, dict.heap
    {
      Linked() && Tied(base, Inorder(dict.tree), data, recs, names)
    }

    constructor (ghost base: int)
      ensures Valid() && recs == map[] && names == map[] && this.base == base && dict.tree == Leaf
      ensures fresh(dict) && fresh(dict.heap)
    {
      var h := new D.Heap(1);
      this.base := base;
      dict := new D.Dict(h, 0, IntCmp);
      data, recs, names := map[], map[], map[];
      new;
      TiedNone(base, data);
    }

    /** The node is the one for this key. */
    ghost predicate NodeFor(n: Ref, key: int)
      reads this, dict
    {
      exists i :: IsAt(base, Inorder(dict.tree), key, i) && Inorder(dict.tree)[i].n == n
    }

    /** dict_lookup: what the search reaches; in a half circle, the node of the key's rank, or NULL. */
    method Find(key: int) returns (n: Ref)
      requires Linked()
      ensures n == Search(IntCmp, dict.tree, key) && (n != NULL ==> n in data && n in Nodes(dict.tree))
      ensures Valid() && Near(base, key) ==>
        && (n == NULL <==> Rank(base, key) !in recs)
        && (n != NULL ==> NodeFor(n, key) && n in data && data[n] == recs[Rank(base, key)])
    {
      hide Tied, Rank, Near, Search, RedBlack;
      ghost var s, x, t := Inorder(dict.tree), Top, Leaf;
      NodesNotNull(dict.heap.View(), dict.tree, dict.nil, dict.nil);
      n, x, t := dict.Seek(key);
      if n != NULL { FoundNode(x, t); }
      if Valid() && Near(base, key) {
        TiedParts(base, s, data, recs, names);
        NearTree(base, dict.tree);
        SearchRank(base, dict.tree, key);
        TiedAbsent(base, s, data, recs, names, key);
        if n != NULL {
          var e :| e in s && e.n == n && Rank(base, e.k) == Rank(base, key);
          TiedPresent(base, s, data, recs, names, key, e);
        }
      }
    }

    /** dict_alloc_insert: a new node where the search for a place ends. */
    method AllocInsert(key: int, r: R) returns (n: Ref)
      requires Linked()
      modifies this, dict, dict.heap
      ensures Linked() && dict.tree == Inserted(IntCmp, old(dict.tree), n, key)
      ensures data == old(data)[n := r] && n !in old(Nodes(dict.tree)) && Entry(n, key) in Inorder(dict.tree)
      ensures forall e | e in old(Inorder(dict.tree)) :: e in Inorder(dict.tree)
      ensures old(Valid()) && Near(base, key) && Rank(base, key) !in old(recs) ==>
        && Valid() && recs == old(recs)[Rank(base, key) := r] && names == old(names)[Rank(base, key) := key]
        && NodeFor(n, key)
      ensures n in data && data[n] == r
    {
      hide Tied, Rank, Near, Good, RedBlack, Inserted, Hole, D.Dict.Linked;
      ghost var s, t0, x := Inorder(dict.tree), dict.tree, Hole(IntCmp, Top, dict.tree, key);
      ghost var wasValid := Valid();
      n := Alloc();
      OtherNodes(dict.tree, n);
      HoleEntries(IntCmp, t0, key, n);
      dict.File(n, key);
      data := data[n := r];
      if wasValid && Near(base, key) && Rank(base, key) !in recs {
        TiedFiled(base, t0, old(data), recs, names, key, n, r);
        recs, names := recs[Rank(base, key) := r], names[Rank(base, key) := key];
      }
    }

    /** A new node, which belongs to no tree yet. */
    method Alloc() returns (n: Ref)
      requires dict.Linked()
      modifies dict.heap
      ensures dict.Linked() && dict.heap.View().Has(n) && n != dict.nil && n !in Nodes(dict.tree)
    {
      hide Inorder, RedBlack;
      ghost var m := dict.heap.View();
      NodesAreCells(m, dict.tree, dict.nil, dict.nil);
      n := dict.heap.Alloc();
      GoodGrown(m, dict.heap.View(), dict.tree, dict.nil);
    }

    /** Changes the record of a node. */
    method Put(n: Ref, r: R, ghost key: int)
      requires Linked()
      modifies `data, `recs
      ensures Linked() && data == old(data)[n := r]
      ensures old(Valid()) && old(NodeFor(n, key)) ==>
        Valid() && Rank(base, key) in old(recs) && recs == old(recs)[Rank(base, key) := r]
    {
      hide Tied, Rank, D.Dict.Linked;
      ghost var s := Inorder(dict.tree);
      ghost var wasValid := Valid();
      if wasValid && NodeFor(n, key) {
        ghost var i :| IsAt(base, s, key, i) && s[i].n == n;
        TiedPut(base, s, data, recs, names, key, i, r);
        recs := recs[Rank(base, key) := r];
      }
      data := data[n := r];
    }

    /** The keys in dictionary order. */
    ghost function Keys(): seq<int>
      reads this, dict
    {
      KeysOf(Inorder(dict.tree))
    }

    /** dict_first and dict_next: the nodes in order, as many as dict_count says. */
    method Walk() returns (nodes: seq<Ref>)
      requires Linked()
      ensures |nodes| == |Keys()| == dict.nodecount
      ensures forall i | 0 <= i < |nodes| :: nodes[i] in data && 0 <= nodes[i] < |dict.heap.key|
      ensures forall i | 0 <= i < |nodes| :: dict.heap.key[nodes[i]] == Keys()[i]
      ensures Valid() ==>
        && |nodes| == |recs|
        && (forall i | 0 <= i < |nodes| ::
              Rank(base, Keys()[i]) in recs && data[nodes[i]] == recs[Rank(base, Keys()[i])] && names[Rank(base, Keys()[i])] == Keys()[i])
        && (forall i, j | 0 <= i < j < |nodes| :: Rank(base, Keys()[i]) < Rank(base, Keys()[j]))
        && (forall h | h in names :: names[h] in Keys())
    {
      hide Tied, Rank, Near, Good, RedBlack;
      ghost var s := Inorder(dict.tree);
      nodes := dict.Process();
      DictVerify.GoodKeys(dict.heap.View(), dict.tree, dict.nil);
      assert forall i | 0 <= i < |s| :: s[i] in s;
      if Valid() { TiedOrder(base, s, data, recs, names); }
    }
  }

  /** The node that a search stops at is one of the tree's, with its entry. */
  lemma FoundNode(x: Ctx, t: Tree)
    requires t.Node?
    ensures t.n in Nodes(Plug(x, t)) && Entry(t.n, t.k) in Inorder(Plug(x, t))
  {
    CtxNodesPlug(x, t);
    PlugInorder(x, t);
    assert Entry(t.n, t.k) in Inorder(t);
  }

  /** Filing under a new rank keeps one entry for each rank. */
  lemma TiedFiled<R(!new)>(base: int, t: Tree, data: map<Ref, R>, recs: map<int, R>, names: map<int, int>, key: int, n: Ref, r: R)
    requires Tied(base, Inorder(t), data, recs, names) && Near(base, key) && Rank(base, key) !in recs
    requires forall i | 0 <= i < |Inorder(t)| :: Inorder(t)[i].n != n
    ensures var s := Rebalance.Contents(Hole(IntCmp, Top, t, key), Node(Leaf, n, Red, key, Leaf));
      && Tied(base, s, data[n := r], recs[Rank(base, key) := r], names[Rank(base, key) := key])
      && exists i :: IsAt(base, s, key, i) && s[i].n == n
  {
    hide Tied, Rank, Near, Hole;
    var x, e := Hole(IntCmp, Top, t, key), Entry(n, key);
    HoleEntries(IntCmp, t, key, n);
    TiedParts(base, Inorder(t), data, recs, names);
    NearTree(base, t);
    TiedAbsent(base, Inorder(t), data, recs, names, key);
    HoleRank(base, Top, t, key);
    var a, b := Before(x), After(x);
    assert forall i | 0 <= i < |a| :: a[i] in a;
    assert forall i | 0 <= i < |b| :: b[i] in b;
    TiedAdd(base, a, b, e, data, recs, names, r);
    assert (a + [e] + b)[|a|] == e;
    assert IsAt(base, a + [e] + b, key, |a|);
  }
}
