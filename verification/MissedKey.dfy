/**
 * A run of pass 1b that leaves the half circle: eight clusters are filed one
 * after the other, and then one of them is not found any more, so that a
 * further claim on it files a second record.
 */
module MissedKey {
  import opened RedBlackTree
  import opened NodeStore
  import opened NodeSurgery
  import opened Rebalance
  import opened DictRepair
  import opened DictShape
  import opened IntKeys
  import opened DupIndex
  import DictVerify

  const K1: int := 0x4000_0000
  const K2: int := 0
  const K3: int := 0x8000_0001
  const K4: int := 0xB000_0000
  const K5: int := 0xB800_0000
  const K6: int := 0xBA00_0000
  const K7: int := 0xBB00_0000
  const K8: int := 0xBC00_0000

  function One(n: Ref, c: Color, k: int): Tree { Node(Leaf, n, c, k, Leaf) }

  // ----- the dictionary after each claim, by the nodes it was given -----

  function T2(a: Ref, b: Ref): Tree { Node(One(b, Red, K2), a, Black, K1, Leaf) }
  function T3(a: Ref, b: Ref, c: Ref): Tree { Node(One(b, Red, K2), a, Black, K1, One(c, Red, K3)) }
  function T4(a: Ref, b: Ref, c: Ref, d: Ref): Tree {
    Node(One(b, Black, K2), a, Black, K1, Node(Leaf, c, Black, K3, One(d, Red, K4)))
  }
  function T5(a: Ref, b: Ref, c: Ref, d: Ref, e: Ref): Tree {
    Node(One(b, Black, K2), a, Black, K1, Node(One(c, Red, K3), d, Black, K4, One(e, Red, K5)))
  }
  function T6(a: Ref, b: Ref, c: Ref, d: Ref, e: Ref, f: Ref): Tree {
    Node(One(b, Black, K2), a, Black, K1, Node(One(c, Black, K3), d, Red, K4, Node(Leaf, e, Black, K5, One(f, Red, K6))))
  }
  function T7(a: Ref, b: Ref, c: Ref, d: Ref, e: Ref, f: Ref, g: Ref): Tree {
    Node(One(b, Black, K2), a, Black, K1,
         Node(One(c, Black, K3), d, Red, K4, Node(One(e, Red, K5), f, Black, K6, One(g, Red, K7))))
  }
  function T8(a: Ref, b: Ref, c: Ref, d: Ref, e: Ref, f: Ref, g: Ref, h: Ref): Tree {
    Node(Node(One(b, Black, K2), a, Red, K1, One(c, Black, K3)), d, Black, K4,
         Node(One(e, Black, K5), f, Red, K6, Node(Leaf, g, Black, K7, One(h, Red, K8))))
  }

  /** How the keys compare on the ways down. */
  lemma Compared()
    ensures IntCmp(K2, K1) < 0
    ensures forall k | k in [K3, K4, K5, K6, K7, K8] :: IntCmp(k, K1) > 0
    ensures forall k | k in [K4, K5, K6, K7, K8] :: IntCmp(k, K3) > 0
    ensures forall k | k in [K5, K6, K7, K8] :: IntCmp(k, K4) > 0
    ensures forall k | k in [K6, K7, K8] :: IntCmp(k, K5) > 0
    ensures IntCmp(K7, K6) > 0 && IntCmp(K8, K6) > 0 && IntCmp(K8, K7) > 0
    ensures forall k | k in [K4, K6, K7, K8] :: IntCmp(K2, k) > 0
  {
  }

  lemma OneFacts(n: Ref, c: Color, k: int, key: int, x: Ctx)
    ensures var t := One(n, c, k);
      && Search(IntCmp, t, key) == (if IntCmp(key, k) == 0 then n else NULL)
      && Hole(IntCmp, x, t, key) == (if IntCmp(key, k) < 0 then InLeft(x, n, c, k, Leaf) else InRight(x, Leaf, n, c, k))
  {
    hide IntCmp;
  }

  lemma Step1(a: Ref)
    ensures Search(IntCmp, Leaf, K1) == NULL && Inserted(IntCmp, Leaf, a, K1) == One(a, Black, K1)
  {
    ClimbedEnds(Top, One(a, Red, K1));
  }

  lemma Step2(a: Ref, b: Ref)
    ensures Search(IntCmp, One(a, Black, K1), K2) == NULL && Inserted(IntCmp, One(a, Black, K1), b, K2) == T2(a, b)
  {
    hide IntCmp, Climbed;
    Compared();
    OneFacts(a, Black, K1, K2, Top);
    ClimbedEnds(InLeft(Top, a, Black, K1, Leaf), One(b, Red, K2));
  }

  lemma Step3(a: Ref, b: Ref, c: Ref)
    ensures Search(IntCmp, T2(a, b), K3) == NULL && Inserted(IntCmp, T2(a, b), c, K3) == T3(a, b, c)
  {
    hide IntCmp, Climbed;
    Compared();
    var x := InRight(Top, One(b, Red, K2), a, Black, K1);
    assert Search(IntCmp, Leaf, K3) == NULL && Hole(IntCmp, x, Leaf, K3) == x;
    ClimbedEnds(x, One(c, Red, K3));
  }

  lemma Step4(a: Ref, b: Ref, c: Ref, d: Ref)
    ensures Search(IntCmp, T3(a, b, c), K4) == NULL && Inserted(IntCmp, T3(a, b, c), d, K4) == T4(a, b, c, d)
  {
    hide IntCmp, Climbed;
    Compared();
    var y := InRight(Top, One(b, Red, K2), a, Black, K1);
    OneFacts(c, Red, K3, K4, y);
    var x, t := InRight(y, Leaf, c, Red, K3), One(d, Red, K4);
    ClimbedStep(x, t);
    assert Recolored(y, Lift(x, t)) == Paint(T4(a, b, c, d), Red);
    ClimbedEnds(Top, Paint(T4(a, b, c, d), Red));
  }

  lemma Step5(a: Ref, b: Ref, c: Ref, d: Ref, e: Ref)
    ensures Search(IntCmp, T4(a, b, c, d), K5) == NULL && Inserted(IntCmp, T4(a, b, c, d), e, K5) == T5(a, b, c, d, e)
  {
    hide IntCmp, Climbed;
    Compared();
    var z := InRight(Top, One(b, Black, K2), a, Black, K1);
    var y := InRight(z, Leaf, c, Black, K3);
    OneFacts(d, Red, K4, K5, y);
    var x, t := InRight(y, Leaf, d, Red, K4), One(e, Red, K5);
    assert Search(IntCmp, T4(a, b, c, d).r, K5) == NULL && Hole(IntCmp, z, T4(a, b, c, d).r, K5) == x;
    ClimbedStep(x, t);
  }

  lemma Step6(a: Ref, b: Ref, c: Ref, d: Ref, e: Ref, f: Ref)
    ensures Search(IntCmp, T5(a, b, c, d, e), K6) == NULL && Inserted(IntCmp, T5(a, b, c, d, e), f, K6) == T6(a, b, c, d, e, f)
  {
    hide IntCmp, Climbed;
    Compared();
    var z := InRight(Top, One(b, Black, K2), a, Black, K1);
    var y := InRight(z, One(c, Red, K3), d, Black, K4);
    OneFacts(e, Red, K5, K6, y);
    var x, t := InRight(y, Leaf, e, Red, K5), One(f, Red, K6);
    assert Search(IntCmp, T5(a, b, c, d, e).r, K6) == NULL && Hole(IntCmp, z, T5(a, b, c, d, e).r, K6) == x;
    ClimbedStep(x, t);
    ClimbedEnds(z, Recolored(y, Lift(x, t)));
  }

  lemma Step7(a: Ref, b: Ref, c: Ref, d: Ref, e: Ref, f: Ref, g: Ref)
    ensures Search(IntCmp, T6(a, b, c, d, e, f), K7) == NULL
    ensures Inserted(IntCmp, T6(a, b, c, d, e, f), g, K7) == T7(a, b, c, d, e, f, g)
  {
    hide IntCmp, Climbed;
    Compared();
    var v := InRight(Top, One(b, Black, K2), a, Black, K1);
    var z := InRight(v, One(c, Black, K3), d, Red, K4);
    var y := InRight(z, Leaf, e, Black, K5);
    OneFacts(f, Red, K6, K7, y);
    var x, t := InRight(y, Leaf, f, Red, K6), One(g, Red, K7);
    var u := T6(a, b, c, d, e, f);
    assert Search(IntCmp, u.r.r, K7) == NULL && Hole(IntCmp, z, u.r.r, K7) == x;
    assert Search(IntCmp, u.r, K7) == NULL && Hole(IntCmp, v, u.r, K7) == x;
    ClimbedStep(x, t);
    var r := RotL(Poised(y, Lift(x, t)));
    assert r == Node(One(e, Red, K5), f, Black, K6, One(g, Red, K7));
    assert Plug(z, r) == Plug(v, Lift(z, r)) == Plug(Top, Lift(v, Lift(z, r)));
  }

  lemma Step8(a: Ref, b: Ref, c: Ref, d: Ref, e: Ref, f: Ref, g: Ref, h: Ref)
    ensures Search(IntCmp, T7(a, b, c, d, e, f, g), K8) == NULL
    ensures Inserted(IntCmp, T7(a, b, c, d, e, f, g), h, K8) == T8(a, b, c, d, e, f, g, h)
  {
    hide IntCmp, Climbed;
    Compared();
    var v := InRight(Top, One(b, Black, K2), a, Black, K1);
    var z := InRight(v, One(c, Black, K3), d, Red, K4);
    var y := InRight(z, One(e, Red, K5), f, Black, K6);
    OneFacts(g, Red, K7, K8, y);
    var x, t := InRight(y, Leaf, g, Red, K7), One(h, Red, K8);
    var u := T7(a, b, c, d, e, f, g);
    assert Search(IntCmp, u.r.r, K8) == NULL && Hole(IntCmp, z, u.r.r, K8) == x;
    assert Search(IntCmp, u.r, K8) == NULL && Hole(IntCmp, v, u.r, K8) == x;
    ClimbedStep(x, t);
    var p := Recolored(y, Lift(x, t));
    assert p == Node(One(e, Black, K5), f, Red, K6, Node(Leaf, g, Black, K7, One(h, Red, K8)));
    ClimbedStep(z, p);
  }

  /** Key 0 is in the tree, and the search does not find it. */
  lemma Missed(a: Ref, b: Ref, c: Ref, d: Ref, e: Ref, f: Ref, g: Ref, h: Ref)
    ensures var t := T8(a, b, c, d, e, f, g, h); Entry(b, 0) in Inorder(t) && Search(IntCmp, t, 0) == NULL
  {
    hide IntCmp;
    Compared();
    var t := T8(a, b, c, d, e, f, g, h);
    OneFacts(h, Red, K8, 0, Top);
    assert Search(IntCmp, t.r.r, 0) == NULL && Search(IntCmp, t.r, 0) == NULL;
    assert Entry(b, 0) in Inorder(t.l.l) && Entry(b, 0) in Inorder(t.l);
  }

  /** Neighbours are in order, so dict_verify has nothing to object to. */
  lemma Unsuspicious(a: Ref, b: Ref, c: Ref, d: Ref, e: Ref, f: Ref, g: Ref, h: Ref)
    ensures DictVerify.Chained(IntCmp, false, Inorder(T8(a, b, c, d, e, f, g, h)))
  {
    hide IntCmp;
    Compared();
    var t := T8(a, b, c, d, e, f, g, h);
    assert Inorder(t.l.l) == [Entry(b, K2)] && Inorder(t.l.r) == [Entry(c, K3)] && Inorder(t.r.l) == [Entry(e, K5)];
    assert Inorder(t.r.r.r) == [Entry(h, K8)] && Inorder(t.r.r) == [Entry(g, K7), Entry(h, K8)];
    assert Inorder(t.l) == [Entry(b, K2), Entry(a, K1), Entry(c, K3)];
    assert Inorder(t.r) == [Entry(e, K5), Entry(f, K6), Entry(g, K7), Entry(h, K8)];
    Neighbours();
  }

  lemma Neighbours()
    ensures IntCmp(K2, K1) < 0 && IntCmp(K1, K3) < 0 && IntCmp(K3, K4) < 0 && IntCmp(K4, K5) < 0
    ensures IntCmp(K5, K6) < 0 && IntCmp(K6, K7) < 0 && IntCmp(K7, K8) < 0
  {
  }

  /**
   * Inode 11 claims the eight clusters, then inode 12 claims cluster 0 as
   * well: it gets a record of its own, beside the one that is there.
   */
  method MissedRun() returns (index: Index, ghost b: Ref, ghost n: Ref)
    ensures index.calls == [Claim(11, K1), Claim(11, K2), Claim(11, K3), Claim(11, K4),
                            Claim(11, K5), Claim(11, K6), Claim(11, K7), Claim(11, K8), Claim(12, 0)]
    ensures n != b && {Entry(b, 0), Entry(n, 0)} <= (set e | e in Inorder(index.clusters.dict.tree))
    ensures b in index.clusters.data && index.clusters.data[b] == DupCluster(1, [11])
    ensures n in index.clusters.data && index.clusters.data[n] == DupCluster(1, [12])
  {
    hide Index.Linked, Index.Valid, Search, Inserted, Nodes;
    index := new Index(0, 0);
    ghost var a, c, d, e, f, g, h;
    Step1(NULL);
    a := FileNew(index, 11, K1, NULL);
    Step1(a);
    Step2(a, NULL);
    b := FileNew(index, 11, K2, a);
    Step2(a, b);
    Step3(a, b, NULL);
    OnTheLeft(T2(a, b), b);
    c := FileNew(index, 11, K3, b);
    Step3(a, b, c);
    Step4(a, b, c, NULL);
    OnTheLeft(T3(a, b, c), b);
    d := FileNew(index, 11, K4, b);
    Step4(a, b, c, d);
    e, f, g, h := LastFour(index, a, b, c, d);
    Missed(a, b, c, d, e, f, g, h);
    OnTheLeft(T8(a, b, c, d, e, f, g, h), b);
    n := FileNew(index, 12, 0, b);
    InsertedEntries(IntCmp, T8(a, b, c, d, e, f, g, h), n, 0);
  }

  /** The second half of the run. */
  method LastFour(index: Index, ghost a: Ref, ghost b: Ref, ghost c: Ref, ghost d: Ref)
    returns (ghost e: Ref, ghost f: Ref, ghost g: Ref, ghost h: Ref)
    requires index.Linked() && index.clusters.dict.tree == T4(a, b, c, d)
    requires b in index.clusters.data
    modifies index, index.clusters, index.clusters.dict, index.clusters.dict.heap
    modifies index.inodes, index.inodes.dict, index.inodes.dict.heap
    ensures index.Linked() && index.clusters.dict.tree == T8(a, b, c, d, e, f, g, h)
    ensures b in index.clusters.data && index.clusters.data[b] == old(index.clusters.data[b])
    ensures index.calls == old(index.calls) + [Claim(11, K5), Claim(11, K6), Claim(11, K7), Claim(11, K8)]
  {
    hide Index.Linked, Index.Valid, Search, Inserted, Nodes;
    Step5(a, b, c, d, NULL);
    OnTheLeft(T4(a, b, c, d), b);
    e := FileNew(index, 11, K5, b);
    Step5(a, b, c, d, e);
    Step6(a, b, c, d, e, NULL);
    OnTheLeft(T5(a, b, c, d, e), b);
    f := FileNew(index, 11, K6, b);
    Step6(a, b, c, d, e, f);
    Step7(a, b, c, d, e, f, NULL);
    OnTheLeft(T6(a, b, c, d, e, f), b);
    g := FileNew(index, 11, K7, b);
    Step7(a, b, c, d, e, f, g);
    Step8(a, b, c, d, e, f, g, NULL);
    OnTheLeft(T7(a, b, c, d, e, f, g), b);
    h := FileNew(index, 11, K8, b);
    Step8(a, b, c, d, e, f, g, h);
  }

  lemma OnTheLeft(t: Tree, b: Ref)
    requires t.Node? && t.l.Node? && (t.l.n == b || (t.l.l.Node? && t.l.l.n == b))
    ensures b in Nodes(t)
  {
    assert Nodes(t) == Nodes(t.l) + {t.n} + Nodes(t.r) && Nodes(t.l) == Nodes(t.l.l) + {t.l.n} + Nodes(t.l.r);
  }

  /** A claim on a cluster that the lookup does not find; the record of another node stays. */
  method FileNew(index: Index, ino: nat, cluster: nat, ghost keep: Ref) returns (ghost n: Ref)
    requires index.Linked() && Search(IntCmp, index.clusters.dict.tree, cluster) == NULL
    modifies index, index.clusters, index.clusters.dict, index.clusters.dict.heap
    modifies index.inodes, index.inodes.dict, index.inodes.dict.heap
    ensures index.Linked() && index.calls == old(index.calls) + [Claim(ino, cluster)]
    ensures index.clusters.dict.tree == Inserted(IntCmp, old(index.clusters.dict.tree), n, cluster)
    ensures n in index.clusters.data && index.clusters.data[n] == DupCluster(1, [ino])
    ensures keep in old(index.clusters.data) && keep in old(Nodes(index.clusters.dict.tree)) ==>
      n != keep && keep in index.clusters.data && index.clusters.data[keep] == old(index.clusters.data[keep])
  {
    hide Index.Linked, Index.Valid, Search, Inserted, Nodes;
    ghost var cwas, i, iwas;
    n, cwas, i, iwas := index.AddDupe(Claim(ino, cluster));
  }
}
