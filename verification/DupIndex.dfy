/**
 * The two-way index of multiply-claimed clusters that pass 1b builds in two
 * dictionaries, and the list of sharing inodes that pass 1d draws from it.
 */
module DupIndex {
  import opened Words
  import opened RedBlackTree
  import opened NodeStore
  import opened IntKeys
  import opened KeyTable
  import opened DictShape

  const ROOT_INO: nat := 2
  const BAD_INO: nat := 1
  const RESIZE_INO: nat := 7

  /** For a cluster: who claims it, latest first, and how many claims there are. */
  datatype DupCluster = DupCluster(numBad: nat, inodes: seq<nat>)

  /** For an inode: which clusters it shares, latest first, and how many. */
  datatype DupInode = DupInode(dir: nat, numDup: nat, clusters: seq<nat>)

  /** A claim: an inode and a cluster. */
  datatype Claim = Claim(ino: nat, cluster: nat)

  // ----- what the claims say -----

  /** The inodes that claim this very cluster, latest first. */
  function Claimants(calls: seq<Claim>, c: nat): seq<nat> {
    if calls == [] then []
    else
      var p := calls[|calls| - 1];
      (if p.cluster == c then [p.ino] else []) + Claimants(calls[..|calls| - 1], c)
  }

  /** The clusters that this inode claims, latest first. */
  function ClustersOf(calls: seq<Claim>, i: nat): seq<nat> {
    if calls == [] then []
    else
      var p := calls[|calls| - 1];
      (if p.ino == i then [p.cluster] else []) + ClustersOf(calls[..|calls| - 1], i)
  }

  /** The inodes that claim a cluster of this rank, latest first: what the dictionary can tell apart. */
  function Holders(base: int, calls: seq<Claim>, h: int): seq<nat> {
    if calls == [] then []
    else
      var p := calls[|calls| - 1];
      (if Rank(base, p.cluster) == h then [p.ino] else []) + Holders(base, calls[..|calls| - 1], h)
  }

  lemma CallsGrow(base: int, calls: seq<Claim>, p: Claim)
    ensures forall c :: Claimants(calls + [p], c) == (if p.cluster == c then [p.ino] else []) + Claimants(calls, c)
    ensures forall i :: ClustersOf(calls + [p], i) == (if p.ino == i then [p.cluster] else []) + ClustersOf(calls, i)
    ensures forall h :: Holders(base, calls + [p], h) == (if Rank(base, p.cluster) == h then [p.ino] else []) + Holders(base, calls, h)
  {
    assert (calls + [p])[..|calls|] == calls;
  }

  /** No two different clusters are claimed that differ by a multiple of 2^32. */
  ghost predicate NoCollision(calls: seq<Claim>) {
    forall p, q | p in calls && q in calls :: Congruent(p.cluster, q.cluster) ==> p.cluster == q.cluster
  }

  /** Every cluster's record holds the claims on that cluster and no others. */
  ghost predicate RecordsRight(base: int, calls: seq<Claim>) {
    forall p | p in calls :: Holders(base, calls, Rank(base, p.cluster)) == Claimants(calls, p.cluster)
  }

  /** That is so exactly when no two claimed clusters collide. */
  lemma RecordsExactly(base: int, calls: seq<Claim>)
    ensures RecordsRight(base, calls) <==> NoCollision(calls)
  {
    hide Rank, Holders, Claimants, Congruent;
    if NoCollision(calls) {
      forall p | p in calls
        ensures Holders(base, calls, Rank(base, p.cluster)) == Claimants(calls, p.cluster)
      {
        HoldersAre(base, calls, p.cluster);
      }
    } else {
      var p, q :| p in calls && q in calls && Congruent(p.cluster, q.cluster) && p.cluster != q.cluster;
      HoldersMore(base, calls, p.cluster, q);
      assert Holders(base, calls, Rank(base, p.cluster)) != Claimants(calls, p.cluster);
    }
  }

  lemma {:induction false} HoldersAre(base: int, calls: seq<Claim>, c: nat)
    requires forall q | q in calls :: Congruent(q.cluster, c) ==> q.cluster == c
    ensures Holders(base, calls, Rank(base, c)) == Claimants(calls, c)
  {
    hide Rank, Congruent;
    if calls != [] {
      var p := calls[|calls| - 1];
      SameRank(base, p.cluster, c);
      HoldersAre(base, calls[..|calls| - 1], c);
    }
  }

  /** A colliding claim makes the record longer. */
  lemma {:induction false} HoldersMore(base: int, calls: seq<Claim>, c: nat, q: Claim)
    ensures |Holders(base, calls, Rank(base, c))| >= |Claimants(calls, c)|
    ensures q in calls && Congruent(c, q.cluster) && q.cluster != c ==>
      |Holders(base, calls, Rank(base, c))| > |Claimants(calls, c)|
  {
    hide Rank, Congruent;
    if calls != [] {
      HoldersMore(base, calls[..|calls| - 1], c, q);
      SameRank(base, c, q.cluster);
      assert q in calls ==> q == calls[|calls| - 1] || q in calls[..|calls| - 1];
    }
  }

  /** Two inodes claim a common cluster; they claim clusters that the dictionary takes for one. */
  ghost predicate Sharing(calls: seq<Claim>, a: nat, b: nat) {
    exists c: nat :: Claim(a, c) in calls && Claim(b, c) in calls
  }

  ghost predicate Meeting(calls: seq<Claim>, a: nat, b: nat) {
    exists c: nat, d: nat :: Claim(a, c) in calls && Claim(b, d) in calls && Congruent(c, d)
  }

  lemma MeetingIsSharing(calls: seq<Claim>, a: nat, b: nat)
    requires NoCollision(calls)
    ensures Meeting(calls, a, b) <==> Sharing(calls, a, b)
  {
    if Meeting(calls, a, b) {
      var c: nat, d: nat :| Claim(a, c) in calls && Claim(b, d) in calls && Congruent(c, d);
      assert Claim(a, c).cluster == Claim(b, d).cluster;
    }
    if Sharing(calls, a, b) {
      var c: nat :| Claim(a, c) in calls && Claim(b, c) in calls;
      assert Congruent(c, c);
    }
  }

  lemma {:induction false} ClaimantsMean(base: int, calls: seq<Claim>, h: int, x: nat)
    ensures x in Holders(base, calls, h) <==> exists c: nat :: Claim(x, c) in calls && Rank(base, c) == h
  {
    hide Rank;
    if calls != [] {
      var a, p := calls[..|calls| - 1], calls[|calls| - 1];
      ClaimantsMean(base, a, h, x);
      if x in Holders(base, calls, h) && p.ino == x && Rank(base, p.cluster) == h {
        assert Claim(x, p.cluster) in calls;
      }
      assert forall c: nat :: Claim(x, c) in calls <==> Claim(x, c) in a || Claim(x, c) == p;
    }
  }

  lemma {:induction false} ClustersMean(calls: seq<Claim>, i: nat, c: nat)
    ensures c in ClustersOf(calls, i) <==> Claim(i, c) in calls
  {
    if calls != [] {
      var a, p := calls[..|calls| - 1], calls[|calls| - 1];
      ClustersMean(a, i, c);
      assert Claim(i, c) in calls <==> Claim(i, c) in a || Claim(i, c) == p;
    }
  }

  // ----- the dictionaries hold the claims -----

  /** The keys are such that both dictionaries are in order; inode numbers are 32-bit words. */
  ghost predicate Fitting(cbase: int, ibase: int, p: Claim) {
    Near(cbase, p.cluster) && Near(ibase, p.ino) && p.ino < U32
  }

  ghost predicate ClustersHold(base: int, calls: seq<Claim>, recs: map<int, DupCluster>) {
    forall h: int ::
      && (h in recs <==> Holders(base, calls, h) != [])
      && (h in recs ==> recs[h] == DupCluster(|Holders(base, calls, h)|, Holders(base, calls, h)))
  }

  function Dir(ino: nat): nat { if ino == ROOT_INO then ROOT_INO else 0 }

  ghost predicate InodesHold(base: int, calls: seq<Claim>, recs: map<int, DupInode>, names: map<int, int>) {
    && (forall h | h in names :: 0 <= names[h] < U32 && Rank(base, names[h]) == h && ClustersOf(calls, names[h]) != [])
    && recs.Keys == names.Keys
    && (forall h | h in recs :: recs[h] == DupInode(Dir(names[h]), |ClustersOf(calls, names[h])|, ClustersOf(calls, names[h])))
    && (forall i: nat | i < U32 && ClustersOf(calls, i) != [] :: Rank(base, i) in names && names[Rank(base, i)] == i)
  }

  lemma ClustersHoldGrow(base: int, calls: seq<Claim>, recs: map<int, DupCluster>, p: Claim, was: DupCluster)
    requires ClustersHold(base, calls, recs)
    requires was == if Rank(base, p.cluster) in recs then recs[Rank(base, p.cluster)] else DupCluster(0, [])
    ensures ClustersHold(base, calls + [p], recs[Rank(base, p.cluster) := DupCluster(was.numBad + 1, [p.ino] + was.inodes)])
  {
    hide Rank, Holders;
    CallsGrow(base, calls, p);
  }

  lemma InodesHoldGrow(base: int, calls: seq<Claim>, recs: map<int, DupInode>, names: map<int, int>, p: Claim, was: DupInode)
    requires InodesHold(base, calls, recs, names) && p.ino < U32
    requires was == if Rank(base, p.ino) in recs then recs[Rank(base, p.ino)] else DupInode(Dir(p.ino), 0, [])
    ensures Rank(base, p.ino) in names ==> names[Rank(base, p.ino)] == p.ino
    ensures InodesHold(base, calls + [p], recs[Rank(base, p.ino) := DupInode(was.dir, was.numDup + 1, [p.cluster] + was.clusters)],
                       names[Rank(base, p.ino) := p.ino])
  {
    hide Rank, ClustersOf;
    CallsGrow(base, calls, p);
    var h := Rank(base, p.ino);
    forall i: nat | i < U32 && Rank(base, i) == h
      ensures i == p.ino
    {
      SameRank(base, i, p.ino);
      SmallDiff(i, p.ino);
    }
    var recs', names' := recs[h := DupInode(was.dir, was.numDup + 1, [p.cluster] + was.clusters)], names[h := p.ino];
    assert h in names ==> 0 <= names[h] < U32 && Rank(base, names[h]) == h;
    assert recs'.Keys == recs.Keys + {h} && names'.Keys == names.Keys + {h};
    forall g | g in names'
      ensures 0 <= names'[g] < U32 && Rank(base, names'[g]) == g && ClustersOf(calls + [p], names'[g]) != []
      ensures recs'[g] == DupInode(Dir(names'[g]), |ClustersOf(calls + [p], names'[g])|, ClustersOf(calls + [p], names'[g]))
    {
      if g != h { assert names'[g] == names[g] && names[g] != p.ino; }
    }
  }

  /**
   * A record found by a search, or a new one where the search for a place
   * ends, gets a new value; nothing else in the dictionary changes.
   */
  ghost predicate Entered<R(!new)>(t: Tree, data: map<Ref, R>, t': Tree, data': map<Ref, R>, key: int, n: Ref, blank: R, was: R, now: R) {
    && data' == data[n := now]
    && if Search(IntCmp, t, key) != NULL
       then n == Search(IntCmp, t, key) && t' == t && n in data && was == data[n]
       else n !in Nodes(t) && t' == Inserted(IntCmp, t, n, key) && was == blank
  }

  class Index {
    const clusters: Table<DupCluster>
    const inodes: Table<DupInode>
    var foundDir: nat
    /** The claims made so far. */
    ghost var calls: seq<Claim>

    ghost predicate Apart()
      reads this
    {
      clusters.dict != inodes.dict && clusters.dict.heap != inodes.dict.heap && (clusters as object) != (inodes as object)
    }

    /** What holds for any claims. */
    ghost predicate Linked()
      reads this, clusters, clusters.dict, clusters.dict.heap, inodes, inodes.dict, inodes.dict.heap
    {
      Apart() && clusters.Linked() && inodes.Linked()
    }

    /** The claims' keys lie in half circles, and both dictionaries hold the claims. */
    ghost predicate Valid()
      reads this, clusters, clusters.dict, clusters.dict.heap, inodes, inodes.dict, inodes.dict.heap
    {
      && Apart() && clusters.Valid() && inodes.Valid()
      && (forall p | p in calls :: Fitting(clusters.base, inodes.base, p))
      && ClustersHold(clusters.base, calls, clusters.recs)
      && InodesHold(inodes.base, calls, inodes.recs, inodes.names)
      && foundDir == if ClustersOf(calls, ROOT_INO) != [] then 1 else 0
    }

    /** Two dictionaries over dict_int_cmp. */
    constructor (ghost cbase: int, ghost ibase: int)
      ensures Valid() && Linked() && calls == [] && clusters.base == cbase && inodes.base == ibase
      ensures clusters.dict.tree == Leaf && inodes.dict.tree == Leaf
      ensures fresh(clusters) && fresh(clusters.dict) && fresh(clusters.dict.heap)
      ensures fresh(inodes) && fresh(inodes.dict) && fresh(inodes.dict.heap)
    {
      hide Table.Linked;
      clusters := new Table<DupCluster>(cbase);
      inodes := new Table<DupInode>(ibase);
      foundDir, calls := 0, [];
    }

    /** The first half of add_dupe: the inode goes to the head of the list of the record the lookup finds, or of a new one. */
    method FileCluster(p: Claim) returns (ghost n: Ref, ghost was: DupCluster)
      requires Apart() && clusters.Linked()
      modifies clusters, clusters.dict, clusters.dict.heap
      ensures clusters.Linked()
      ensures Entered(old(clusters.dict.tree), old(clusters.data), clusters.dict.tree, clusters.data, p.cluster, n,
                      DupCluster(0, []), was, DupCluster(was.numBad + 1, [p.ino] + was.inodes))
      ensures old(clusters.Valid()) && Near(clusters.base, p.cluster) && ClustersHold(clusters.base, calls, old(clusters.recs)) ==>
        clusters.Valid() && ClustersHold(clusters.base, calls + [p], clusters.recs)
    {
      hide ClustersHold, Rank, Near, Table.Linked, Tied, Table.NodeFor, Search, Inserted, Nodes;
      var node := clusters.Find(p.cluster);
      var db;
      if node != NULL {
        db := clusters.data[node];
      } else {
        db := DupCluster(0, []);
        node := clusters.AllocInsert(p.cluster, db);
      }
      n, was := node, db;
      if ClustersHold(clusters.base, calls, old(clusters.recs)) && old(clusters.Valid()) && Near(clusters.base, p.cluster) {
        ClustersHoldGrow(clusters.base, calls, old(clusters.recs), p, db);
      }
      clusters.Put(node, DupCluster(db.numBad + 1, [p.ino] + db.inodes), p.cluster);
      ghost var h, now := Rank(clusters.base, p.cluster), DupCluster(db.numBad + 1, [p.ino] + db.inodes);
      assert old(clusters.data)[n := db][n := now] == old(clusters.data)[n := now];
      assert old(clusters.recs)[h := db][h := now] == old(clusters.recs)[h := now];
    }

    /** The second half: the cluster goes to the head of the inode's list. */
    method FileInode(p: Claim) returns (ghost n: Ref, ghost was: DupInode)
      requires Apart() && inodes.Linked()
      modifies `foundDir, inodes, inodes.dict, inodes.dict.heap
      ensures inodes.Linked()
      ensures Entered(old(inodes.dict.tree), old(inodes.data), inodes.dict.tree, inodes.data, p.ino, n,
                      DupInode(if p.ino == 2 then 2 else 0, 0, []), was, DupInode(was.dir, was.numDup + 1, [p.cluster] + was.clusters))
      ensures foundDir == old(foundDir) +
        if p.ino == ROOT_INO && Search(IntCmp, old(inodes.dict.tree), p.ino) == NULL then 1 else 0
      ensures old(inodes.Valid()) && Near(inodes.base, p.ino) && p.ino < U32 &&
              InodesHold(inodes.base, calls, old(inodes.recs), old(inodes.names)) ==>
        && inodes.Valid() && InodesHold(inodes.base, calls + [p], inodes.recs, inodes.names)
        && (Search(IntCmp, old(inodes.dict.tree), p.ino) == NULL <==> ClustersOf(calls, p.ino) == [])
    {
      hide InodesHold, Rank, Near, ClustersOf, Table.Linked, Tied, Table.NodeFor, Search, Inserted, Nodes;
      var node := inodes.Find(p.ino);
      ghost var held := old(inodes.Valid()) && Near(inodes.base, p.ino) && p.ino < U32 &&
                        InodesHold(inodes.base, calls, old(inodes.recs), old(inodes.names));
      if held { InodeKnown(inodes.base, calls, inodes.recs, inodes.names, p.ino); }
      var di;
      if node != NULL {
        di := inodes.data[node];
      } else {
        di := DupInode(0, 0, []);
        if p.ino == ROOT_INO {
          di := di.(dir := ROOT_INO);
          foundDir := foundDir + 1;
        }
        node := inodes.AllocInsert(p.ino, di);
      }
      n, was := node, di;
      ghost var h := Rank(inodes.base, p.ino);
      ghost var now := DupInode(di.dir, di.numDup + 1, [p.cluster] + di.clusters);
      if held { InodesHoldGrow(inodes.base, calls, old(inodes.recs), old(inodes.names), p, di); }
      inodes.Put(node, DupInode(di.dir, di.numDup + 1, [p.cluster] + di.clusters), p.ino);
      assert old(inodes.data)[n := di][n := now] == old(inodes.data)[n := now];
      assert old(inodes.recs)[h := di][h := now] == old(inodes.recs)[h := now];
      if held { assert inodes.names == old(inodes.names)[h := p.ino]; }
    }

    /** add_dupe: for any claim, what the two lookups reach decides; in half circles, both dictionaries gain exactly it. */
    method AddDupe(p: Claim) returns (ghost c: Ref, ghost cwas: DupCluster, ghost i: Ref, ghost iwas: DupInode)
      requires Linked()
      modifies this, clusters, clusters.dict, clusters.dict.heap, inodes, inodes.dict, inodes.dict.heap
      ensures Linked() && calls == old(calls) + [p]
      ensures Entered(old(clusters.dict.tree), old(clusters.data), clusters.dict.tree, clusters.data, p.cluster, c,
                      DupCluster(0, []), cwas, DupCluster(cwas.numBad + 1, [p.ino] + cwas.inodes))
      ensures Entered(old(inodes.dict.tree), old(inodes.data), inodes.dict.tree, inodes.data, p.ino, i,
                      DupInode(if p.ino == 2 then 2 else 0, 0, []), iwas, DupInode(iwas.dir, iwas.numDup + 1, [p.cluster] + iwas.clusters))
      ensures old(Valid()) && Fitting(clusters.base, inodes.base, p) ==> Valid()
    {
      hide ClustersHold, InodesHold, Rank, Near, ClustersOf, Table.Linked, Table.Valid, Entered, Search;
      c, cwas := FileCluster(p);
      i, iwas := FileInode(p);
      CallsGrow(0, calls, p);
      calls := calls + [p];
    }

    /** Any sequence of claims in half circles ends with exactly those claims, in both directions. */
    method AddAll(all: seq<Claim>)
      requires Linked()
      modifies this, clusters, clusters.dict, clusters.dict.heap, inodes, inodes.dict, inodes.dict.heap
      ensures Linked() && calls == old(calls) + all
      ensures old(Valid()) && (forall p | p in all :: Fitting(clusters.base, inodes.base, p)) ==> Valid()
    {
      hide Valid, Linked, Fitting, Entered;
      ghost var fits := forall p | p in all :: Fitting(clusters.base, inodes.base, p);
      assert calls + all[..0] == calls;
      for k := 0 to |all|
        invariant Linked() && calls == old(calls) + all[..k]
        invariant old(Valid()) && fits ==> Valid()
      {
        assert all[..k + 1] == all[..k] + [all[k]];
        ghost var c, cwas, i, iwas := AddDupe(all[k]);
      }
      assert all[..|all|] == all;
    }

    // ----- pass 1d -----

    /** Adds one inode to the list, unless it is there. */
    method AddShared(shared: array<nat>, len: nat, x: nat, ghost pool: set<nat>) returns (len': nat)
      requires Fill(shared[..], len, pool) && |pool| <= shared.Length && x in pool
      modifies shared
      ensures Fill(shared[..], len', pool) && Members(shared[..len']) == Members(old(shared[..len])) + {x}
    {
      var i := 0;
      while i < len
        invariant 0 <= i <= len && forall k | 0 <= k < i :: shared[k] != x
      {
        if shared[i] == x { break; }
        i := i + 1;
      }
      len' := len;
      if i == len {
        FillRoom(shared[..len], x, pool);
        shared[len] := x;
        len' := len + 1;
        assert shared[..len'] == old(shared[..len]) + [x];
      } else {
        assert x in shared[..len];
      }
    }

    /** Adds everyone who claims the cluster, except the inode itself. */
    method AddClaimants(q: DupCluster, ino: nat, shared: array<nat>, len: nat, ghost pool: set<nat>) returns (len': nat)
      requires Fill(shared[..], len, pool) && |pool| <= shared.Length && Members(q.inodes) - {ino} <= pool
      modifies shared
      ensures Fill(shared[..], len', pool)
      ensures Members(shared[..len']) == Members(old(shared[..len])) + (Members(q.inodes) - {ino})
    {
      len' := len;
      for k := 0 to |q.inodes|
        invariant Fill(shared[..], len', pool)
        invariant Members(shared[..len']) == Members(old(shared[..len])) + (Members(q.inodes[..k]) - {ino})
      {
        var r := q.inodes[k];
        assert q.inodes[..k + 1] == q.inodes[..k] + [r];
        assert r in Members(q.inodes);
        if r != ino { len' := AddShared(shared, len', r, pool); }
      }
      assert q.inodes[..|q.inodes|] == q.inodes;
    }

    /**
     * The inodes that claim a cluster the dictionary takes for one of this
     * inode's, each once: never more than the list allocated for them can take.
     */
    method Shared(n: Ref, ino: nat, isFs: nat -> bool, shared: array<nat>, meta0: bool)
      returns (len: nat, fileOk: bool, meta: bool)
      requires Valid() && ino < U32 && n in inodes.data && shared.Length == |inodes.recs|
      requires inodes.data[n].clusters == ClustersOf(calls, ino) != []
      modifies shared
      ensures len < |inodes.recs| && forall i, j | 0 <= i < j < len :: shared[i] != shared[j]
      ensures forall x: nat :: x in shared[..len] <==> x != ino && Meeting(calls, ino, x)
      ensures fileOk <==> AllSettled(clusters.base, calls, isFs, ClustersOf(calls, ino))
      ensures meta <==> meta0 || HoldsFs(isFs, ClustersOf(calls, ino))
    {
      hide Table.Linked, Tied, Table.NodeFor, Search, Rank, Near, Holders, ClustersOf, ClustersHold, InodesHold,
        Meeting, Members, ClaimantsOf, AllSettled, HoldsFs;
      ghost var base, list0 := clusters.base, ClustersOf(calls, ino);
      ghost var pool := Inos(calls) - {ino};
      var list := inodes.data[n].clusters;
      len, fileOk, meta := 0, true, meta0;
      PoolFits(inodes.base, calls, inodes.recs, inodes.names, ino);
      NothingYet(base, calls, isFs, ino);
      assert list[..0] == [] && shared[..0] == [];
      for k := 0 to |list|
        invariant Fill(shared[..], len, pool)
        invariant Members(shared[..len]) == ClaimantsOf(base, calls, list[..k]) - {ino}
        invariant fileOk <==> AllSettled(base, calls, isFs, list[..k])
        invariant meta <==> meta0 || HoldsFs(isFs, list[..k])
      {
        var c := list[k];
        assert list[..k + 1] == list[..k] + [c];
        ClaimantsStep(base, calls, list[..k], c);
        FlagsStep(base, calls, isFs, list[..k], c);
        ClusterKnown(base, calls, clusters.recs, ino, c);
        assert Fitting(clusters.base, inodes.base, Claim(ino, c));
        var m := clusters.Find(c);
        if m != NULL {
          var q := clusters.data[m];
          if q.numBad > 1 { fileOk := false; }
          if isFs(c) { fileOk, meta := false, true; }
          len := AddClaimants(q, ino, shared, len, pool);
        }
      }
      assert list[..|list|] == list;
      FillCount(shared[..len], pool);
      SharedExactly(base, calls, ino);
      MembersOf(shared[..len]);
    }

    /** The inodes in the order of their dictionary, with their nodes. */
    method Order() returns (nodes: seq<Ref>, inos: seq<nat>)
      requires Valid()
      ensures |nodes| == |inos| == |inodes.recs|
      ensures forall k | 0 <= k < |nodes| :: nodes[k] in inodes.data && inos[k] < U32
      ensures forall k | 0 <= k < |nodes| :: inodes.data[nodes[k]].clusters == ClustersOf(calls, inos[k]) != []
      ensures forall i: nat | i < U32 :: i in inos <==> ClustersOf(calls, i) != []
      ensures forall j, k | 0 <= j < k < |inos| :: Rank(inodes.base, inos[j]) < Rank(inodes.base, inos[k])
    {
      hide Table.Linked, Tied, Rank, Near, ClustersOf, ClustersHold;
      nodes := inodes.Walk();
      inos := [];
      ghost var keys := inodes.Keys();
      for k := 0 to |nodes|
        invariant |inos| == k && forall j | 0 <= j < k :: inos[j] == keys[j] && inos[j] < U32
        invariant forall j | 0 <= j < k :: inodes.data[nodes[j]].clusters == ClustersOf(calls, inos[j]) != []
      {
        assert inodes.names[Rank(inodes.base, keys[k])] == keys[k];
        inos := inos + [inodes.dict.heap.key[nodes[k]]];
      }
      forall i: nat | i < U32
        ensures i in inos <==> ClustersOf(calls, i) != []
      {
        InodeKnown(inodes.base, calls, inodes.recs, inodes.names, i);
        if ClustersOf(calls, i) != [] {
          var k :| 0 <= k < |keys| && keys[k] == i;
          assert inos[k] == i;
        }
      }
    }

    /**
     * The reports of pass 1d, in the order of the inode dictionary. The
     * metadata flag is never taken back: from the first inode that shares a
     * cluster with the file system on, every later report carries it.
     */
    method ReportAll(isFs: nat -> bool) returns (reports: seq<Report>, ghost order: seq<nat>)
      requires Valid()
      ensures forall i: nat | i < U32 :: i in order <==> ClustersOf(calls, i) != []
      ensures Ascending(inodes.base, order)
      ensures AllRight(reports, Reported(order), clusters.base, calls, isFs)
      ensures forall k | 0 <= k < |reports| ::
        reports[k].ino < U32 && ClustersOf(calls, reports[k].ino) != [] && reports[k].ino != 1 && reports[k].ino != 7
      ensures forall i: nat | i < U32 && ClustersOf(calls, i) != [] && i != 1 && i != 7 ::
        exists k :: 0 <= k < |reports| && reports[k].ino == i
      ensures forall j, k | 0 <= j < k < |reports| :: Rank(inodes.base, reports[j].ino) < Rank(inodes.base, reports[k].ino)
      ensures forall k | 0 <= k < |reports| :: reports[k].fileOk <==> Alone(calls, isFs, reports[k].ino)
    {
      hide Valid, AllRight, Reported, SomeFs, Meeting, AllSettled, HoldsFs, Rank, ClustersOf, Alone, Ascending;
      var nodes, inos := Order();
      order := inos;
      AscendingIs(inodes.base, order);
      var shared := new nat[|nodes|];
      var meta := false;
      reports := [];
      NoReports(clusters.base, calls, isFs);
      assert inos[..0] == [];
      for k := 0 to |nodes|
        invariant AllRight(reports, Reported(inos[..k]), clusters.base, calls, isFs)
        invariant meta <==> SomeFs(calls, isFs, reports, |reports| - 1)
      {
        ReportedStep(inos, k);
        var ino := inos[k];
        if ino == BAD_INO || ino == RESIZE_INO { continue; }
        var len, fileOk;
        len, fileOk, meta := Shared(nodes[k], ino, isFs, shared, meta);
        var r := Report(ino, shared[..len], fileOk, meta);
        SomeFsGrows(calls, isFs, reports, r);
        AllRightGrows(reports, Reported(inos[..k]), clusters.base, calls, isFs, r);
        reports := reports + [r];
      }
      assert inos[..|inos|] == inos;
      ReportedAll(reports, order, clusters.base, calls, isFs, inodes.base);
      ReportedAlone(reports, Reported(order), clusters.base, calls, isFs);
    }
  }

  datatype Report = Report(ino: nat, shared: seq<nat>, fileOk: bool, meta: bool)

  /** The inodes reported on: the bad-blocks and resize inodes are passed over. */
  function Reported(order: seq<nat>): seq<nat> {
    if order == [] then []
    else
      var ino := order[|order| - 1];
      Reported(order[..|order| - 1]) + if ino == BAD_INO || ino == RESIZE_INO then [] else [ino]
  }

  lemma ReportedStep(order: seq<nat>, k: nat)
    requires k < |order|
    ensures Reported(order[..k + 1]) ==
      if order[k] == BAD_INO || order[k] == RESIZE_INO then Reported(order[..k]) else Reported(order[..k]) + [order[k]]
  {
    assert order[..k + 1][..k] == order[..k];
    assert Reported(order[..k]) + [] == Reported(order[..k]);
  }

  /** The list is exactly the other inodes that seem to share a cluster, each once. */
  ghost predicate Right(r: Report, base: int, calls: seq<Claim>, isFs: nat -> bool) {
    && (forall i, j | 0 <= i < j < |r.shared| :: r.shared[i] != r.shared[j])
    && (forall x: nat :: x in r.shared <==> x != r.ino && Meeting(calls, r.ino, x))
    && (r.fileOk <==> AllSettled(base, calls, isFs, ClustersOf(calls, r.ino)))
  }

  /** The file itself shares a cluster with the file system. */
  ghost predicate FsAt(calls: seq<Claim>, isFs: nat -> bool, ino: nat) { HoldsFs(isFs, ClustersOf(calls, ino)) }

  ghost predicate SomeFs(calls: seq<Claim>, isFs: nat -> bool, reports: seq<Report>, k: int) {
    exists j :: 0 <= j <= k && j < |reports| && FsAt(calls, isFs, reports[j].ino)
  }

  /** One report for each of these inodes, each with the right list, and the flag as it has gathered so far. */
  ghost predicate AllRight(reports: seq<Report>, inos: seq<nat>, base: int, calls: seq<Claim>, isFs: nat -> bool) {
    && |reports| == |inos| && (forall k | 0 <= k < |reports| :: reports[k].ino == inos[k])
    && (forall k | 0 <= k < |reports| :: Right(reports[k], base, calls, isFs))
    && (forall k | 0 <= k < |reports| :: reports[k].meta <==> SomeFs(calls, isFs, reports, k))
  }

  lemma NoReports(base: int, calls: seq<Claim>, isFs: nat -> bool)
    ensures Reported([]) == [] && AllRight([], [], base, calls, isFs) && !SomeFs(calls, isFs, [], -1)
  {
  }

  lemma AllRightGrows(reports: seq<Report>, inos: seq<nat>, base: int, calls: seq<Claim>, isFs: nat -> bool, r: Report)
    requires AllRight(reports, inos, base, calls, isFs) && Right(r, base, calls, isFs)
    requires r.meta <==> SomeFs(calls, isFs, reports + [r], |reports|)
    ensures AllRight(reports + [r], inos + [r.ino], base, calls, isFs)
  {
    hide Right, SomeFs;
    SomeFsGrows(calls, isFs, reports, r);
  }

  lemma SomeFsGrows(calls: seq<Claim>, isFs: nat -> bool, reports: seq<Report>, r: Report)
    ensures forall k | 0 <= k < |reports| :: SomeFs(calls, isFs, reports + [r], k) <==> SomeFs(calls, isFs, reports, k)
    ensures SomeFs(calls, isFs, reports + [r], |reports|) <==>
      SomeFs(calls, isFs, reports, |reports| - 1) || FsAt(calls, isFs, r.ino)
  {
    hide FsAt;
    var all := reports + [r];
    forall k | 0 <= k < |reports|
      ensures SomeFs(calls, isFs, all, k) <==> SomeFs(calls, isFs, reports, k)
    {
      assert forall j | 0 <= j <= k :: all[j] == reports[j];
    }
    assert forall j | 0 <= j < |reports| :: all[j] == reports[j];
    assert all[|reports|] == r;
  }

  /** The flag says what holds of the file itself exactly when it does hold or held of no file before. */
  lemma FlagExactly(calls: seq<Claim>, isFs: nat -> bool, reports: seq<Report>, k: nat)
    requires k < |reports| && (reports[k].meta <==> SomeFs(calls, isFs, reports, k))
    ensures reports[k].meta == FsAt(calls, isFs, reports[k].ino) <==>
      FsAt(calls, isFs, reports[k].ino) || !SomeFs(calls, isFs, reports, k - 1)
  {
    hide FsAt;
    if !FsAt(calls, isFs, reports[k].ino) {
      assert SomeFs(calls, isFs, reports, k) <==> SomeFs(calls, isFs, reports, k - 1);
    }
  }

  /** Everyone who has made a claim. */
  ghost function Inos(calls: seq<Claim>): set<nat> { set p | p in calls :: p.ino }

  /** The other claimants are fewer than the inode dictionary has entries. */
  lemma PoolFits(base: int, calls: seq<Claim>, recs: map<int, DupInode>, names: map<int, int>, ino: nat)
    requires InodesHold(base, calls, recs, names) && ino < U32 && ClustersOf(calls, ino) != []
    requires forall p | p in calls :: p.ino < U32
    ensures |Inos(calls) - {ino}| < |recs|
  {
    hide Rank, ClustersOf;
    var pool := Inos(calls) - {ino};
    var all := pool + {ino};
    forall i | i in all
      ensures i < U32 && Rank(base, i) in recs.Keys
    {
      if i != ino {
        var p :| p in calls && p.ino == i;
        ClustersMean(calls, i, p.cluster);
      }
      InodeKnown(base, calls, recs, names, i);
    }
    RanksFit(base, all, recs.Keys);
    assert |recs| == |recs.Keys|;
  }

  lemma {:induction false} RanksFit(base: int, inos: set<nat>, ranks: set<int>)
    requires forall i | i in inos :: i < U32 && Rank(base, i) in ranks
    ensures |inos| <= |ranks|
    decreases |inos|
  {
    hide Rank;
    if inos != {} {
      var x :| x in inos;
      forall i | i in inos - {x}
        ensures Rank(base, i) in ranks - {Rank(base, x)}
      {
        SameRank(base, i, x);
        SmallDiff(i, x);
      }
      RanksFit(base, inos - {x}, ranks - {Rank(base, x)});
    }
  }

  /** A claimed cluster has a record, and its claimants are known. */
  lemma ClusterKnown(base: int, calls: seq<Claim>, recs: map<int, DupCluster>, ino: nat, c: nat)
    requires ClustersHold(base, calls, recs) && c in ClustersOf(calls, ino)
    ensures Claim(ino, c) in calls && Rank(base, c) in recs
    ensures var l := Holders(base, calls, Rank(base, c)); recs[Rank(base, c)] == DupCluster(|l|, l) && Members(l) <= Inos(calls)
  {
    hide Rank, Holders, ClustersOf;
    ClustersMean(calls, ino, c);
    var h := Rank(base, c);
    ClaimantsMean(base, calls, h, ino);
    forall x | x in Holders(base, calls, h)
      ensures x in Inos(calls)
    {
      ClaimantsMean(base, calls, h, x);
      var d: nat :| Claim(x, d) in calls && Rank(base, d) == h;
      assert Claim(x, d).ino == x;
    }
  }

  ghost function Members(s: seq<nat>): set<nat> { set x | x in s }

  lemma MembersOf(s: seq<nat>)
    ensures forall x :: x in Members(s) <==> x in s
  {
  }

  /** No cluster of the list is claimed twice, as far as the dictionary can tell, or belongs to the file system itself. */
  ghost predicate AllSettled(base: int, calls: seq<Claim>, isFs: nat -> bool, list: seq<nat>) {
    forall c | c in list :: |Holders(base, calls, Rank(base, c))| <= 1 && !isFs(c)
  }

  /** Some cluster of the list belongs to the file system itself. */
  ghost predicate HoldsFs(isFs: nat -> bool, list: seq<nat>) { exists c :: c in list && isFs(c) }

  lemma FlagsStep(base: int, calls: seq<Claim>, isFs: nat -> bool, list: seq<nat>, c: nat)
    ensures AllSettled(base, calls, isFs, list + [c]) <==>
            AllSettled(base, calls, isFs, list) && |Holders(base, calls, Rank(base, c))| <= 1 && !isFs(c)
    ensures HoldsFs(isFs, list + [c]) <==> HoldsFs(isFs, list) || isFs(c)
  {
    hide Rank, Holders;
  }

  lemma NothingYet(base: int, calls: seq<Claim>, isFs: nat -> bool, ino: nat)
    ensures AllSettled(base, calls, isFs, []) && !HoldsFs(isFs, [])
    ensures ClaimantsOf(base, calls, []) - {ino} == Members([])
  {
  }

  /** Everyone who claims a cluster that the dictionary takes for one of these. */
  ghost function ClaimantsOf(base: int, calls: seq<Claim>, list: seq<nat>): set<nat> {
    set c, x | c in list && x in Holders(base, calls, Rank(base, c)) :: x
  }

  lemma ClaimantsStep(base: int, calls: seq<Claim>, list: seq<nat>, c: nat)
    ensures ClaimantsOf(base, calls, list + [c]) == ClaimantsOf(base, calls, list) + Members(Holders(base, calls, Rank(base, c)))
  {
    hide Rank, Holders;
  }

  lemma SharedExactly(base: int, calls: seq<Claim>, ino: nat)
    ensures forall x: nat :: x in ClaimantsOf(base, calls, ClustersOf(calls, ino)) <==> Meeting(calls, ino, x)
  {
    hide Rank, Holders, ClustersOf, Congruent;
    var list := ClustersOf(calls, ino);
    forall x: nat
      ensures x in ClaimantsOf(base, calls, list) <==> Meeting(calls, ino, x)
    {
      if x in ClaimantsOf(base, calls, list) {
        var c :| c in list && x in Holders(base, calls, Rank(base, c));
        ClustersMean(calls, ino, c);
        ClaimantsMean(base, calls, Rank(base, c), x);
        var d: nat :| Claim(x, d) in calls && Rank(base, d) == Rank(base, c);
        SameRank(base, c, d);
      }
      if Meeting(calls, ino, x) {
        var c: nat, d: nat :| Claim(ino, c) in calls && Claim(x, d) in calls && Congruent(c, d);
        SameRank(base, c, d);
        ClustersMean(calls, ino, c);
        ClaimantsMean(base, calls, Rank(base, c), x);
      }
    }
  }

  /** The first `len` places hold different numbers of the pool. */
  ghost predicate Fill(s: seq<nat>, len: nat, pool: set<nat>) {
    len <= |s| && (forall i, j | 0 <= i < j < len :: s[i] != s[j]) && (forall i | 0 <= i < len :: s[i] in pool)
  }

  lemma {:induction false} FillCount(s: seq<nat>, pool: set<nat>)
    requires Fill(s, |s|, pool)
    ensures |s| <= |pool|
  {
    if s != [] {
      var last := s[|s| - 1];
      FillCount(s[..|s| - 1], pool - {last});
    }
  }

  lemma FillRoom(s: seq<nat>, x: nat, pool: set<nat>)
    requires Fill(s, |s|, pool) && x in pool && x !in s
    ensures |s| < |pool|
  {
    FillCount(s + [x], pool);
  }


  /** An inode is in its dictionary exactly when it has made a claim. */
  lemma InodeKnown(base: int, calls: seq<Claim>, recs: map<int, DupInode>, names: map<int, int>, i: nat)
    requires InodesHold(base, calls, recs, names) && i < U32
    ensures Rank(base, i) in recs <==> ClustersOf(calls, i) != []
    ensures Rank(base, i) in recs ==> recs[Rank(base, i)] == DupInode(Dir(i), |ClustersOf(calls, i)|, ClustersOf(calls, i))
    ensures Rank(base, i) in recs <==> Rank(base, i) in names
    ensures Rank(base, i) in names ==> names[Rank(base, i)] == i
  {
    hide Rank, ClustersOf;
    var h := Rank(base, i);
    if h in recs {
      SameRank(base, i, names[h]);
      SmallDiff(i, names[h]);
    }
  }

  // ----- two runs that go wrong -----

  ghost predicate Ascending(base: int, s: seq<nat>) {
    forall j, k | 0 <= j < k < |s| :: Rank(base, s[j]) < Rank(base, s[k])
  }

  lemma {:induction false} ReportedKeeps(base: int, order: seq<nat>)
    requires Ascending(base, order)
    ensures forall i :: i in Reported(order) <==> i in order && i != 1 && i != 7
    ensures Ascending(base, Reported(order))
  {
    hide Rank, Ascending;
    if order != [] {
      var a, i := order[..|order| - 1], order[|order| - 1];
      AscendingInit(base, order);
      ReportedKeeps(base, a);
      assert forall x :: x in order <==> x in a || x == i;
      AscendingSnoc(base, Reported(a), i);
      assert Reported(a) + [] == Reported(a);
    } else {
      AscendingNone(base);
    }
  }

  /** There is a report for each inode with claims but two, and the reports keep the order. */
  lemma ReportedAll(reports: seq<Report>, order: seq<nat>, base: int, calls: seq<Claim>, isFs: nat -> bool, ibase: int)
    requires AllRight(reports, Reported(order), base, calls, isFs) && Ascending(ibase, order)
    requires (forall i: nat | i < U32 :: i in order <==> ClustersOf(calls, i) != []) && forall k | 0 <= k < |order| :: order[k] < U32
    ensures forall k | 0 <= k < |reports| ::
      reports[k].ino < U32 && ClustersOf(calls, reports[k].ino) != [] && reports[k].ino != 1 && reports[k].ino != 7
    ensures forall i: nat | i < U32 && ClustersOf(calls, i) != [] && i != 1 && i != 7 ::
      exists k :: 0 <= k < |reports| && reports[k].ino == i
    ensures forall j, k | 0 <= j < k < |reports| :: Rank(ibase, reports[j].ino) < Rank(ibase, reports[k].ino)
  {
    hide Rank, Right, SomeFs, Reported, ClustersOf;
    var inos := Reported(order);
    ReportedKeeps(ibase, order);
    forall k | 0 <= k < |reports|
      ensures reports[k].ino < U32 && ClustersOf(calls, reports[k].ino) != [] && reports[k].ino != 1 && reports[k].ino != 7
    {
      assert inos[k] in inos;
    }
    forall i: nat | i < U32 && ClustersOf(calls, i) != [] && i != 1 && i != 7
      ensures exists k :: 0 <= k < |reports| && reports[k].ino == i
    {
      assert i in inos;
      var k :| 0 <= k < |inos| && inos[k] == i;
      assert reports[k].ino == i;
    }
  }

  /**
   * Each of the inode's claims is on a cluster outside the file system, and
   * the dictionary takes no other claim for one on the same cluster.
   */
  ghost predicate Alone(calls: seq<Claim>, isFs: nat -> bool, ino: nat) {
    forall i | 0 <= i < |calls| && calls[i].ino == ino ::
      !isFs(calls[i].cluster) && forall j | 0 <= j < |calls| && j != i :: !Congruent(calls[j].cluster, calls[i].cluster)
  }

  /** At most one claim on clusters of a rank. */
  lemma {:induction false} FewHolders(base: int, calls: seq<Claim>, h: int)
    ensures |Holders(base, calls, h)| == 0 <==> forall i | 0 <= i < |calls| :: Rank(base, calls[i].cluster) != h
    ensures |Holders(base, calls, h)| <= 1 <==>
      forall i, j | 0 <= i < j < |calls| :: !(Rank(base, calls[i].cluster) == h && Rank(base, calls[j].cluster) == h)
  {
    hide Rank;
    if calls != [] {
      var n := |calls| - 1;
      var front := calls[..n];
      FewHolders(base, front, h);
      assert forall i | 0 <= i < n :: front[i] == calls[i];
    }
  }

  lemma SettledAlone(base: int, calls: seq<Claim>, isFs: nat -> bool, ino: nat)
    ensures AllSettled(base, calls, isFs, ClustersOf(calls, ino)) <==> Alone(calls, isFs, ino)
  {
    hide Rank, Holders, ClustersOf, Congruent;
    forall i | 0 <= i < |calls| && calls[i].ino == ino
      ensures calls[i].cluster in ClustersOf(calls, ino)
      ensures |Holders(base, calls, Rank(base, calls[i].cluster))| <= 1 <==>
        forall j | 0 <= j < |calls| && j != i :: !Congruent(calls[j].cluster, calls[i].cluster)
    {
      assert calls[i] == Claim(ino, calls[i].cluster);
      ClustersMean(calls, ino, calls[i].cluster);
      SettledAt(base, calls, i);
    }
    forall c | c in ClustersOf(calls, ino)
      ensures exists i :: 0 <= i < |calls| && calls[i] == Claim(ino, c)
    {
      ClustersMean(calls, ino, c);
    }
  }

  lemma SettledAt(base: int, calls: seq<Claim>, i: nat)
    requires i < |calls|
    ensures |Holders(base, calls, Rank(base, calls[i].cluster))| <= 1 <==>
      forall j | 0 <= j < |calls| && j != i :: !Congruent(calls[j].cluster, calls[i].cluster)
  {
    hide Rank, Holders, Congruent;
    var h := Rank(base, calls[i].cluster);
    FewHolders(base, calls, h);
    forall j | 0 <= j < |calls|
      ensures Rank(base, calls[j].cluster) == h <==> Congruent(calls[j].cluster, calls[i].cluster)
    {
      SameRank(base, calls[j].cluster, calls[i].cluster);
    }
  }

  lemma ReportedAlone(reports: seq<Report>, inos: seq<nat>, base: int, calls: seq<Claim>, isFs: nat -> bool)
    requires AllRight(reports, inos, base, calls, isFs)
    ensures forall k | 0 <= k < |reports| :: reports[k].fileOk <==> Alone(calls, isFs, reports[k].ino)
  {
    hide SomeFs, AllSettled, Alone, ClustersOf, Meeting;
    forall k | 0 <= k < |reports|
      ensures reports[k].fileOk <==> Alone(calls, isFs, reports[k].ino)
    {
      assert Right(reports[k], base, calls, isFs);
      SettledAlone(base, calls, isFs, reports[k].ino);
    }
  }

  lemma AscendingIs(base: int, s: seq<nat>)
    requires forall j, k | 0 <= j < k < |s| :: Rank(base, s[j]) < Rank(base, s[k])
    ensures Ascending(base, s)
  {
    hide Rank;
  }

  lemma AscendingNone(base: int)
    ensures Ascending(base, [])
  {
  }

  lemma AscendingInit(base: int, s: seq<nat>)
    requires Ascending(base, s) && s != []
    ensures Ascending(base, s[..|s| - 1]) && forall x | x in s[..|s| - 1] :: Rank(base, x) < Rank(base, s[|s| - 1])
  {
    hide Rank;
    forall x | x in s[..|s| - 1]
      ensures Rank(base, x) < Rank(base, s[|s| - 1])
    {
      var j :| 0 <= j < |s| - 1 && s[..|s| - 1][j] == x;
      assert s[j] == x;
    }
  }

  lemma AscendingSnoc(base: int, s: seq<nat>, i: nat)
    requires Ascending(base, s)
    ensures (forall x | x in s :: Rank(base, x) < Rank(base, i)) ==> Ascending(base, s + [i])
  {
    hide Rank;
  }

  /** Clusters 1 and 2^32 + 1 are taken for one: two inodes that share nothing are reported as sharing. */
  method FarClusters() returns (reports: seq<Report>)
    ensures var calls := [Claim(11, 1), Claim(12, U32 + 1)];
      && !Sharing(calls, 11, 12)
      && exists k :: 0 <= k < |reports| && reports[k].ino == 11 && 12 in reports[k].shared
  {
    hide Index.Valid, Index.Linked, Reported, AllSettled, SomeFs, HoldsFs, ClustersOf, Alone, Ascending;
    var calls := [Claim(11, 1), Claim(12, U32 + 1)];
    var index := new Index(1, 11);
    assert [] + calls == calls && forall p | p in calls :: Fitting(1, 11, p);
    index.AddAll(calls);
    ghost var order;
    reports, order := index.ReportAll(_ => false);
    ClustersMean(calls, 11, 1);
    assert ClustersOf(calls, 11) != [];
    ghost var k :| 0 <= k < |reports| && reports[k].ino == 11;
    assert Claim(11, 1) in calls && Claim(12, U32 + 1) in calls && Congruent(1, U32 + 1);
    assert Meeting(calls, 11, 12);
    assert Right(reports[k], 1, calls, _ => false);
  }

  /** Once a file on a file-system cluster has been reported, a later report carries its flag. */
  lemma FlagCarries(reports: seq<Report>, order: seq<nat>, base: int, calls: seq<Claim>, isFs: nat -> bool, ibase: int, i: nat, l: nat)
    requires AllRight(reports, Reported(order), base, calls, isFs) && Ascending(ibase, order)
    requires i in order && l in order && Rank(ibase, i) < Rank(ibase, l) && FsAt(calls, isFs, i)
    requires i != 1 && i != 7 && l != 1 && l != 7
    ensures exists k :: 0 <= k < |reports| && reports[k].ino == l && reports[k].meta
  {
    hide Rank, Right, FsAt, Reported, Ascending;
    ReportedKeeps(ibase, order);
    var inos := Reported(order);
    assert i in inos && l in inos;
    var j :| 0 <= j < |inos| && inos[j] == i;
    var k :| 0 <= k < |inos| && inos[k] == l;
    AscendingBefore(ibase, inos, j, k);
    assert reports[k].meta by { assert SomeFs(calls, isFs, reports, k); }
  }

  lemma AscendingBefore(base: int, s: seq<nat>, j: nat, k: nat)
    requires Ascending(base, s) && j < |s| && k < |s| && Rank(base, s[j]) < Rank(base, s[k])
    ensures j < k
  {
    hide Rank;
  }

  /** Inode 11 lies on a file-system cluster; the report on inode 12, which does not, carries the flag as well. */
  method StickyFlag() returns (reports: seq<Report>)
    ensures var calls := [Claim(11, 1), Claim(12, 5), Claim(13, 5)];
      && !FsAt(calls, c => c == 1, 12)
      && exists k :: 0 <= k < |reports| && reports[k].ino == 12 && reports[k].meta
  {
    hide Index.Valid, Index.Linked, AllRight, Reported, ClustersOf;
    var calls := [Claim(11, 1), Claim(12, 5), Claim(13, 5)];
    var isFs := c => c == 1;
    var index := new Index(1, 11);
    assert [] + calls == calls && forall p | p in calls :: Fitting(1, 11, p);
    index.AddAll(calls);
    ghost var order;
    reports, order := index.ReportAll(isFs);
    ClustersMean(calls, 11, 1);
    ClustersMean(calls, 12, 5);
    ClustersMean(calls, 12, 1);
    assert 11 in order && 12 in order;
    assert 1 in ClustersOf(calls, 11) && isFs(1);
    FlagCarries(reports, order, 1, calls, isFs, 11, 11, 12);
  }

  // ----- claims on keys that are close together -----

  /** Clusters and inodes less than 2^31 apart: nothing collides, and every record is that of its own key. */
  method CloseClaims(calls: seq<Claim>, ghost lowCluster: nat, ghost lowInode: nat) returns (index: Index)
    requires forall p | p in calls :: lowCluster <= p.cluster < lowCluster + HALF && lowInode <= p.ino < lowInode + HALF && p.ino < U32
    ensures index.Valid() && index.calls == calls && RecordsRight(lowCluster, calls)
    ensures forall a: nat, b: nat :: Meeting(calls, a, b) <==> Sharing(calls, a, b)
  {
    hide Index.Valid, Index.Linked, RecordsRight, Meeting, Sharing;
    index := new Index(lowCluster, lowInode);
    forall p | p in calls
      ensures Fitting(lowCluster, lowInode, p)
    {
      CloseKeysNear(lowCluster, p.cluster);
      CloseKeysNear(lowInode, p.ino);
    }
    forall p, q | p in calls && q in calls && Congruent(p.cluster, q.cluster)
      ensures p.cluster == q.cluster
    {
      CloseKeysApart(p.cluster, q.cluster);
    }
    assert [] + calls == calls;
    index.AddAll(calls);
    RecordsExactly(lowCluster, calls);
    forall a: nat, b: nat
      ensures Meeting(calls, a, b) <==> Sharing(calls, a, b)
    {
      MeetingIsSharing(calls, a, b);
    }
  }

  lemma CloseKeysApart(a: nat, b: nat)
    requires Congruent(a, b) && -HALF < a - b < HALF
    ensures a == b
  {
  }
}
