/**
 * The file lists and the directory cache of fsstress, against a file system
 * that behaves as POSIX says and may refuse anything.
 *
 * Every operation keeps the lists an exact picture of the files on disk, so
 * building a path always terminates and always names an existing file.
 */
module FsStress {

  const NFT: int := 5
  const DIR: int := 0
  const NDCACHE: int := 64
  const SLOT_INCR: nat := 16

  datatype Fent = Fent(id: int, parent: int)

  /** A path component is a tag letter, which tells the file type, and a number. */
  datatype Name = Name(ft: int, id: int)
  type Path = seq<Name>

  /** What a list entry says, by id. */
  datatype Ent = Ent(ft: int, parent: int)

  // ----- one list -----

  predicate Unique(l: seq<Fent>) { forall i, j | 0 <= i < j < |l| :: l[i].id != l[j].id }

  /** The first entry with this id, or -1. */
  function Scan(l: seq<Fent>, id: int): (r: int)
    ensures r == -1 <==> forall i | 0 <= i < |l| :: l[i].id != id
    ensures r != -1 ==> 0 <= r < |l| && l[r].id == id && forall i | 0 <= i < r :: l[i].id != id
  {
    if l == [] then -1
    else if l[0].id == id then 0
    else
      var r := Scan(l[1..], id);
      assert forall i | 1 <= i < |l| :: l[i] == l[1..][i - 1];
      if r == -1 then -1 else r + 1
  }

  /** Deletion moves the last entry into the gap. */
  function RemoveAt(l: seq<Fent>, slot: nat): seq<Fent>
    requires slot < |l|
  {
    if slot != |l| - 1 then l[slot := l[|l| - 1]][..|l| - 1] else l[..|l| - 1]
  }

  function Fixed(e: Fent, was: int, now: int): Fent { if e.parent == was then e.(parent := now) else e }

  ghost predicate FixedList(l: seq<Fent>, l': seq<Fent>, was: int, now: int) {
    |l'| == |l| && forall i | 0 <= i < |l| :: l'[i] == Fixed(l[i], was, now)
  }

  /** The list of one file type holds exactly the entries of that type, each once. */
  ghost predicate OneList(l: seq<Fent>, ents: map<int, Ent>, ft: int) {
    && (forall i | 0 <= i < |l| :: l[i].id in ents && ents[l[i].id] == Ent(ft, l[i].parent))
    && Unique(l)
    && (forall id | id in ents && ents[id].ft == ft :: Scan(l, id) != -1)
  }

  /** Every cache slot is empty or the index of an entry whose id hashes to that slot. */
  ghost predicate Cached(dcache: seq<int>, l: seq<Fent>) {
    |dcache| == NDCACHE &&
    forall h | 0 <= h < NDCACHE :: dcache[h] == -1 || (0 <= dcache[h] < |l| && l[dcache[h]].id % NDCACHE == h)
  }

  lemma ListAdd(l: seq<Fent>, ents: map<int, Ent>, ft: int, id: int, parent: int)
    requires OneList(l, ents, ft) && id !in ents
    ensures OneList(l + [Fent(id, parent)], ents[id := Ent(ft, parent)], ft)
  {
    var l', ents' := l + [Fent(id, parent)], ents[id := Ent(ft, parent)];
    forall x | x in ents' && ents'[x].ft == ft
      ensures Scan(l', x) != -1
    {
      if x == id { assert l'[|l|].id == id; } else { assert l'[Scan(l, x)].id == x; }
    }
  }

  lemma ListAddOther(l: seq<Fent>, ents: map<int, Ent>, ft: int, id: int, e: Ent)
    requires OneList(l, ents, ft) && id !in ents && e.ft != ft
    ensures OneList(l, ents[id := e], ft)
  {
  }

  lemma ListDel(l: seq<Fent>, ents: map<int, Ent>, ft: int, slot: nat)
    requires OneList(l, ents, ft) && slot < |l|
    ensures OneList(RemoveAt(l, slot), ents - {l[slot].id}, ft)
  {
    hide RemoveAt, Scan;
    var l', id := RemoveAt(l, slot), l[slot].id;
    var ents' := ents - {id};
    forall i | 0 <= i < |l'|
      ensures l'[i].id in ents' && ents'[l'[i].id] == Ent(ft, l'[i].parent)
    {
      Stays(l, slot, i);
    }
    forall x | x in ents' && ents'[x].ft == ft
      ensures Scan(l', x) != -1
    {
      var i := Scan(l, x);
      Stays(l, slot, if i == |l| - 1 then slot else i);
    }
    forall i, j | 0 <= i < j < |l'|
      ensures l'[i].id != l'[j].id
    {
      Stays(l, slot, i);
      Stays(l, slot, j);
    }
  }

  lemma Stays(l: seq<Fent>, slot: nat, i: nat)
    requires slot < |l|
    ensures |RemoveAt(l, slot)| == |l| - 1
    ensures i < |l| - 1 ==> RemoveAt(l, slot)[i] == l[if i == slot then |l| - 1 else i]
  {
  }

  lemma ListDelOther(l: seq<Fent>, ents: map<int, Ent>, ft: int, id: int)
    requires OneList(l, ents, ft) && id in ents && ents[id].ft != ft
    ensures OneList(l, ents - {id}, ft)
  {
  }

  ghost function FixedEnts(ents: map<int, Ent>, was: int, now: int): map<int, Ent> {
    map id | id in ents :: if ents[id].parent == was then ents[id].(parent := now) else ents[id]
  }

  lemma ListFix(l: seq<Fent>, l': seq<Fent>, ents: map<int, Ent>, ft: int, was: int, now: int)
    requires OneList(l, ents, ft) && FixedList(l, l', was, now)
    ensures OneList(l', FixedEnts(ents, was, now), ft)
  {
    hide Scan;
    var ents' := FixedEnts(ents, was, now);
    forall i | 0 <= i < |l'|
      ensures l'[i].id in ents' && ents'[l'[i].id] == Ent(ft, l'[i].parent)
    {
      assert l'[i] == Fixed(l[i], was, now) && l[i].id in ents;
    }
    forall x | x in ents' && ents'[x].ft == ft
      ensures Scan(l', x) != -1
    {
      assert l'[Scan(l, x)].id == x;
    }
  }

  // ----- the cache -----

  function Purged(dcache: seq<int>, l: seq<Fent>, id: int): (r: seq<int>)
    requires Cached(dcache, l)
    ensures Cached(r, l)
  {
    var h := id % NDCACHE;
    if dcache[h] >= 0 && l[dcache[h]].id == id then dcache[h := -1] else dcache
  }

  /** After purging the ids of the gap and of the last entry, no slot names either index. */
  lemma PurgedDel(dcache: seq<int>, l: seq<Fent>, slot: nat)
    requires Cached(dcache, l) && Unique(l) && slot < |l|
    ensures var c := Purged(dcache, l, l[slot].id);
      Cached(if slot != |l| - 1 then Purged(c, l, l[|l| - 1].id) else c, RemoveAt(l, slot))
  {
    var c := Purged(dcache, l, l[slot].id);
    var c' := if slot != |l| - 1 then Purged(c, l, l[|l| - 1].id) else c;
    var l' := RemoveAt(l, slot);
    forall h | 0 <= h < NDCACHE
      ensures c'[h] == -1 || (0 <= c'[h] < |l'| && l'[c'[h]].id % NDCACHE == h)
    {
      assert c[h] != slot;
      assert c'[h] != slot && c'[h] != |l| - 1;
    }
  }

  // ----- paths -----

  ghost function Paths(where: map<int, Path>): set<Path> { set id | id in where :: where[id] }

  function Base(where: map<int, Path>, parent: int): Path {
    if parent in where then where[parent] else []
  }

  /** Parents are live directories, and each entry's path is its parent's path and its own name. */
  ghost predicate Rooted(ents: map<int, Ent>, where: map<int, Path>) {
    where.Keys == ents.Keys && -1 !in ents && forall id | id in ents :: RootedAt(ents, where, id)
  }

  ghost predicate RootedAt(ents: map<int, Ent>, where: map<int, Path>, id: int)
    requires where.Keys == ents.Keys && id in ents
  {
    var e := ents[id];
    && (e.parent == -1 || (e.parent in ents && ents[e.parent].ft == DIR))
    && where[id] == Base(where, e.parent) + [Name(e.ft, id)]
  }

  /** The path after its part `src` has become `dst`. */
  function Moved(p: Path, src: Path, dst: Path): Path {
    if src <= p then dst + p[|src|..] else p
  }

  lemma RootedAdd(ents: map<int, Ent>, where: map<int, Path>, id: int, e: Ent)
    requires Rooted(ents, where) && id !in ents && id != -1
    requires e.parent == -1 || (e.parent in ents && ents[e.parent].ft == DIR)
    ensures Rooted(ents[id := e], where[id := Base(where, e.parent) + [Name(e.ft, id)]])
    ensures Paths(where[id := Base(where, e.parent) + [Name(e.ft, id)]]) == Paths(where) + {Base(where, e.parent) + [Name(e.ft, id)]}
  {
    var p := Base(where, e.parent) + [Name(e.ft, id)];
    var ents', where' := ents[id := e], where[id := p];
    forall x | x in ents'
      ensures RootedAt(ents', where', x)
    {
      if x != id { assert RootedAt(ents, where, x); }
    }
    forall q | q in Paths(where) + {p}
      ensures q in Paths(where')
    {
      if q == p {
        assert where'[id] == p;
      } else {
        var x :| x in where && where[x] == q;
        assert where'[x] == q;
      }
    }
  }

  /** Different entries have different paths. */
  lemma PathOf(ents: map<int, Ent>, where: map<int, Path>, id: int)
    requires Rooted(ents, where) && id in ents
    ensures |where[id]| > 0 && where[id][|where[id]| - 1] == Name(ents[id].ft, id)
  {
    assert RootedAt(ents, where, id);
  }

  lemma RootedDel(ents: map<int, Ent>, where: map<int, Path>, id: int)
    requires Rooted(ents, where) && id in ents && forall x | x in ents :: ents[x].parent != id
    ensures Rooted(ents - {id}, where - {id}) && Paths(where - {id}) == Paths(where) - {where[id]}
  {
    var ents', where' := ents - {id}, where - {id};
    forall x | x in ents'
      ensures RootedAt(ents', where', x)
    {
      assert RootedAt(ents, where, x);
    }
    forall q
      ensures q in Paths(where') <==> q in Paths(where) - {where[id]}
    {
      if q in Paths(where') {
        var x :| x in where' && where'[x] == q;
        PathOf(ents, where, x);
        PathOf(ents, where, id);
      }
      if q in Paths(where) - {where[id]} {
        var x :| x in where && where[x] == q;
        assert where'[x] == q;
      }
    }
  }

  // ----- renaming -----

  /** All paths after a rename. */
  ghost function MovedAll(tree: set<Path>, src: Path, dst: Path): set<Path> {
    set p | p in tree :: Moved(p, src, dst)
  }

  /** The entries after renaming `was` to `now`, with its children following it. */
  ghost function Renamed(ents: map<int, Ent>, was: int, now: int, e: Ent): map<int, Ent> {
    (FixedEnts(ents, was, now) - {was})[now := e]
  }

  ghost function RenamedWhere(ents: map<int, Ent>, where: map<int, Path>, was: int, now: int, e: Ent, dst: Path): map<int, Path>
    requires was in where
  {
    map id | id in Renamed(ents, was, now, e) :: if id !in where then dst else Moved(where[id], where[was], dst)
  }

  /** A name appended to a path that does not go through `src` ends there only at `src` itself. */
  lemma MovedNext(p: Path, n: Name, src: Path, dst: Path)
    requires src != p + [n]
    ensures Moved(p + [n], src, dst) == Moved(p, src, dst) + [n]
  {
    if src <= p + [n] {
      assert |src| <= |p| && (p + [n])[..|src|] == p[..|src|];
      assert (p + [n])[|src|..] == p[|src|..] + [n];
      assert dst + (p[|src|..] + [n]) == dst + p[|src|..] + [n];
    }
  }

  lemma RenamedOther(ents: map<int, Ent>, where: map<int, Path>, was: int, now: int, e: Ent, dst: Path, x: int)
    requires Rooted(ents, where) && was in ents && now !in ents && now != -1 && x in ents && x != was
    requires e.ft == ents[was].ft && dst == Base(where, e.parent) + [Name(e.ft, now)] && !(where[was] <= dst)
    ensures RootedAt(Renamed(ents, was, now, e), RenamedWhere(ents, where, was, now, e, dst), x)
  {
    var ents', where' := Renamed(ents, was, now, e), RenamedWhere(ents, where, was, now, e, dst);
    var src, p := where[was], ents[x].parent;
    assert RootedAt(ents, where, x);
    PathOf(ents, where, x);
    PathOf(ents, where, was);
    MovedNext(Base(where, p), Name(ents[x].ft, x), src, dst);
    if p == was {
      assert Moved(src, src, dst) == dst + [] == dst;
      assert ents'[x].parent == now && where'[now] == dst;
    } else if p == -1 {
      assert src != [] && Moved([], src, dst) == [];
      assert -1 !in where';
    } else {
      assert ents'[x] == ents[x] && p in ents' && where'[p] == Moved(where[p], src, dst);
    }
  }

  /**
   * Renaming keeps the forest: the renamed subtree hangs below its new
   * parent, which the kernel has made sure is not inside it.
   */
  lemma RootedRename(ents: map<int, Ent>, where: map<int, Path>, was: int, now: int, e: Ent, dst: Path)
    requires Rooted(ents, where) && was in ents && now !in ents && now != -1
    requires e.parent == -1 || (e.parent in ents && ents[e.parent].ft == DIR)
    requires e.ft == ents[was].ft && dst == Base(where, e.parent) + [Name(e.ft, now)] && !(where[was] <= dst)
    ensures Rooted(Renamed(ents, was, now, e), RenamedWhere(ents, where, was, now, e, dst))
    ensures Paths(RenamedWhere(ents, where, was, now, e, dst)) == MovedAll(Paths(where), where[was], dst)
  {
    hide RootedAt, Renamed, Moved;
    var ents', where' := Renamed(ents, was, now, e), RenamedWhere(ents, where, was, now, e, dst);
    RenamedKeys(ents, was, now, e);
    forall x | x in ents'
      ensures RootedAt(ents', where', x)
    {
      if x == now {
        RenamedNew(ents, where, was, now, e, dst);
      } else {
        RenamedOther(ents, where, was, now, e, dst, x);
      }
    }
    MovedSame(where[was], dst);
    forall q
      ensures q in Paths(where') <==> q in MovedAll(Paths(where), where[was], dst)
    {
      if q in Paths(where') {
        var x :| x in where' && where'[x] == q;
        assert q == Moved(where[if x == now then was else x], where[was], dst);
      }
      if q in MovedAll(Paths(where), where[was], dst) {
        var x :| x in where && q == Moved(where[x], where[was], dst);
        assert q == where'[if x == was then now else x];
      }
    }
  }

  lemma MovedSame(src: Path, dst: Path)
    ensures Moved(src, src, dst) == dst
  {
    assert dst + src[|src|..] == dst;
  }

  lemma RenamedKeys(ents: map<int, Ent>, was: int, now: int, e: Ent)
    requires now !in ents
    ensures Renamed(ents, was, now, e).Keys == ents.Keys - {was} + {now}
  {
  }

  lemma RenamedNew(ents: map<int, Ent>, where: map<int, Path>, was: int, now: int, e: Ent, dst: Path)
    requires Rooted(ents, where) && was in ents && now !in ents && now != -1
    requires e.parent == -1 || (e.parent in ents && ents[e.parent].ft == DIR)
    requires e.ft == ents[was].ft && dst == Base(where, e.parent) + [Name(e.ft, now)] && !(where[was] <= dst)
    ensures RootedAt(Renamed(ents, was, now, e), RenamedWhere(ents, where, was, now, e, dst), now)
  {
    if e.parent in where {
      assert where[e.parent] <= dst;
      assert !(where[was] <= where[e.parent]);
      assert e.parent != was;
    }
  }

  /** What is not a directory has no children to follow it. */
  lemma ChildlessFixed(ents: map<int, Ent>, where: map<int, Path>, was: int, now: int)
    requires Rooted(ents, where) && was in ents && ents[was].ft != DIR
    ensures FixedEnts(ents, was, now) == ents
  {
    forall id | id in ents
      ensures ents[id].parent != was
    {
      assert RootedAt(ents, where, id);
    }
  }

  // ----- all lists -----

  /** The lists of all types together hold exactly these entries. */
  ghost predicate Listed(ls: seq<seq<Fent>>, ents: map<int, Ent>) {
    && |ls| == NFT && (forall ft | 0 <= ft < NFT :: OneList(ls[ft], ents, ft))
    && (forall id | id in ents :: 0 <= ents[id].ft < NFT)
  }

  lemma ListedAdd(ls: seq<seq<Fent>>, ents: map<int, Ent>, ft: int, id: int, parent: int)
    requires Listed(ls, ents) && 0 <= ft < NFT && id !in ents
    ensures Listed(ls[ft := ls[ft] + [Fent(id, parent)]], ents[id := Ent(ft, parent)])
  {
    hide OneList;
    var ls', ents' := ls[ft := ls[ft] + [Fent(id, parent)]], ents[id := Ent(ft, parent)];
    forall t | 0 <= t < NFT
      ensures OneList(ls'[t], ents', t)
    {
      if t == ft { ListAdd(ls[t], ents, t, id, parent); } else { ListAddOther(ls[t], ents, t, id, Ent(ft, parent)); }
    }
  }

  lemma ListedDel(ls: seq<seq<Fent>>, ents: map<int, Ent>, ft: int, slot: nat)
    requires Listed(ls, ents) && 0 <= ft < NFT && slot < |ls[ft]|
    ensures Listed(ls[ft := RemoveAt(ls[ft], slot)], ents - {ls[ft][slot].id})
  {
    hide OneList, RemoveAt;
    ListedEntry(ls, ents, ft, slot);
    var ls', id := ls[ft := RemoveAt(ls[ft], slot)], ls[ft][slot].id;
    forall t | 0 <= t < NFT
      ensures OneList(ls'[t], ents - {id}, t)
    {
      if t == ft { ListDel(ls[t], ents, t, slot); } else { ListDelOther(ls[t], ents, t, id); }
    }
  }

  lemma ListedEntry(ls: seq<seq<Fent>>, ents: map<int, Ent>, ft: int, slot: nat)
    requires Listed(ls, ents) && 0 <= ft < NFT && slot < |ls[ft]|
    ensures ls[ft][slot].id in ents && ents[ls[ft][slot].id] == Ent(ft, ls[ft][slot].parent)
  {
    assert OneList(ls[ft], ents, ft);
  }

  ghost predicate FixedLists(ls: seq<seq<Fent>>, ls': seq<seq<Fent>>, was: int, now: int) {
    |ls'| == |ls| && forall ft | 0 <= ft < |ls| :: FixedList(ls[ft], ls'[ft], was, now)
  }

  lemma ListedFix(ls: seq<seq<Fent>>, ls': seq<seq<Fent>>, ents: map<int, Ent>, was: int, now: int)
    requires Listed(ls, ents) && FixedLists(ls, ls', was, now)
    ensures Listed(ls', FixedEnts(ents, was, now))
  {
    hide OneList, FixedList;
    forall t | 0 <= t < NFT
      ensures OneList(ls'[t], FixedEnts(ents, was, now), t)
    {
      ListFix(ls[t], ls'[t], ents, t, was, now);
    }
  }

  // ----- the file system underneath -----

  /** The paths that exist. Any call may be refused for reasons of the file system's own. */
  class Kernel {
    var tree: set<Path>

    predicate IsDir(p: Path)
      reads this
    {
      p == [] || (p in tree && p[|p| - 1].ft == DIR)
    }

    method Make(p: Path, refuse: bool) returns (ok: bool)
      requires p != [] && p !in tree
      modifies this
      ensures ok <==> !refuse && old(IsDir(p[..|p| - 1]))
      ensures tree == if ok then old(tree) + {p} else old(tree)
    {
      ok := !refuse && IsDir(p[..|p| - 1]);
      if ok { tree := tree + {p}; }
    }

    method Link(src: Path, dst: Path, refuse: bool) returns (ok: bool)
      requires dst != [] && dst !in tree
      modifies this
      ensures ok <==> !refuse && old(src in tree && !IsDir(src) && IsDir(dst[..|dst| - 1]))
      ensures tree == if ok then old(tree) + {dst} else old(tree)
    {
      ok := !refuse && src in tree && !IsDir(src) && IsDir(dst[..|dst| - 1]);
      if ok { tree := tree + {dst}; }
    }

    method Unlink(p: Path, refuse: bool) returns (ok: bool)
      modifies this
      ensures ok <==> !refuse && old(p in tree && !IsDir(p))
      ensures tree == if ok then old(tree) - {p} else old(tree)
    {
      ok := !refuse && p in tree && !IsDir(p);
      if ok { tree := tree - {p}; }
    }

    /** A directory that is not empty is not removed. */
    method Rmdir(p: Path, refuse: bool) returns (ok: bool)
      modifies this
      ensures ok <==> !refuse && old(p in tree && IsDir(p)) && forall q | q in old(tree) :: !(p < q)
      ensures tree == if ok then old(tree) - {p} else old(tree)
    {
      ok := !refuse && p in tree && IsDir(p) && forall q | q in tree :: !(p < q);
      if ok { tree := tree - {p}; }
    }

    /** Nothing is moved into itself or below itself. */
    method Rename(src: Path, dst: Path, refuse: bool) returns (ok: bool)
      requires dst != [] && dst !in tree
      modifies this
      ensures ok <==> !refuse && src in old(tree) && old(IsDir(dst[..|dst| - 1])) && !(src <= dst)
      ensures tree == if ok then MovedAll(old(tree), src, dst) else old(tree)
    {
      ok := !refuse && src in tree && IsDir(dst[..|dst| - 1]) && !(src <= dst);
      if ok { tree := set p | p in tree :: Moved(p, src, dst); }
    }
  }

  // ----- what a run does, on values -----

  type FileType = ft: int | 0 <= ft < NFT

  /** An operation with the random numbers it draws and whether the kernel refuses it. */
  datatype Op =
    | Creat(ft: FileType, r: nat, refuse: bool)
    | Link(r: nat, r2: nat, refuse: bool)
    | Rename(r: nat, r2: nat, refuse: bool)
    | Rmdir(r: nat, refuse: bool)
    | Unlink(r: nat, refuse: bool)

  /** The lists, what they say by id, the path of each entry, and the next number for a name. */
  datatype World = World(ls: seq<seq<Fent>>, ents: map<int, Ent>, where: map<int, Path>, next: nat)

  ghost predicate Sound(w: World) {
    |w.ls| == NFT && w.where.Keys == w.ents.Keys && forall id | id in w.ents :: 0 <= w.ents[id].ft < NFT
  }

  /** Everything that is not a directory, and everything, in list order. */
  ghost function Files(ls: seq<seq<Fent>>): seq<Fent>
    requires |ls| == NFT
  {
    ls[1] + ls[2] + ls[3] + ls[4]
  }

  ghost function Everything(ls: seq<seq<Fent>>): seq<Fent>
    requires |ls| == NFT
  {
    ls[0] + ls[1] + ls[2] + ls[3] + ls[4]
  }

  /** The id of the entry numbered `r`, modulo their number; -1 if there is none. */
  ghost function Numbered(l: seq<Fent>, r: nat): int { if l == [] then -1 else l[r % |l|].id }

  ghost function Without(l: seq<Fent>, id: int): seq<Fent> {
    if Scan(l, id) == -1 then l else RemoveAt(l, Scan(l, id))
  }

  ghost function Fix(l: seq<Fent>, was: int, now: int): (l': seq<Fent>)
    ensures FixedList(l, l', was, now)
  {
    seq(|l|, i requires 0 <= i < |l| => Fixed(l[i], was, now))
  }

  ghost function FixAll(ls: seq<seq<Fent>>, was: int, now: int): (ls': seq<seq<Fent>>)
    ensures FixedLists(ls, ls', was, now)
  {
    seq(|ls|, i requires 0 <= i < |ls| => Fix(ls[i], was, now))
  }

  /** A new name in a directory. */
  ghost function Entered(w: World, ft: int, parid: int): World
    requires Sound(w) && 0 <= ft < NFT
  {
    World(w.ls[ft := w.ls[ft] + [Fent(w.next, parid)]], w.ents[w.next := Ent(ft, parid)],
          w.where[w.next := Base(w.where, parid) + [Name(ft, w.next)]], w.next + 1)
  }

  /** A name that is gone. */
  ghost function Left(w: World, id: int): World
    requires Sound(w) && id in w.ents
  {
    var ft := w.ents[id].ft;
    World(w.ls[ft := Without(w.ls[ft], id)], w.ents - {id}, w.where - {id}, w.next)
  }

  /** The lists when an entry has got a new name, its children following it. */
  ghost function Relisted(ls: seq<seq<Fent>>, ft: int, was: int, now: int, parid: int): seq<seq<Fent>>
    requires 0 <= ft < |ls|
  {
    var fixed := if ft == DIR then FixAll(ls, was, now) else ls;
    fixed[ft := Without(fixed[ft], was) + [Fent(now, parid)]]
  }

  ghost function Rehung(w: World, was: int, parid: int): World
    requires Sound(w) && was in w.ents
  {
    var ft, now := w.ents[was].ft, w.next;
    var e, path := Ent(ft, parid), Base(w.where, parid) + [Name(ft, now)];
    World(Relisted(w.ls, ft, was, now, parid), Renamed(w.ents, was, now, e),
          RenamedWhere(w.ents, w.where, was, now, e, path), now + 1)
  }

  /** One operation. A failed attempt at a new name has drawn its number all the same. */
  ghost function Step(w: World, op: Op): (w': World)
    requires Sound(w)
    ensures Sound(w')
  {
    match op
    case Creat(ft, r, refuse) =>
      if refuse then w.(next := w.next + 1) else Entered(w, ft, Numbered(w.ls[DIR], r))
    case Link(r, r2, refuse) =>
      var src := Numbered(Files(w.ls), r);
      if src !in w.ents then w
      else if refuse then w.(next := w.next + 1)
      else Entered(w, w.ents[src].ft, Numbered(w.ls[DIR], r2))
    case Rename(r, r2, refuse) =>
      var was, parid := Numbered(Everything(w.ls), r), Numbered(w.ls[DIR], r2);
      if was !in w.ents then w
      else if refuse || w.where[was] <= Base(w.where, parid) then w.(next := w.next + 1)
      else Rehung(w, was, parid)
    case Rmdir(r, refuse) =>
      var id := Numbered(w.ls[DIR], r);
      if id !in w.ents || refuse || exists x :: x in w.ents && w.ents[x].parent == id then w else Left(w, id)
    case Unlink(r, refuse) =>
      var id := Numbered(Files(w.ls), r);
      if id !in w.ents || refuse then w else Left(w, id)
  }

  ghost function Steps(w: World, ops: seq<Op>): (w': World)
    requires Sound(w)
    ensures Sound(w')
  {
    if ops == [] then w else Step(Steps(w, ops[..|ops| - 1]), ops[|ops| - 1])
  }

  // ----- the program -----

  ghost predicate Sized(fents: seq<seq<Fent>>, nfiles: seq<nat>) {
    |nfiles| == NFT && |fents| == NFT && forall ft | 0 <= ft < NFT :: nfiles[ft] <= |fents[ft]|
  }

  ghost function InUse(fents: seq<seq<Fent>>, nfiles: seq<nat>): (ls: seq<seq<Fent>>)
    requires Sized(fents, nfiles)
    ensures |ls| == NFT && forall ft | 0 <= ft < NFT :: ls[ft] == fents[ft][..nfiles[ft]]
  {
    seq(NFT, ft requires 0 <= ft < NFT => fents[ft][..nfiles[ft]])
  }

  lemma LengthsInUse(fents: seq<seq<Fent>>, nfiles: seq<nat>)
    requires Sized(fents, nfiles)
    ensures forall ft | 0 <= ft < NFT :: |InUse(fents, nfiles)[ft]| == nfiles[ft]
  {
  }

  class Stress {
    const kernel: Kernel
    var nfiles: seq<nat>
    var fents: seq<seq<Fent>>
    var dcache: seq<int>
    var nameseq: nat
    ghost var ents: map<int, Ent>
    ghost var where: map<int, Path>

    ghost predicate Shape()
      reads this
    {
      Sized(fents, nfiles)
    }

    /** The entries in use. */
    ghost function Lists(): (ls: seq<seq<Fent>>)
      requires Shape()
      reads this
    {
      InUse(fents, nfiles)
    }

    ghost predicate Valid()
      reads this, kernel
    {
      && Shape() && Listed(Lists(), ents) && Cached(dcache, Lists()[DIR])
      && (forall id | id in ents :: 0 <= id < nameseq)
      && Rooted(ents, where) && kernel.tree == Paths(where)
    }

    ghost function Now(): (w: World)
      requires Shape()
      reads this
    {
      World(Lists(), ents, where, nameseq)
    }

    /** Empty lists over an empty directory. */
    constructor (kernel: Kernel)
      requires kernel.tree == {}
      ensures Valid() && this.kernel == kernel && Now() == World([[], [], [], [], []], map[], map[], 0)
    {
      this.kernel := kernel;
      nfiles := [0, 0, 0, 0, 0];
      fents := [[], [], [], [], []];
      dcache := seq(NDCACHE, _ => -1);
      nameseq := 0;
      ents, where := map[], map[];
    }

    method AddToFlist(ft: int, id: int, parent: int)
      requires Shape() && 0 <= ft < NFT
      modifies `nfiles, `fents
      ensures Shape() && Lists() == old(Lists())[ft := old(Lists())[ft] + [Fent(id, parent)]]
    {
      if nfiles[ft] == |fents[ft]| {
        var more: seq<Fent> := seq(SLOT_INCR, _ => Fent(0, 0));
        fents := fents[ft := fents[ft] + more];
      }
      fents := fents[ft := fents[ft][nfiles[ft] := Fent(id, parent)]];
      nfiles := nfiles[ft := nfiles[ft] + 1];
      assert Lists()[ft] == old(Lists())[ft] + [Fent(id, parent)];
    }

    method DcachePurge(dirid: int)
      requires Shape() && Cached(dcache, Lists()[DIR]) && dirid >= 0
      modifies `dcache
      ensures dcache == Purged(old(dcache), Lists()[DIR], dirid)
    {
      var h := dirid % NDCACHE;
      if dcache[h] >= 0 && fents[DIR][dcache[h]].id == dirid { dcache := dcache[h := -1]; }
    }

    method DelFromFlist(ft: int, slot: nat)
      requires Shape() && 0 <= ft < NFT && slot < nfiles[ft] && Unique(Lists()[DIR]) && Cached(dcache, Lists()[DIR])
      requires ft == DIR ==> forall i | 0 <= i < nfiles[ft] :: fents[ft][i].id >= 0
      modifies `nfiles, `fents, `dcache
      ensures Shape() && Lists() == old(Lists())[ft := RemoveAt(old(Lists())[ft], slot)] && Cached(dcache, Lists()[DIR])
    {
      hide Cached, Purged, Unique;
      ghost var ls := Lists();
      ghost var l := ls[ft];
      if ft == DIR {
        PurgedDel(dcache, l, slot);
        DcachePurge(fents[ft][slot].id);
      }
      if slot != nfiles[ft] - 1 {
        if ft == DIR { DcachePurge(fents[ft][nfiles[ft] - 1].id); }
        nfiles := nfiles[ft := nfiles[ft] - 1];
        fents := fents[ft := fents[ft][slot := fents[ft][nfiles[ft]]]];
      } else {
        nfiles := nfiles[ft := nfiles[ft] - 1];
      }
      assert Lists()[ft] == RemoveAt(l, slot);
      assert Lists() == ls[ft := RemoveAt(l, slot)];
    }

    /** The cache answers as a scan of the whole list would. */
    method DiridToFent(dirid: int) returns (r: int)
      requires Shape() && Unique(Lists()[DIR]) && Cached(dcache, Lists()[DIR]) && dirid >= 0
      modifies `dcache
      ensures r == Scan(Lists()[DIR], dirid) && Cached(dcache, Lists()[DIR])
    {
      var i := dcache[dirid % NDCACHE];
      if i >= 0 && fents[DIR][i].id == dirid { return i; }
      r := 0;
      while r < nfiles[DIR]
        invariant 0 <= r <= nfiles[DIR] && dcache == old(dcache)
        invariant forall k | 0 <= k < r :: fents[DIR][k].id != dirid
      {
        if fents[DIR][r].id == dirid {
          dcache := dcache[dirid % NDCACHE := r];
          return;
        }
        r := r + 1;
      }
      r := -1;
    }

    /** The path of an entry, from its parents' entries. */
    method FentToName(ft: int, e: Fent) returns (path: Path)
      requires Valid() && (e.parent == -1 || (e.parent in ents && ents[e.parent].ft == DIR))
      modifies `dcache
      ensures Valid() && path == Base(where, e.parent) + [Name(ft, e.id)]
      decreases |Base(where, e.parent)|
    {
      path := [];
      if e.parent != -1 {
        assert OneList(Lists()[DIR], ents, DIR) && RootedAt(ents, where, e.parent);
        var r := DiridToFent(e.parent);
        if r != -1 { path := FentToName(DIR, fents[DIR][r]); }
      }
      path := path + [Name(ft, e.id)];
    }

    method FixParent(was: int, now: int)
      requires Shape()
      modifies `fents
      ensures Shape() && FixedLists(old(Lists()), Lists(), was, now)
    {
      var i := 0;
      while i < NFT
        invariant 0 <= i <= NFT && Shape()
        invariant forall t | 0 <= t < i :: FixedList(old(Lists())[t], Lists()[t], was, now)
        invariant forall t | i <= t < NFT :: fents[t] == old(fents)[t]
      {
        ghost var before := fents;
        var j := 0;
        while j < nfiles[i]
          invariant 0 <= j <= nfiles[i] && Shape() && |fents[i]| == |old(fents)[i]|
          invariant forall t | 0 <= t < NFT && t != i :: fents[t] == before[t]
          invariant forall k | 0 <= k < j :: fents[i][k] == Fixed(old(fents)[i][k], was, now)
          invariant forall k | j <= k < |fents[i]| :: fents[i][k] == old(fents)[i][k]
        {
          if fents[i][j].parent == was { fents := fents[i := fents[i][j := fents[i][j].(parent := now)]]; }
          j := j + 1;
        }
        i := i + 1;
      }
    }

    /** Picks the entry numbered `r`, modulo their number, among the lists asked for; type -1 if there is none. */
    method GetFname(which: seq<bool>, r: nat) returns (ft: int, slot: int)
      requires Shape() && |which| == NFT
      ensures ft == -1 <==> Chosen(which, Lists(), NFT) == []
      ensures ft != -1 ==> 0 <= ft < NFT && which[ft] && 0 <= slot < nfiles[ft]
      ensures ft != -1 ==> var l := Chosen(which, Lists(), NFT); Lists()[ft][slot] == l[r % |l|]
    {
      hide Chosen, InUse;
      ghost var ls := Lists();
      LengthsInUse(fents, nfiles);
      NothingChosen(which, ls);
      var c := 0;
      ft, slot := 0, 0;
      while ft < NFT
        invariant 0 <= ft <= NFT && c == |Chosen(which, ls, ft)|
      {
        ChosenStep(which, ls, ft);
        if which[ft] { c := c + nfiles[ft]; }
        ft := ft + 1;
      }
      if c == 0 { return -1, 0; }
      var x := r % c;
      ft, c := 0, 0;
      while ft < NFT
        invariant 0 <= ft <= NFT && c == |Chosen(which, ls, ft)| && c <= x
      {
        ChosenStep(which, ls, ft);
        if which[ft] {
          if x < c + nfiles[ft] {
            ChosenPrefix(which, ls, ft + 1, NFT);
            return ft, x - c;
          }
          c := c + nfiles[ft];
        }
        ft := ft + 1;
      }
      assert false;
    }

    /** An entry of the types asked for, with its path; type -1 if there is none. */
    method Pick(which: seq<bool>, r: nat) returns (ft: int, slot: int, path: Path)
      requires Valid() && |which| == NFT
      modifies `dcache
      ensures Valid() && (ft == -1 <==> Chosen(which, Lists(), NFT) == [])
      ensures ft != -1 ==> 0 <= ft < NFT && which[ft] && 0 <= slot < nfiles[ft]
      ensures ft != -1 ==> Numbered(Chosen(which, Lists(), NFT), r) == fents[ft][slot].id
      ensures ft != -1 ==> Scan(Lists()[ft], fents[ft][slot].id) == slot
      ensures ft != -1 ==> var id := fents[ft][slot].id; id in ents && ents[id].ft == ft && id in where && path == where[id]
    {
      hide Rooted, Cached, Paths, Chosen;
      path := [];
      ft, slot := GetFname(which, r);
      if ft == -1 { return; }
      ListedEntry(Lists(), ents, ft, slot);
      ListedSlot(Lists(), ents, ft, slot);
      RootedParent(ents, where, fents[ft][slot].id);
      path := FentToName(ft, fents[ft][slot]);
    }

    /** A directory to put something into: its id (-1 for the top) and path. */
    method PickDir(r: nat) returns (parid: int, path: Path)
      requires Valid()
      modifies `dcache
      ensures Valid() && (parid == -1 || (parid in ents && ents[parid].ft == DIR)) && path == Base(where, parid)
      ensures parid == Numbered(Lists()[DIR], r)
    {
      hide Listed, Rooted, Cached, Paths, Chosen;
      RootId(ents, where);
      RootKeys(ents, where);
      ChosenDirs(Lists());
      var ft, slot;
      ft, slot, path := Pick([true, false, false, false, false], r);
      if ft == -1 { return -1, []; }
      parid := fents[ft][slot].id;
    }

    /** The end of creat_f, mkdir_f, mknod_f, symlink_f and link_f: a new name that the kernel has accepted. */
    method Enter(ft: int, id: int, parid: int, path: Path)
      requires Shape() && Listed(Lists(), ents) && Cached(dcache, Lists()[DIR]) && 0 <= ft < NFT
      requires (forall x | x in ents :: 0 <= x < nameseq && x != id) && 0 <= id < nameseq
      requires Rooted(ents, where) && (parid == -1 || (parid in ents && ents[parid].ft == DIR))
      requires path == Base(where, parid) + [Name(ft, id)] && kernel.tree == Paths(where) + {path}
      modifies this
      ensures Valid() && ents == old(ents)[id := Ent(ft, parid)] && where == old(where)[id := path]
      ensures Lists() == old(Lists())[ft := old(Lists())[ft] + [Fent(id, parid)]] && nameseq == old(nameseq)
    {
      hide Listed, Rooted, Paths;
      AddToFlist(ft, id, parid);
      ListedAdd(old(Lists()), ents, ft, id, parid);
      RootedAdd(ents, where, id, Ent(ft, parid));
      ents, where := ents[id := Ent(ft, parid)], where[id := path];
    }

    /** creat_f, mkdir_f, mknod_f, symlink_f: unless the kernel refuses, the new file is there. */
    method Create(ft: int, r: nat, refuse: bool) returns (ok: bool)
      requires Valid() && 0 <= ft < NFT
      modifies this, kernel
      ensures Valid() && ok == !refuse && nameseq == old(nameseq) + 1
      ensures var dirs := old(Lists())[DIR];
        var parid := if dirs == [] then -1 else dirs[r % |dirs|].id;
        ents == if ok then old(ents)[old(nameseq) := Ent(ft, parid)] else old(ents)
      ensures Now() == Step(old(Now()), Creat(ft, r, refuse))
    {
      hide Listed, Rooted, Cached, Paths;
      ListedTypes(Lists(), ents);
      RootKeys(ents, where);
      var parid, dir := PickDir(r);
      var id := nameseq;
      nameseq := nameseq + 1;
      var path := dir + [Name(ft, id)];
      FreshPath(ents, where, id, path);
      DirPath(ents, where, parid);
      assert path[..|path| - 1] == dir;
      ok := kernel.Make(path, refuse);
      if ok { Enter(ft, id, parid, path); }
    }

    /** The end of rmdir_f and unlink_f: an entry without children is gone. */
    method Leave(ft: int, slot: nat, path: Path)
      requires Shape() && Listed(Lists(), ents) && Cached(dcache, Lists()[DIR]) && 0 <= ft < NFT && slot < nfiles[ft]
      requires (forall x | x in ents :: 0 <= x < nameseq) && Rooted(ents, where)
      requires fents[ft][slot].id in ents && path == where[fents[ft][slot].id] && kernel.tree == Paths(where) - {path}
      requires forall x | x in ents :: ents[x].parent != fents[ft][slot].id
      modifies this
      ensures Valid() && ents == old(ents) - {old(fents[ft][slot]).id} && where == old(where) - {old(fents[ft][slot]).id}
      ensures Lists() == old(Lists())[ft := RemoveAt(old(Lists())[ft], slot)] && nameseq == old(nameseq)
    {
      hide Rooted, Paths, RemoveAt;
      ghost var id := fents[ft][slot].id;
      ListedDel(Lists(), ents, ft, slot);
      RootedDel(ents, where, id);
      ListedUnique(Lists(), ents, nameseq);
      DelFromFlist(ft, slot);
      ents, where := ents - {id}, where - {id};
    }

    /** rmdir_f: a directory goes exactly when it has no entries, unless the kernel refuses. */
    method RmdirF(r: nat, refuse: bool) returns (ok: bool, ghost id: int)
      requires Valid()
      modifies this, kernel
      ensures Valid() && nameseq == old(nameseq)
      ensures id in old(ents) <==> exists x :: x in old(ents) && old(ents)[x].ft == DIR
      ensures var l := old(Lists())[0]; l != [] ==> id == l[r % |l|].id
      ensures ok ==> id in old(ents) && old(ents)[id].ft == DIR
      ensures id in old(ents) ==> (ok <==> !refuse && forall x | x in old(ents) :: old(ents)[x].parent != id)
      ensures ents == if ok then old(ents) - {id} else old(ents)
      ensures Now() == Step(old(Now()), Rmdir(r, refuse))
    {
      hide Listed, Rooted, Cached, Paths, Chosen, RemoveAt, Scan;
      ok, id := false, -1;
      RootId(ents, where);
      ChosenDirs(Lists());
      ListedDirs(Lists(), ents);
      ListedTypes(Lists(), ents);
      RootKeys(ents, where);
      var ft, slot, path := Pick([true, false, false, false, false], r);
      if ft == -1 { return; }
      id := fents[ft][slot].id;
      PathOf(ents, where, id);
      RootedParent(ents, where, id);
      EmptyDir(ents, where, id);
      ok := kernel.Rmdir(path, refuse);
      if ok { Leave(ft, slot, path); }
    }

    /** unlink_f. */
    method UnlinkF(r: nat, refuse: bool) returns (ok: bool, ghost id: int)
      requires Valid()
      modifies this, kernel
      ensures Valid() && nameseq == old(nameseq)
      ensures id in old(ents) <==> exists x :: x in old(ents) && old(ents)[x].ft != DIR
      ensures var l := old(Lists())[1] + old(Lists())[2] + old(Lists())[3] + old(Lists())[4]; l != [] ==> id == l[r % |l|].id
      ensures ok ==> id in old(ents) && old(ents)[id].ft != DIR
      ensures id in old(ents) ==> ok == !refuse
      ensures ents == if ok then old(ents) - {id} else old(ents)
      ensures Now() == Step(old(Now()), Unlink(r, refuse))
    {
      hide Listed, Rooted, Cached, Paths, Chosen, RemoveAt, Scan;
      ok, id := false, -1;
      RootId(ents, where);
      ChosenFiles(Lists());
      ListedFiles(Lists(), ents);
      ListedTypes(Lists(), ents);
      RootKeys(ents, where);
      var ft, slot, path := Pick([false, true, true, true, true], r);
      if ft == -1 { return; }
      id := fents[ft][slot].id;
      RootedParent(ents, where, id);
      ChildlessFile(ents, where, id);
      ok := kernel.Unlink(path, refuse);
      if ok { Leave(ft, slot, path); }
    }

    /** The second half of link_f: a new name in the directory that was picked. */
    method LinkTo(ft: int, ghost src: int, f: Path, parid: int, dir: Path, refuse: bool) returns (ok: bool)
      requires Valid() && Sound(Now()) && 0 <= ft < NFT && ft != DIR
      requires parid == -1 || (parid in ents && ents[parid].ft == DIR)
      requires dir == Base(where, parid) && src in ents && ents[src].ft == ft && src in where && f == where[src]
      modifies this, kernel
      ensures Valid() && ok == !refuse
      ensures Now() == if ok then Entered(old(Now()), ft, parid) else old(Now()).(next := old(nameseq) + 1)
    {
      hide Listed, Rooted, Cached, Paths;
      RootedParent(ents, where, src);
      ChildlessFile(ents, where, src);
      var id := nameseq;
      nameseq := nameseq + 1;
      var path := dir + [Name(ft, id)];
      FreshPath(ents, where, id, path);
      DirPath(ents, where, parid);
      assert path[..|path| - 1] == dir;
      ok := kernel.Link(f, path, refuse);
      if ok { Enter(ft, id, parid, path); }
    }

    /** link_f: a second name for something that is not a directory. */
    method LinkF(r: nat, r2: nat, refuse: bool) returns (ok: bool, ghost src: int)
      requires Valid()
      modifies this, kernel
      ensures Valid()
      ensures src in old(ents) <==> exists x :: x in old(ents) && old(ents)[x].ft != DIR
      ensures var l := old(Lists())[1] + old(Lists())[2] + old(Lists())[3] + old(Lists())[4]; l != [] ==> src == l[r % |l|].id
      ensures ok ==> src in old(ents) && old(ents)[src].ft != DIR
      ensures ok ==>
        var dirs := old(Lists())[DIR];
        var parid := if dirs == [] then -1 else dirs[r2 % |dirs|].id;
        ents == old(ents)[old(nameseq) := Ent(old(ents)[src].ft, parid)]
      ensures !ok ==> ents == old(ents)
      ensures src in old(ents) ==> ok == !refuse
      ensures Now() == Step(old(Now()), Link(r, r2, refuse))
    {
      hide Listed, Rooted, Cached, Paths, Chosen;
      ok, src := false, -1;
      RootId(ents, where);
      ChosenFiles(Lists());
      ListedFiles(Lists(), ents);
      ListedTypes(Lists(), ents);
      RootKeys(ents, where);
      var ft, slot, f := Pick([false, true, true, true, true], r);
      if ft == -1 { return; }
      src := fents[ft][slot].id;
      var parid, dir := PickDir(r2);
      ok := LinkTo(ft, src, f, parid, dir, refuse);
    }

    /** The list work of rename_f: the children follow, the old entry goes, the new one comes. */
    method Relist(ft: int, slot: nat, now: int, parid: int)
      requires Shape() && Listed(Lists(), ents) && Cached(dcache, Lists()[DIR]) && 0 <= ft < NFT && slot < nfiles[ft]
      requires (forall x | x in ents :: 0 <= x < nameseq) && now !in ents
      requires ft != DIR ==> FixedEnts(ents, fents[ft][slot].id, now) == ents
      modifies `nfiles, `fents, `dcache
      ensures Shape() && Cached(dcache, Lists()[DIR])
      ensures Listed(Lists(), Renamed(ents, old(fents[ft][slot]).id, now, Ent(ft, parid)))
      ensures Lists() == Relisted(old(Lists()), ft, old(fents[ft][slot]).id, now, parid)
    {
      hide Listed, Cached, FixedEnts, RemoveAt, FixedLists, Unique, FixAll, Scan;
      ghost var was, ls := fents[ft][slot].id, Lists();
      ghost var fixed := FixedEnts(ents, was, now);
      FixedKeys(ents, was, now);
      if ft == DIR {
        FixParent(fents[ft][slot].id, now);
        FixedSame(ls, Lists(), was, now);
        ListedFix(ls, Lists(), ents, was, now);
        CachedFix(dcache, ls, Lists(), was, now, slot);
      }
      ghost var ls1 := Lists();
      ListedUnique(ls1, fixed, nameseq);
      ListedSlot(ls1, fixed, ft, slot);
      ListedDel(ls1, fixed, ft, slot);
      ListedUnique(ls1, fixed, nameseq);
      DelFromFlist(ft, slot);
      ghost var ls2 := Lists();
      AddToFlist(ft, now, parid);
      ListedAdd(ls2, fixed - {was}, ft, now, parid);
      CachedAdd(dcache, ls2[DIR], Lists()[DIR]);
    }

    /** The end of rename_f: the kernel has moved the subtree. */
    method Rehang(ft: int, slot: nat, now: int, parid: int, path: Path)
      requires Shape() && Listed(Lists(), ents) && Cached(dcache, Lists()[DIR]) && 0 <= ft < NFT && slot < nfiles[ft]
      requires (forall x | x in ents :: 0 <= x < nameseq && x != now) && 0 <= now < nameseq && Rooted(ents, where)
      requires parid == -1 || (parid in ents && ents[parid].ft == DIR)
      requires fents[ft][slot].id in ents && ents[fents[ft][slot].id].ft == ft && fents[ft][slot].id in where
      requires path == Base(where, parid) + [Name(ft, now)] && !(where[fents[ft][slot].id] <= path)
      requires kernel.tree == MovedAll(Paths(where), where[fents[ft][slot].id], path)
      modifies this
      ensures Valid() && ents == Renamed(old(ents), old(fents[ft][slot]).id, now, Ent(ft, parid))
      ensures old(fents[ft][slot]).id in old(where)
      ensures where == RenamedWhere(old(ents), old(where), old(fents[ft][slot]).id, now, Ent(ft, parid), path)
      ensures Lists() == Relisted(old(Lists()), ft, old(fents[ft][slot]).id, now, parid) && nameseq == old(nameseq)
    {
      hide Listed, Rooted, Cached, Paths, Renamed, RenamedWhere, MovedAll, Relisted;
      ghost var was, e := fents[ft][slot].id, Ent(ft, parid);
      RootKeys(ents, where);
      if ft != DIR { ChildlessFixed(ents, where, was, now); }
      RootedRename(ents, where, was, now, e, path);
      RenamedKeys(ents, was, now, e);
      Relist(ft, slot, now, parid);
      where := RenamedWhere(ents, where, was, now, e, path);
      ents := Renamed(ents, was, now, e);
    }

    /** The second half of rename_f: a new name in the directory that was picked. */
    method Retitle(ft: int, slot: nat, f: Path, parid: int, dir: Path, refuse: bool) returns (ok: bool)
      requires Valid() && Sound(Now()) && 0 <= ft < NFT && slot < nfiles[ft]
      requires parid == -1 || (parid in ents && ents[parid].ft == DIR)
      requires dir == Base(where, parid)
      requires var was := fents[ft][slot].id; was in ents && ents[was].ft == ft && was in where && f == where[was]
      modifies this, kernel
      ensures Valid() && (ok <==> !refuse && !(f <= dir))
      ensures Now() == if ok then Rehung(old(Now()), old(fents[ft][slot]).id, parid) else old(Now()).(next := old(nameseq) + 1)
    {
      hide Listed, Rooted, Cached, Paths, Renamed, RenamedWhere, MovedAll, Relisted;
      ghost var was := fents[ft][slot].id;
      var id := nameseq;
      nameseq := nameseq + 1;
      RootedParent(ents, where, was);
      FreshPath(ents, where, id, dir + [Name(ft, id)]);
      DirPath(ents, where, parid);
      NewNameApart(ents, where, was, dir, Name(ft, id));
      ok := kernel.Rename(f, dir + [Name(ft, id)], refuse);
      if ok { Rehang(ft, slot, id, parid, dir + [Name(ft, id)]); }
    }

    /** rename_f: it fails exactly when the kernel refuses or the target lies inside what is moved. */
    method RenameF(r: nat, r2: nat, refuse: bool) returns (ok: bool, ghost was: int, ghost parid: int)
      requires Valid()
      modifies this, kernel
      ensures Valid()
      ensures was in old(ents) <==> old(ents) != map[]
      ensures var l := old(Lists())[0] + old(Lists())[1] + old(Lists())[2] + old(Lists())[3] + old(Lists())[4];
        l != [] ==> was == l[r % |l|].id
      ensures was in old(ents) ==> var dirs := old(Lists())[DIR]; parid == if dirs == [] then -1 else dirs[r2 % |dirs|].id
      ensures !ok ==> ents == old(ents)
      ensures ok ==> was in old(ents) && ents == Renamed(old(ents), was, old(nameseq), Ent(old(ents)[was].ft, parid))
      ensures was in old(ents) ==> was in old(where)
      ensures was in old(ents) ==> (ok <==> !refuse && !(old(where)[was] <= Base(old(where), parid)))
      ensures Now() == Step(old(Now()), Rename(r, r2, refuse))
    {
      hide Listed, Rooted, Cached, Paths, Renamed, RenamedWhere, MovedAll, Relisted, Chosen;
      ok, was, parid := false, -1, -1;
      RootId(ents, where);
      ChosenAll(Lists());
      ListedAll(Lists(), ents);
      ListedTypes(Lists(), ents);
      RootKeys(ents, where);
      var ft, slot, f := Pick([true, true, true, true, true], r);
      if ft == -1 { return; }
      var par, dir := PickDir(r2);
      was, parid := fents[ft][slot].id, par;
      ok := Retitle(ft, slot, f, par, dir, refuse);
    }

    /** doproc: any run of operations does what the operations do one after another, and keeps the lists an exact picture of the files. */
    method Doproc(ops: seq<Op>)
      requires Valid()
      modifies this, kernel
      ensures Valid() && Sound(old(Now())) && Now() == Steps(old(Now()), ops)
    {
      hide Listed, Rooted, Cached, Paths, Step;
      ListedTypes(Lists(), ents);
      RootKeys(ents, where);
      for i := 0 to |ops|
        invariant Valid() && Now() == Steps(old(Now()), ops[..i])
      {
        var ok;
        ghost var id, parid;
        assert ops[..i + 1] == ops[..i] + [ops[i]];
        match ops[i]
        case Creat(ft, r, refuse) => ok := Create(ft, r, refuse);
        case Link(r, r2, refuse) => ok, id := LinkF(r, r2, refuse);
        case Rename(r, r2, refuse) => ok, id, parid := RenameF(r, r2, refuse);
        case Rmdir(r, refuse) => ok, id := RmdirF(r, refuse);
        case Unlink(r, refuse) => ok, id := UnlinkF(r, refuse);
      }
      assert ops[..|ops|] == ops;
    }
  }

  lemma FixedKeys(ents: map<int, Ent>, was: int, now: int)
    ensures FixedEnts(ents, was, now).Keys == ents.Keys
  {
  }

  lemma CachedFix(dcache: seq<int>, ls: seq<seq<Fent>>, ls': seq<seq<Fent>>, was: int, now: int, slot: nat)
    requires |ls| == NFT && FixedLists(ls, ls', was, now) && Cached(dcache, ls[DIR])
    ensures Cached(dcache, ls'[DIR]) && |ls'[DIR]| == |ls[DIR]|
    ensures slot < |ls[DIR]| ==> ls'[DIR][slot].id == ls[DIR][slot].id
  {
    assert FixedList(ls[DIR], ls'[DIR], was, now);
  }

  lemma CachedAdd(dcache: seq<int>, l: seq<Fent>, l': seq<Fent>)
    requires Cached(dcache, l) && l <= l'
    ensures Cached(dcache, l')
  {
  }

  /** A path that ends in a new name lies inside an entry exactly when its directory does. */
  lemma NewNameApart(ents: map<int, Ent>, where: map<int, Path>, id: int, dir: Path, n: Name)
    requires Rooted(ents, where) && id in ents && n.id != id
    ensures where[id] <= dir + [n] <==> where[id] <= dir
    ensures (dir + [n])[..|dir + [n]| - 1] == dir
  {
    PathOf(ents, where, id);
    if where[id] <= dir + [n] {
      assert where[id] != dir + [n];
      assert |where[id]| <= |dir| && (dir + [n])[..|where[id]|] == dir[..|where[id]|];
    }
  }

  /** The lists asked for, of the types below `n`, one behind the other. */
  ghost function Chosen(which: seq<bool>, ls: seq<seq<Fent>>, n: int): seq<Fent>
    requires 0 <= n <= NFT && |which| == NFT == |ls|
    decreases n
  {
    if n <= 0 then [] else Chosen(which, ls, n - 1) + if which[n - 1] then ls[n - 1] else []
  }

  lemma NothingChosen(which: seq<bool>, ls: seq<seq<Fent>>)
    requires |which| == NFT == |ls|
    ensures Chosen(which, ls, 0) == []
  {
  }

  lemma ChosenStep(which: seq<bool>, ls: seq<seq<Fent>>, n: nat)
    requires n < NFT && |which| == NFT == |ls|
    ensures Chosen(which, ls, n + 1) == if which[n] then Chosen(which, ls, n) + ls[n] else Chosen(which, ls, n)
  {
  }

  lemma {:induction false} ChosenPrefix(which: seq<bool>, ls: seq<seq<Fent>>, n: int, m: int)
    requires 0 <= n <= m <= NFT && |which| == NFT == |ls|
    ensures Chosen(which, ls, n) <= Chosen(which, ls, m)
    decreases m
  {
    if n < m { ChosenPrefix(which, ls, n, m - 1); }
  }

  lemma ChosenDirs(ls: seq<seq<Fent>>)
    requires |ls| == NFT
    ensures Chosen([true, false, false, false, false], ls, NFT) == ls[DIR]
  {
    var w := [true, false, false, false, false];
    assert Chosen(w, ls, 1) == ls[0] == Chosen(w, ls, 2) == Chosen(w, ls, 3) == Chosen(w, ls, 4);
  }

  lemma ChosenFiles(ls: seq<seq<Fent>>)
    requires |ls| == NFT
    ensures Chosen([false, true, true, true, true], ls, NFT) == Files(ls)
  {
    hide Chosen;
    var w := [false, true, true, true, true];
    NothingChosen(w, ls);
    ChosenStep(w, ls, 0);
    ChosenStep(w, ls, 1);
    assert Chosen(w, ls, 2) == ls[1];
    ChosenStep(w, ls, 2);
    ChosenStep(w, ls, 3);
    ChosenStep(w, ls, 4);
  }

  lemma ChosenAll(ls: seq<seq<Fent>>)
    requires |ls| == NFT
    ensures Chosen([true, true, true, true, true], ls, NFT) == Everything(ls)
  {
    hide Chosen;
    var w := [true, true, true, true, true];
    NothingChosen(w, ls);
    ChosenStep(w, ls, 0);
    var a := ls[0];
    assert Chosen(w, ls, 1) == a;
    ChosenStep(w, ls, 1);
    var b := a + ls[1];
    ChosenStep(w, ls, 2);
    var c := b + ls[2];
    assert Chosen(w, ls, 3) == c;
    ChosenStep(w, ls, 3);
    ChosenStep(w, ls, 4);
    assert Chosen(w, ls, NFT) == c + ls[3] + ls[4];
  }

  /** A list of one type is empty exactly when there is no entry of that type. */
  lemma ListedSome(ls: seq<seq<Fent>>, ents: map<int, Ent>, ft: int)
    requires Listed(ls, ents) && 0 <= ft < NFT
    ensures ls[ft] == [] <==> forall x | x in ents :: ents[x].ft != ft
  {
    assert OneList(ls[ft], ents, ft);
    if ls[ft] != [] { assert ls[ft][0].id in ents; }
  }

  lemma ListedDirs(ls: seq<seq<Fent>>, ents: map<int, Ent>)
    requires Listed(ls, ents)
    ensures ls[DIR] != [] <==> exists x :: x in ents && ents[x].ft == DIR
  {
    ListedSome(ls, ents, DIR);
  }

  lemma ListedFiles(ls: seq<seq<Fent>>, ents: map<int, Ent>)
    requires Listed(ls, ents)
    ensures Files(ls) != [] <==> exists x :: x in ents && ents[x].ft != DIR
  {
    forall ft | 0 <= ft < NFT
      ensures ls[ft] == [] <==> forall x | x in ents :: ents[x].ft != ft
    {
      ListedSome(ls, ents, ft);
    }
    assert Files(ls) != [] <==> exists ft :: 1 <= ft < NFT && ls[ft] != [];
  }

  lemma ListedAll(ls: seq<seq<Fent>>, ents: map<int, Ent>)
    requires Listed(ls, ents)
    ensures Everything(ls) != [] <==> ents != map[]
  {
    ListedDirs(ls, ents);
    ListedFiles(ls, ents);
    NoKeys(ents);
  }

  lemma ListedTypes(ls: seq<seq<Fent>>, ents: map<int, Ent>)
    requires Listed(ls, ents)
    ensures |ls| == NFT && forall id | id in ents :: 0 <= ents[id].ft < NFT
  {
  }

  /** An id is found where its entry is. */
  lemma ListedSlot(ls: seq<seq<Fent>>, ents: map<int, Ent>, ft: int, slot: nat)
    requires Listed(ls, ents) && 0 <= ft < NFT && slot < |ls[ft]|
    ensures Scan(ls[ft], ls[ft][slot].id) == slot
  {
    assert OneList(ls[ft], ents, ft);
  }

  lemma FixedSame(ls: seq<seq<Fent>>, ls': seq<seq<Fent>>, was: int, now: int)
    requires FixedLists(ls, ls', was, now)
    ensures ls' == FixAll(ls, was, now)
  {
    var fixed := FixAll(ls, was, now);
    forall ft | 0 <= ft < |ls|
      ensures ls'[ft] == fixed[ft]
    {
      assert FixedList(ls[ft], ls'[ft], was, now) && FixedList(ls[ft], fixed[ft], was, now);
    }
  }

  lemma FreshPath(ents: map<int, Ent>, where: map<int, Path>, id: int, path: Path)
    requires Rooted(ents, where) && id !in ents && path != [] && path[|path| - 1].id == id
    ensures path !in Paths(where)
  {
    forall x | x in where
      ensures where[x] != path
    {
      PathOf(ents, where, x);
    }
  }

  /** The path of a directory is there, and its last component says that it is one. */
  lemma DirPath(ents: map<int, Ent>, where: map<int, Path>, id: int)
    requires Rooted(ents, where) && (id == -1 || (id in ents && ents[id].ft == DIR))
    ensures Base(where, id) == [] || (Base(where, id) in Paths(where) && Base(where, id)[|Base(where, id)| - 1].ft == DIR)
  {
    if id != -1 { PathOf(ents, where, id); }
  }

  lemma RootId(ents: map<int, Ent>, where: map<int, Path>)
    requires Rooted(ents, where)
    ensures -1 !in ents
  {
  }

  lemma RootKeys(ents: map<int, Ent>, where: map<int, Path>)
    requires Rooted(ents, where)
    ensures where.Keys == ents.Keys
  {
  }

  lemma NoKeys(ents: map<int, Ent>)
    ensures (forall id :: id !in ents) ==> ents == map[]
  {
    if forall id :: id !in ents { assert ents.Keys == {}; }
  }

  lemma RootedParent(ents: map<int, Ent>, where: map<int, Path>, id: int)
    requires Rooted(ents, where) && id in ents
    ensures var p := ents[id].parent; p == -1 || (p in ents && ents[p].ft == DIR)
    ensures id in where && where[id] == Base(where, ents[id].parent) + [Name(ents[id].ft, id)] && where[id] in Paths(where)
  {
    assert RootedAt(ents, where, id);
  }

  lemma ListedUnique(ls: seq<seq<Fent>>, ents: map<int, Ent>, bound: int)
    requires Listed(ls, ents) && forall x | x in ents :: 0 <= x < bound
    ensures Unique(ls[DIR]) && forall ft, i | 0 <= ft < NFT && 0 <= i < |ls[ft]| :: ls[ft][i].id >= 0
  {
    forall ft, i | 0 <= ft < NFT && 0 <= i < |ls[ft]|
      ensures ls[ft][i].id >= 0
    {
      assert OneList(ls[ft], ents, ft);
    }
    assert OneList(ls[DIR], ents, DIR);
  }

  /** A directory is empty on disk exactly when no entry names it as parent. */
  lemma EmptyDir(ents: map<int, Ent>, where: map<int, Path>, id: int)
    requires Rooted(ents, where) && id in ents
    ensures (forall q | q in Paths(where) :: !(where[id] < q)) <==> forall x | x in ents :: ents[x].parent != id
  {
    forall x | x in ents && ents[x].parent == id
      ensures where[x] in Paths(where) && where[id] < where[x]
    {
      assert RootedAt(ents, where, x);
    }
    if forall x | x in ents :: ents[x].parent != id {
      forall x | x in where
        ensures !(where[id] < where[x])
      {
        NothingBelow(ents, where, id, x);
      }
    }
  }

  lemma {:induction false} NothingBelow(ents: map<int, Ent>, where: map<int, Path>, id: int, x: int)
    requires Rooted(ents, where) && id in ents && x in ents && forall y | y in ents :: ents[y].parent != id
    ensures !(where[id] < where[x])
    decreases |where[x]|
  {
    assert RootedAt(ents, where, x);
    var p := ents[x].parent;
    PathOf(ents, where, id);
    if where[id] < where[x] {
      var b := Base(where, p);
      assert where[id] <= b;
      assert p in ents;
      PathOf(ents, where, p);
      NothingBelow(ents, where, id, p);
    }
  }

  lemma ChildlessFile(ents: map<int, Ent>, where: map<int, Path>, id: int)
    requires Rooted(ents, where) && id in ents && ents[id].ft != DIR
    ensures forall x | x in ents :: ents[x].parent != id
    ensures where[id] != [] && where[id][|where[id]| - 1].ft != DIR
  {
    PathOf(ents, where, id);
    forall x | x in ents
      ensures ents[x].parent != id
    {
      assert RootedAt(ents, where, x);
    }
  }
}
