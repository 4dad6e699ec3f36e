/**
 * Two pieces of bookkeeping from pass 1 of e2fsck: which blocks are claimed
 * once and which more than once, and the reference counts of extended
 * attribute blocks.
 */
module Pass1 {
  import opened Words
  import opened EaRefcount

  // ----- multiply claimed blocks -----

  datatype Claim = Claim(block: nat, num: nat)

  /** How often a sequence of claims covers a block. */
  function Times(claims: seq<Claim>, b: nat): nat {
    if claims == [] then 0
    else
      var c := claims[|claims| - 1];
      Times(claims[..|claims| - 1], b) + if Covers(c.block, c.num, b) then 1 else 0
  }

  predicate Covers(block: nat, num: nat, b: nat) { block <= b < block + num }

  function Range(block: nat, num: nat): set<nat> {
    set b: nat | b < block + num && Covers(block, num, b)
  }

  class BlockMaps {
    var foundMap: set<nat>
    var dupMap: set<nat>

    constructor ()
      ensures foundMap == {} && dupMap == {}
    {
      foundMap, dupMap := {}, {};
    }

    method MarkBlockUsed(block: nat)
      modifies this
      ensures foundMap == old(foundMap) + {block}
      ensures dupMap == old(dupMap) + (old(foundMap) * {block})
    {
      if block in foundMap {
        dupMap := dupMap + {block};
      } else {
        foundMap := foundMap + {block};
      }
    }

    /** The all-clear shortcut and the loop have the same effect. */
    method MarkBlocksUsed(block: nat, num: nat)
      modifies this
      ensures foundMap == old(foundMap) + Range(block, num)
      ensures dupMap == old(dupMap) + (old(foundMap) * Range(block, num))
    {
      if foundMap * Range(block, num) == {} {
        foundMap := foundMap + Range(block, num);
      } else {
        var n: nat, b: nat := num, block;
        while n > 0
          invariant b + n == block + num && block <= b
          invariant foundMap == old(foundMap) + Range(block, b - block)
          invariant dupMap == old(dupMap) + (old(foundMap) * Range(block, b - block))
        {
          MarkBlockUsed(b);
          n, b := n - 1, b + 1;
        }
        assert b - block == num;
      }
    }
  }

  /** After any claims, the maps hold the blocks claimed at least once and at least twice. */
  method ClaimAll(claims: seq<Claim>) returns (found: set<nat>, dup: set<nat>)
    ensures forall b: nat :: b in found <==> Times(claims, b) >= 1
    ensures forall b: nat :: b in dup <==> Times(claims, b) >= 2
  {
    var maps := new BlockMaps();
    var i := 0;
    while i < |claims|
      invariant i <= |claims|
      invariant forall b: nat :: b in maps.foundMap <==> Times(claims[..i], b) >= 1
      invariant forall b: nat :: b in maps.dupMap <==> Times(claims[..i], b) >= 2
    {
      assert claims[..i + 1][..i] == claims[..i];
      maps.MarkBlocksUsed(claims[i].block, claims[i].num);
      i := i + 1;
    }
    assert claims[..i] == claims;
    found, dup := maps.foundMap, maps.dupMap;
  }

  // ----- extended attribute reference counts -----

  /** One inode's reference: the block it names, and whether that block would pass validation. */
  datatype Reference = Reference(blk: nat, passes: bool)

  /** The file system: is the feature on, and which blocks may hold attributes. */
  datatype Geometry = Geometry(extAttr: bool, first: nat, blocks: nat) {
    predicate Admits(blk: nat) { blk != 0 && extAttr && first <= blk < blocks }
  }

  /** How many references to `b` check_ext_attr accepts. */
  function Accepted(g: Geometry, refs: seq<Reference>, b: nat): nat {
    if refs == [] then 0
    else
      var n, r := Accepted(g, refs[..|refs| - 1], b), refs[|refs| - 1];
      if r.blk == b && g.Admits(b) && (n > 0 || r.passes) then n + 1 else n
  }

  class ExtAttr {
    const geometry: Geometry
    var eaMap: set<nat>
    const maps: BlockMaps
    const refcount: Refcount
    const refcountExtra: Refcount
    /** h_refcount of every attribute block, as on disk. */
    var header: map<nat, int>
    ghost var refs: seq<Reference>

    ghost predicate Valid()
      reads this, refcount, refcountExtra
    {
      && refcount != refcountExtra && refcount.Valid() && refcountExtra.Valid()
      && (forall b: nat :: 0 <= Default(header, b) < U32)
      && (forall b: nat :: Account(b))
    }

    /** The two stores together remember how far the header is from the truth. */
    ghost predicate Account(b: nat)
      requires refcount.Valid() && refcountExtra.Valid()
      reads this, refcount, refcountExtra
    {
      Settles(Accepted(geometry, refs, b), b in eaMap, refcount.Value(b), refcountExtra.Value(b), Default(header, b))
    }

    constructor (geometry: Geometry, header: map<nat, int>)
      requires forall b: nat :: 0 <= Default(header, b) < U32
      ensures this.geometry == geometry && this.header == header && refs == [] && Valid()
      ensures eaMap == {} && maps.foundMap == {} && maps.dupMap == {}
      ensures fresh(refcount) && fresh(refcountExtra) && fresh(maps)
    {
      this.geometry, this.header, refs, eaMap := geometry, header, [], {};
      refcount := new Refcount(0);
      refcountExtra := new Refcount(0);
      maps := new BlockMaps();
    }

    /** check_ext_attr, with the validation of the block's contents reduced to its outcome. */
    method CheckExtAttr(blk: nat, passes: bool) returns (accepted: bool)
      requires Valid()
      modifies this`eaMap, this`refs, maps, refcount, refcountExtra
      ensures Valid() && refs == old(refs) + [Reference(blk, passes)]
      ensures accepted == (Accepted(geometry, refs, blk) > old(Accepted(geometry, refs, blk)))
      ensures accepted <==>
        blk != 0 && geometry.extAttr && geometry.first <= blk < geometry.blocks && (blk in old(eaMap) || passes)
      ensures eaMap == old(eaMap) + if accepted then {blk} else {}
      ensures var s := if accepted && blk !in old(eaMap) then {blk} else {};
        && maps.foundMap == old(maps.foundMap) + s
        && maps.dupMap == old(maps.dupMap) + (old(maps.foundMap) * s)
    {
      hide At, Ascending, Signed32;
      ghost var was, r := refs, Reference(blk, passes);
      assert (was + [r])[..|was|] == was;
      refs := refs + [r];
      assert forall b: nat :: b != blk ==> Accepted(geometry, refs, b) == Accepted(geometry, was, b);
      assert old(Account(blk));
      if blk == 0 || !geometry.extAttr || blk < geometry.first || blk >= geometry.blocks {
        accepted := false;
      } else if blk in eaMap {
        var status, _ := refcount.Decrement(blk);
        if status != Success {
          var _, _ := refcountExtra.Increment(blk);
        }
        accepted := true;
      } else if !passes {
        accepted := false;
      } else {
        var count := Signed32(Default(header, blk) - 1);
        if count != 0 {
          var _ := refcount.Store(blk, count);
        }
        maps.MarkBlockUsed(blk);
        eaMap := eaMap + {blk};
        accepted := true;
      }
      forall b: nat
        ensures Account(b)
      {
        assert old(Account(b));
      }
    }

    /** The blocks seen are those with an accepted reference. */
    lemma Seen()
      requires Valid()
      ensures forall b: nat :: b in eaMap <==> Accepted(geometry, refs, b) > 0
    {
      hide Accepted;
      forall b: nat
        ensures b in eaMap <==> Accepted(geometry, refs, b) > 0
      {
        assert Account(b);
      }
    }

    /** The end of pass 1: both stores are worked off. */
    method SettleAll()
      requires Valid()
      modifies this`header, refcount`cursor, refcountExtra`cursor
      ensures forall b: nat :: Default(header, b) == Truth(geometry, refs, old(header), b)
    {
      hide At, Ascending, Settles, Accepted;
      ghost var v, e := refcount.Used(), refcountExtra.Used();
      forall b: nat
        ensures ((Default(header, b) + -1 * At(v, b)) % U32 + 1 * At(e, b)) % U32 == Truth(geometry, refs, header, b)
        ensures b == 0 ==> At(v, b) == At(e, b) == 0
      {
        assert Account(b);
        NoneAccepted(geometry, refs, 0);
        SettlesTrue(Accepted(geometry, refs, b), b in eaMap, At(v, b), At(e, b), Default(header, b));
      }
      Adjust(refcount, -1);
      Adjust(refcountExtra, 1);
    }

    /** adjust_extattr_refcount, every proposed fix accepted. */
    method Adjust(store: Refcount, sign: int)
      requires store.Valid() && store.Value(0) == 0 && (store == refcount || store == refcountExtra)
      requires forall b: nat :: 0 <= Default(header, b) < U32
      modifies this`header, store`cursor
      ensures store.Valid() && store.Used() == old(store.Used())
      ensures forall b: nat :: Default(header, b) == (old(Default(header, b)) + sign * store.Value(b)) % U32
    {
      hide At, Ascending;
      ghost var u := store.Used();
      ghost var was := header;
      AtNothing(u);
      store.IntrBegin();
      while true
        invariant store.Valid() && store.Used() == u && store.cursor <= |u|
        invariant forall b: nat :: Default(header, b) == Adjusted(was, u, store.cursor, sign, b)
        decreases |u| - store.cursor
      {
        ghost var from := store.cursor;
        var blk, count := store.IntrNext();
        if blk == 0 {
          assert count == 0 by {
            if count != 0 { AtIndex(u, store.cursor - 1); }
          }
          forall b: nat ensures At(u, b) == At(u[..from], b) { AtTail(u, from, b); }
          break;
        }
        forall b: nat
          ensures At(u[..store.cursor], b) == if b == blk then count else At(u[..from], b)
          ensures b == blk ==> At(u[..from], b) == 0
        {
          AtPrefix(u, from, store.cursor, b);
        }
        ghost var h := header;
        header := header[blk := (Default(header, blk) + sign * count) % U32];
        forall b: nat
          ensures Default(header, b) == Adjusted(was, u, store.cursor, sign, b)
        {
          assert Default(h, b) == Adjusted(was, u, from, sign, b);
          assert sign * 0 == 0;
        }
      }
    }
  }

  lemma AtNothing(els: seq<Element>)
    ensures forall b: nat :: At(els[..0], b) == 0
  {
  }

  /** Elements without a count do not matter. */
  lemma {:induction false} AtTail(els: seq<Element>, k: nat, b: nat)
    requires Ascending(els) && k <= |els| && forall i | k <= i < |els| :: els[i].count == 0
    ensures At(els, b) == At(els[..k], b)
  {
    if k < |els| {
      var a, e := els[..|els| - 1], els[|els| - 1];
      AtTail(a, k, b);
      assert a[..k] == els[..k];
      if e.blk == b { AtAbsent(els[..k], b); }
    } else {
      assert els[..k] == els;
    }
  }

  lemma AtPrefix(els: seq<Element>, k: nat, k': nat, b: nat)
    requires Ascending(els) && k < k' <= |els| && forall i | k <= i < k' - 1 :: els[i].count == 0
    ensures At(els[..k'], b) == if els[k' - 1].blk == b then els[k' - 1].count else At(els[..k], b)
    ensures els[k' - 1].blk == b ==> At(els[..k], b) == 0
  {
    var a := els[..k'];
    assert a[..k' - 1] == els[..k' - 1] && els[..k' - 1][..k] == els[..k];
    AtTail(els[..k' - 1], k, b);
    if els[k' - 1].blk == b { AtAbsent(els[..k], b); }
  }

  predicate Settles(n: nat, seen: bool, v: int, e: int, h: int) {
    && (seen <==> n > 0)
    && (n == 0 ==> v == 0 && e == 0)
    && (n > 0 ==> v - e == Signed32(h - 1) - (n - 1) && e >= 0 && (e > 0 ==> v == 0))
  }

  /** The header after the first `k` elements of the store have been worked off. */
  ghost function Adjusted(h: map<nat, int>, els: seq<Element>, k: nat, sign: int, b: nat): int
    requires k <= |els|
  {
    (Default(h, b) + sign * At(els[..k], b)) % U32
  }

  /** Taking off what the block promised too much and adding what it promised too little leaves the truth. */
  lemma SettlesTrue(n: nat, seen: bool, v: int, e: int, h: int)
    requires Settles(n, seen, v, e, h) && 0 <= h < U32
    ensures ((h + -1 * v) % U32 + 1 * e) % U32 == if n > 0 then n % U32 else h
    ensures n == 0 ==> v == 0 && e == 0
  {
    if n > 0 {
      var k := (Signed32(h - 1) - (h - 1)) / U32;
      assert Signed32(h - 1) == h - 1 + k * U32;
      assert h - v + e == n - k * U32;
      ModShift(h - v, e, n, k);
    }
  }

  lemma ModShift(a: int, e: int, n: nat, k: int)
    requires a + e == n - k * U32
    ensures (a % U32 + e) % U32 == n % U32
  {
    var q := a / U32;
    assert a % U32 + e == n + (-k - q) * U32;
    ModMultiple(n, -k - q);
  }

  lemma ModMultiple(n: int, k: int)
    ensures (n + k * U32) % U32 == n % U32
  {
  }

  /** The count a block should carry. */
  function Truth(g: Geometry, refs: seq<Reference>, header: map<nat, int>, b: nat): int {
    var n := Accepted(g, refs, b);
    if n > 0 then n % U32 else Default(header, b)
  }

  /** From the first reference that passes validation on, every reference to the block is accepted. */
  lemma {:induction false} AcceptedFrom(g: Geometry, refs: seq<Reference>, b: nat, i: nat)
    requires b != 0 && g.extAttr && g.first <= b < g.blocks
    requires i < |refs| && refs[i] == Reference(b, true) && forall j | 0 <= j < i :: refs[j] != Reference(b, true)
    ensures Accepted(g, refs, b) == |set j | i <= j < |refs| && refs[j].blk == b|
  {
    var n := |refs| - 1;
    var front := refs[..n];
    var hits := set j | i <= j < |refs| && refs[j].blk == b;
    var before := set j | i <= j < n && front[j].blk == b;
    if i < n {
      AcceptedFrom(g, front, b, i);
      assert n !in before;
      assert hits == if refs[n].blk == b then before + {n} else before;
      assert |before| > 0 by { assert i in before; }
    } else {
      NoneAccepted(g, front, b);
      assert hits == {n};
    }
  }

  /** Without one that passes, or outside the blocks allowed, none is. */
  lemma {:induction false} NoneAccepted(g: Geometry, refs: seq<Reference>, b: nat)
    requires (forall j | 0 <= j < |refs| :: refs[j] != Reference(b, true)) || !(b != 0 && g.extAttr && g.first <= b < g.blocks)
    ensures Accepted(g, refs, b) == 0
  {
    if refs != [] { NoneAccepted(g, refs[..|refs| - 1], b); }
  }

  /**
   * For every order of references and every initial header, the counts on disk
   * end up equal to the number of accepted references. A block that is shared
   * is marked used once, so it does not look like a block claimed twice.
   */
  method CountReferences(geometry: Geometry, header: map<nat, int>, refs: seq<Reference>)
    returns (final: map<nat, int>, found: set<nat>, dup: set<nat>)
    requires forall b: nat :: 0 <= Default(header, b) < U32
    ensures forall b: nat ::
      Default(final, b) == var n := Accepted(geometry, refs, b); if n > 0 then n % U32 else Default(header, b)
    ensures forall b: nat :: b in found <==> Accepted(geometry, refs, b) > 0
    ensures dup == {}
  {
    hide At, Ascending, Settles, Accepted;
    var x := new ExtAttr(geometry, header);
    var i := 0;
    while i < |refs|
      invariant i <= |refs| && x.Valid() && x.refs == refs[..i] && x.geometry == geometry && x.header == header
      invariant fresh(x) && fresh(x.refcount) && fresh(x.refcountExtra) && fresh(x.maps)
      invariant x.maps.foundMap == x.eaMap && x.maps.dupMap == {}
    {
      var _ := x.CheckExtAttr(refs[i].blk, refs[i].passes);
      assert refs[..i + 1] == refs[..i] + [refs[i]];
      i := i + 1;
    }
    assert refs[..i] == refs;
    x.Seen();
    x.SettleAll();
    final, found, dup := x.header, x.maps.foundMap, x.maps.dupMap;
  }
}
