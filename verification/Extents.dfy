/**
 * Rebuilding an inode's extent tree: collect the mappings, coalescing as they
 * come, then write them out again in pieces no longer than the format allows.
 */
module Extents {
  import opened Words

  const NUM_EXTENTS: nat := 341
  const INIT_MAX_LEN: nat := 32768
  const UNINIT_MAX_LEN: nat := 32767

  datatype Extent = Extent(pblk: nat, lblk: nat, len: nat, uninit: bool)

  /** One mapped block: what an extent list means is the sequence of these. */
  datatype Block = Block(lblk: nat, pblk: nat, uninit: bool)

  function Expand(e: Extent): seq<Block> {
    seq(e.len, i requires 0 <= i => Block(e.lblk + i, e.pblk + i, e.uninit))
  }

  function Blocks(list: seq<Extent>): seq<Block> {
    if list == [] then [] else Blocks(list[..|list| - 1]) + Expand(list[|list| - 1])
  }

  lemma {:induction false} BlocksConcat(a: seq<Extent>, b: seq<Extent>)
    ensures Blocks(a + b) == Blocks(a) + Blocks(b)
  {
    if b == [] {
      assert a + b == a;
    } else {
      var e := b[|b| - 1];
      assert (a + b)[..|a + b| - 1] == a + b[..|b| - 1];
      BlocksConcat(a, b[..|b| - 1]);
    }
  }

  lemma BlocksOne(e: Extent)
    ensures Blocks([e]) == Expand(e)
  {
    assert [e][..0] == [];
  }

  // ----- coalescing: load_extents -----

  /** Lengths are 32-bit words, and so is their sum: the guard against long extents never fails. */
  function LenSum(a: Extent, b: Extent): (n: nat)
    ensures n < U32
  {
    (a.len + b.len) % U32
  }

  predicate Adjacent(last: Extent, e: Extent) {
    last.pblk + last.len == e.pblk && last.lblk + last.len == e.lblk && last.uninit == e.uninit
  }

  /** The effect of one leaf extent on the list. */
  function Attach(list: seq<Extent>, e: Extent): seq<Extent> {
    if list != [] && Adjacent(list[|list| - 1], e) && LenSum(list[|list| - 1], e) < U32
    then list[|list| - 1 := list[|list| - 1].(len := LenSum(list[|list| - 1], e))]
    else list + [e]
  }

  function Coalesced(es: seq<Extent>): seq<Extent> {
    if es == [] then [] else Attach(Coalesced(es[..|es| - 1]), es[|es| - 1])
  }

  /** Merging two adjacent extents keeps their blocks exactly when the 32-bit length does not overflow. */
  lemma MergeExact(last: Extent, e: Extent)
    requires Adjacent(last, e)
    ensures Expand(last.(len := LenSum(last, e))) == Expand(last) + Expand(e) <==> last.len + e.len < U32
  {
    if last.len + e.len >= U32 {
      assert |Expand(last.(len := LenSum(last, e)))| < |Expand(last) + Expand(e)|;
    }
  }

  /** The mapped blocks all lie below 2^32 - 1, as the format demands. */
  predicate Fits(e: Extent) { e.lblk + e.len < U32 }

  predicate AllFit(es: seq<Extent>) { forall i | 0 <= i < |es| :: Fits(es[i]) }

  lemma AttachBlocks(list: seq<Extent>, e: Extent)
    requires AllFit(list) && Fits(e)
    ensures Blocks(Attach(list, e)) == Blocks(list) + Expand(e) && AllFit(Attach(list, e))
  {
    if list != [] && Adjacent(list[|list| - 1], e) {
      var last, init := list[|list| - 1], list[..|list| - 1];
      MergeExact(last, e);
      assert Attach(list, e)[..|list| - 1] == init;
    } else {
      assert (list + [e])[..|list|] == list;
    }
  }

  /** Coalescing keeps every logical block, its physical block and its flag, in order. */
  lemma {:induction false} CoalescedBlocks(es: seq<Extent>)
    requires AllFit(es)
    ensures Blocks(Coalesced(es)) == Blocks(es) && AllFit(Coalesced(es))
  {
    if es != [] {
      CoalescedBlocks(es[..|es| - 1]);
      AttachBlocks(Coalesced(es[..|es| - 1]), es[|es| - 1]);
    }
  }

  /** No two neighbours of the list could still be merged. */
  predicate Maximal(list: seq<Extent>) {
    forall i | 0 <= i < |list| - 1 :: !Adjacent(list[i], list[i + 1])
  }

  lemma {:induction false} CoalescedMaximal(es: seq<Extent>)
    ensures Maximal(Coalesced(es))
  {
    if es != [] { CoalescedMaximal(es[..|es| - 1]); }
  }

  /** In order and disjoint. */
  predicate Ordered(list: seq<Extent>) {
    && (forall i | 0 <= i < |list| :: list[i].len > 0)
    && (forall i | 0 <= i < |list| - 1 :: list[i].lblk + list[i].len <= list[i + 1].lblk)
  }

  lemma AttachOrdered(list: seq<Extent>, e: Extent)
    requires Ordered(list) && e.len > 0
    requires list != [] ==> var c := list[|list| - 1]; c.lblk + c.len <= e.lblk && (Adjacent(c, e) ==> c.len + e.len < U32)
    ensures var a := Attach(list, e);
      Ordered(a) && a != [] && a[|a| - 1].lblk + a[|a| - 1].len == e.lblk + e.len
  {
    if list != [] && Adjacent(list[|list| - 1], e) {
      assert LenSum(list[|list| - 1], e) == list[|list| - 1].len + e.len;
    }
  }

  lemma {:induction false} CoalescedOrdered(es: seq<Extent>)
    requires Ordered(es) && AllFit(es)
    ensures Ordered(Coalesced(es)) && AllFit(Coalesced(es)) && (es == [] <==> Coalesced(es) == [])
    ensures es != [] ==>
      var c, e := Coalesced(es)[|Coalesced(es)| - 1], es[|es| - 1]; c.lblk + c.len == e.lblk + e.len
  {
    hide Attach, Blocks, Expand;
    if es != [] {
      var a := es[..|es| - 1];
      CoalescedOrdered(a);
      AttachBlocks(Coalesced(a), es[|es| - 1]);
      AttachOrdered(Coalesced(a), es[|es| - 1]);
    }
  }

  // ----- how far coalescing may go -----

  /** All neighbours touch, logically and on disk, and have the same flag. */
  predicate OneRun(es: seq<Extent>) {
    forall i | 0 <= i < |es| - 1 :: Adjacent(es[i], es[i + 1])
  }

  /** The end of an extent, and its flag: all that the next one is compared with. */
  predicate SameEnd(a: Extent, b: Extent) {
    a.lblk + a.len == b.lblk + b.len && a.pblk + a.len == b.pblk + b.len && a.uninit == b.uninit
  }

  /** The list stays a single extent exactly as long as it is one run. */
  lemma {:induction false} RunIsOne(es: seq<Extent>)
    requires Ordered(es) && AllFit(es) && es != []
    ensures var c := Coalesced(es);
      && c != [] && c[0].lblk == es[0].lblk && SameEnd(c[|c| - 1], es[|es| - 1])
      && (|c| == 1 <==> OneRun(es))
  {
    hide Attach;
    var a, e := es[..|es| - 1], es[|es| - 1];
    if a == [] {
      AttachCase([], e);
    } else {
      RunIsOne(a);
      CoalescedOrdered(a);
      AttachCase(Coalesced(a), e);
      OneRunLast(es);
    }
  }

  lemma OneRunLast(es: seq<Extent>)
    requires |es| > 1
    ensures OneRun(es) <==> OneRun(es[..|es| - 1]) && Adjacent(es[|es| - 2], es[|es| - 1])
  {
  }

  lemma AttachCase(list: seq<Extent>, e: Extent)
    requires AllFit(list) && Fits(e)
    ensures var r := Attach(list, e);
      if list != [] && Adjacent(list[|list| - 1], e)
      then |r| == |list| && SameEnd(r[|r| - 1], e) && r[0].lblk == list[0].lblk
      else r == list + [e]
  {
    if list != [] && Adjacent(list[|list| - 1], e) {
      assert LenSum(list[|list| - 1], e) == list[|list| - 1].len + e.len;
    }
  }

  /** Logical blocks are 32-bit words, and so are lengths. */
  predicate InRange(es: seq<Extent>) { forall i | 0 <= i < |es| :: es[i].len < U32 && es[i].lblk + es[i].len <= U32 }

  /** All 2^32 logical blocks, in a single run. */
  predicate WholeRange(es: seq<Extent>) {
    es != [] && OneRun(es) && es[0].lblk == 0 && es[|es| - 1].lblk + es[|es| - 1].len == U32
  }

  /**
   * With logical blocks anywhere in the 32-bit range, coalescing loses blocks
   * in one case only: when all 2^32 of them are mapped in a single run.
   */
  lemma {:induction false} LostExactly(es: seq<Extent>)
    requires Ordered(es) && InRange(es)
    ensures Blocks(Coalesced(es)) == Blocks(es) <==> !WholeRange(es)
    ensures !WholeRange(es) ==> Ordered(Coalesced(es))
  {
    hide Attach, Blocks, Expand, OneRun, Ordered;
    if |es| == 0 {
    } else {
      var a, e := es[..|es| - 1], es[|es| - 1];
      OrderedEnds(es);
      CoalescedBlocks(a);
      CoalescedOrdered(a);
      if a == [] {
        AttachLoses([], e);
        AttachOrdered([], e);
      } else {
        RunIsOne(a);
        AttachLoses(Coalesced(a), e);
        OrderedSpan(Coalesced(a));
        OneRunLast(es);
        if !WholeRange(es) { AttachOrdered(Coalesced(a), e); }
      }
      BlocksLast(es);
    }
  }

  /** 131072 leaves of the largest size, one behind the other, are such a run: its blocks are lost. */
  lemma WholeRangeIsLost()
    ensures var es := seq(131072, i requires 0 <= i => Extent(1 + 32768 * i, 32768 * i, 32768, false));
      Blocks(Coalesced(es)) != Blocks(es)
  {
    hide Blocks, Coalesced;
    var es := seq(131072, i requires 0 <= i => Extent(1 + 32768 * i, 32768 * i, 32768, false));
    assert es[131071] == Extent(1 + 32768 * 131071, 32768 * 131071, 32768, false);
    LostExactly(es);
  }

  lemma BlocksLast(es: seq<Extent>)
    requires es != []
    ensures Blocks(es) == Blocks(es[..|es| - 1]) + Expand(es[|es| - 1])
  {
  }

  /** Everything before the last extent ends below it. */
  lemma {:induction false} OrderedEnds(es: seq<Extent>)
    requires Ordered(es) && es != [] && es[|es| - 1].lblk + es[|es| - 1].len <= U32
    ensures AllFit(es[..|es| - 1]) && Ordered(es[..|es| - 1]) && es[|es| - 1].len > 0
    ensures |es| > 1 ==> es[|es| - 2].lblk + es[|es| - 2].len <= es[|es| - 1].lblk
  {
    if |es| > 1 {
      var a := es[..|es| - 1];
      OrderedEnds(a);
      assert AllFit(a[..|a| - 1]) && Fits(a[|a| - 1]);
    }
  }

  lemma {:induction false} OrderedSpan(list: seq<Extent>)
    requires Ordered(list) && list != []
    ensures |list| > 1 ==> list[|list| - 1].lblk > list[0].lblk
    decreases |list|
  {
    if |list| > 2 { OrderedSpan(list[..|list| - 1]); }
  }

  lemma AttachLoses(list: seq<Extent>, e: Extent)
    requires AllFit(list) && e.len < U32
    ensures Blocks(Attach(list, e)) == Blocks(list) + Expand(e) <==>
      !(list != [] && Adjacent(list[|list| - 1], e) && list[|list| - 1].len + e.len >= U32)
  {
    hide Blocks, Expand, Attach, LenSum, AllFit;
    AttachParts(list, e);
    if list != [] && Adjacent(list[|list| - 1], e) {
      var last, init := list[|list| - 1], list[..|list| - 1];
      var merged := last.(len := LenSum(last, e));
      BlocksLast(init + [merged]);
      assert (init + [merged])[..|init|] == init;
      BlocksLast(list);
      MergeExact(last, e);
      Assoc(Blocks(init), Expand(last), Expand(e));
      PrefixCancel(Blocks(init), Expand(merged), Expand(last) + Expand(e));
    } else {
      assert (list + [e])[..|list|] == list;
      BlocksLast(list + [e]);
    }
  }

  lemma AttachParts(list: seq<Extent>, e: Extent)
    ensures Attach(list, e) ==
      if list != [] && Adjacent(list[|list| - 1], e)
      then list[..|list| - 1] + [list[|list| - 1].(len := LenSum(list[|list| - 1], e))]
      else list + [e]
  {
  }

  lemma PrefixCancel<T>(a: seq<T>, b: seq<T>, c: seq<T>)
    ensures a + b == a + c <==> b == c
  {
    assert (a + b)[|a|..] == b && (a + c)[|a|..] == c;
  }

  // ----- splitting: rebuild_extent_tree -----

  function MaxLen(e: Extent): nat { if e.uninit then UNINIT_MAX_LEN else INIT_MAX_LEN }

  /** The first piece of an over-long extent, and the remainder. */
  function Piece(e: Extent): Extent
    requires e.len > MaxLen(e)
  {
    e.(len := MaxLen(e))
  }

  function Remainder(e: Extent): Extent
    requires e.len > MaxLen(e)
  {
    Extent(e.pblk + MaxLen(e), e.lblk + MaxLen(e), e.len - MaxLen(e), e.uninit)
  }

  function Split(e: Extent): seq<Extent>
    decreases e.len
  {
    if e.len > MaxLen(e) then [Piece(e)] + Split(Remainder(e)) else [e]
  }

  function SplitAll(list: seq<Extent>): seq<Extent> {
    if list == [] then [] else Split(list[0]) + SplitAll(list[1..])
  }

  lemma {:induction false} SplitBlocks(e: Extent)
    ensures Blocks(Split(e)) == Expand(e)
    decreases e.len
  {
    hide Blocks, Expand;
    if e.len > MaxLen(e) {
      SplitBlocks(Remainder(e));
      BlocksConcat([Piece(e)], Split(Remainder(e)));
      BlocksOne(Piece(e));
      ExpandCut(e);
    } else {
      BlocksOne(e);
    }
  }

  lemma ExpandCut(e: Extent)
    requires e.len > MaxLen(e)
    ensures Expand(e) == Expand(Piece(e)) + Expand(Remainder(e))
  {
    var p, r := Piece(e), Remainder(e);
    forall i | 0 <= i < e.len
      ensures Expand(e)[i] == (Expand(p) + Expand(r))[i]
    {
      if i >= p.len { assert Expand(r)[i - p.len] == Block(e.lblk + i, e.pblk + i, e.uninit); }
    }
  }

  lemma {:induction false} SplitAllBlocks(list: seq<Extent>)
    ensures Blocks(SplitAll(list)) == Blocks(list)
  {
    if list != [] {
      SplitBlocks(list[0]);
      SplitAllBlocks(list[1..]);
      BlocksConcat(Split(list[0]), SplitAll(list[1..]));
      BlocksConcat([list[0]], list[1..]);
      BlocksOne(list[0]);
      assert [list[0]] + list[1..] == list;
    }
  }

  /** The pieces of one extent: within the limit, one behind the other. */
  lemma {:induction false} SplitPieces(e: Extent)
    requires e.len > 0
    ensures Ordered(Split(e)) && Split(e) != []
    ensures forall i | 0 <= i < |Split(e)| :: Split(e)[i].len <= MaxLen(e) && Split(e)[i].uninit == e.uninit
    ensures Split(e)[0].lblk == e.lblk && Split(e)[0].pblk == e.pblk
    ensures var z := Split(e)[|Split(e)| - 1]; z.lblk + z.len == e.lblk + e.len && z.pblk + z.len == e.pblk + e.len
    decreases e.len
  {
    if e.len > MaxLen(e) {
      SplitPieces(Remainder(e));
      assert Split(e)[|Split(e)| - 1] == Split(Remainder(e))[|Split(Remainder(e))| - 1];
    }
  }

  lemma OrderedJoin(a: seq<Extent>, b: seq<Extent>)
    requires Ordered(a) && Ordered(b) && a != []
    requires b != [] ==> a[|a| - 1].lblk + a[|a| - 1].len <= b[0].lblk
    ensures Ordered(a + b)
  {
  }

  lemma {:induction false} SplitAllPieces(list: seq<Extent>)
    requires Ordered(list)
    ensures Ordered(SplitAll(list)) && (list == [] <==> SplitAll(list) == [])
    ensures forall i | 0 <= i < |SplitAll(list)| :: SplitAll(list)[i].len <= if SplitAll(list)[i].uninit then 32767 else 32768
    ensures list != [] ==> SplitAll(list)[0].lblk == list[0].lblk
  {
    hide Split;
    if list != [] {
      SplitPieces(list[0]);
      SplitAllPieces(list[1..]);
      assert list[1..] != [] ==> list[0].lblk + list[0].len <= list[1..][0].lblk;
      OrderedJoin(Split(list[0]), SplitAll(list[1..]));
    }
  }

  // ----- rebuilding again changes nothing -----

  /** The pieces of an extent grow together again behind a list they do not touch. */
  lemma {:induction false} Regrow(list: seq<Extent>, e: Extent, f: Extent)
    requires e.len > 0 && f.len > 0 && Adjacent(f, e) && f.len + e.len < U32
    ensures Reattached(list + [f], Split(e)) == list + [f.(len := f.len + e.len)]
    decreases e.len
  {
    var s := Split(e);
    if e.len > MaxLen(e) {
      var p := Piece(e);
      assert s[0] == p && s[1..] == Split(Remainder(e));
      assert Attach(list + [f], p) == list + [f.(len := f.len + p.len)];
      Regrow(list, Remainder(e), f.(len := f.len + p.len));
    } else {
      assert s[0] == e && s[1..] == [];
      assert Attach(list + [f], e) == list + [f.(len := f.len + e.len)];
    }
  }

  /** Attaching a whole sequence, from the left. */
  function Reattached(list: seq<Extent>, es: seq<Extent>): seq<Extent>
    decreases es
  {
    if es == [] then list else Reattached(Attach(list, es[0]), es[1..])
  }

  lemma {:induction false} ReattachedConcat(list: seq<Extent>, a: seq<Extent>, b: seq<Extent>)
    ensures Reattached(list, a + b) == Reattached(Reattached(list, a), b)
    decreases a
  {
    if a == [] {
      assert a + b == b;
    } else {
      assert (a + b)[0] == a[0] && (a + b)[1..] == a[1..] + b;
      ReattachedConcat(Attach(list, a[0]), a[1..], b);
    }
  }

  lemma {:induction false} CoalescedReattached(es: seq<Extent>)
    ensures Coalesced(es) == Reattached([], es)
  {
    if es != [] {
      var a, e := es[..|es| - 1], es[|es| - 1];
      CoalescedReattached(a);
      ReattachedConcat([], a, [e]);
      assert a + [e] == es && [e][1..] == [];
    }
  }

  /** One extent's pieces, attached behind a list it cannot merge with, give the extent back. */
  lemma ReattachSplit(list: seq<Extent>, e: Extent)
    requires e.len < U32 && (list != [] ==> !Adjacent(list[|list| - 1], e))
    ensures Reattached(list, Split(e)) == list + [e]
  {
    hide Blocks, Expand;
    var s := Split(e);
    if e.len > MaxLen(e) {
      var p, r := Piece(e), Remainder(e);
      assert s[0] == p && s[1..] == Split(r);
      AttachApart(list, e);
      Regrow(list, r, p);
      assert p.(len := p.len + r.len) == e;
    } else {
      assert s[0] == e && s[1..] == [];
      AttachApart(list, e);
    }
  }

  lemma AttachApart(list: seq<Extent>, e: Extent)
    requires list != [] ==> !Adjacent(list[|list| - 1], e)
    ensures Attach(list, e) == list + [e]
    ensures e.len > MaxLen(e) ==> Attach(list, Piece(e)) == list + [Piece(e)]
  {
  }

  lemma {:induction false} ReattachAll(list: seq<Extent>, rest: seq<Extent>)
    requires Maximal(list + rest) && forall i | 0 <= i < |rest| :: rest[i].len < U32
    ensures Reattached(list, SplitAll(rest)) == list + rest
    decreases rest
  {
    if rest == [] {
      assert list + rest == list;
    } else {
      var all := list + rest;
      assert list != [] ==> all[|list| - 1] == list[|list| - 1] && all[|list|] == rest[0];
      ReattachSplit(list, rest[0]);
      ReattachedConcat(list, Split(rest[0]), SplitAll(rest[1..]));
      assert list + [rest[0]] + rest[1..] == all;
      ReattachAll(list + [rest[0]], rest[1..]);
    }
  }

  lemma {:induction false} CoalescedShort(es: seq<Extent>)
    requires forall i | 0 <= i < |es| :: es[i].len < U32
    ensures forall i | 0 <= i < |Coalesced(es)| :: Coalesced(es)[i].len < U32
  {
    if es != [] { CoalescedShort(es[..|es| - 1]); }
  }

  /** Loading what was written gives back the list it was written from, for leaves of any order and range. */
  lemma RebuildIdempotent(es: seq<Extent>)
    requires forall i | 0 <= i < |es| :: es[i].len < U32
    ensures Coalesced(SplitAll(Coalesced(es))) == Coalesced(es)
  {
    var c := Coalesced(es);
    CoalescedShort(es);
    CoalescedMaximal(es);
    assert [] + c == c;
    ReattachAll([], c);
    CoalescedReattached(SplitAll(c));
  }

  // ----- block-mapped inodes: find_blocks -----

  /** A single block is merged on physical adjacency alone. */
  function Found1(list: seq<Extent>, b: Block): seq<Extent> {
    if list != [] && list[|list| - 1].pblk + list[|list| - 1].len == b.pblk
    then list[|list| - 1 := list[|list| - 1].(len := (list[|list| - 1].len + 1) % U32)]
    else list + [Extent(b.pblk, b.lblk, 1, false)]
  }

  function Found(bs: seq<Block>): seq<Extent> {
    if bs == [] then [] else Found1(Found(bs[..|bs| - 1]), bs[|bs| - 1])
  }

  /** Physically adjacent neighbours are logically adjacent too: no hole between them. */
  predicate NoHiddenHole(bs: seq<Block>) {
    forall i | 0 <= i < |bs| - 1 :: bs[i].pblk + 1 == bs[i + 1].pblk ==> bs[i].lblk + 1 == bs[i + 1].lblk
  }

  predicate Mapped(bs: seq<Block>) { forall i | 0 <= i < |bs| :: !bs[i].uninit }

  /** Each callback adds one block, with the right physical number. */
  lemma {:induction false} FoundShape(bs: seq<Block>)
    requires Mapped(bs) && |bs| < U32
    ensures |Blocks(Found(bs))| == |bs| && (bs == [] <==> Found(bs) == [])
    ensures forall i | 0 <= i < |bs| :: Blocks(Found(bs))[i].pblk == bs[i].pblk && !Blocks(Found(bs))[i].uninit
    ensures forall i | 0 <= i < |Found(bs)| :: 0 < Found(bs)[i].len <= |bs| && !Found(bs)[i].uninit
    ensures bs != [] ==> var l := Found(bs); l[|l| - 1].pblk + l[|l| - 1].len == bs[|bs| - 1].pblk + 1
    ensures bs != [] ==> var l := Found(bs); l[|l| - 1].lblk + l[|l| - 1].len == Blocks(l)[|bs| - 1].lblk + 1
    ensures bs != [] ==>
      var f := Found(bs[..|bs| - 1]); Blocks(Found(bs)) == Blocks(f) + [NextBlock(f, bs[|bs| - 1])]
  {
    hide Expand, Found1, NextBlock;
    if bs != [] {
      FoundShape(bs[..|bs| - 1]);
      NextIsPhysical(Found(bs[..|bs| - 1]), bs[|bs| - 1]);
      FoundStep(Found(bs[..|bs| - 1]), bs[|bs| - 1], |bs| - 1);
    }
  }

  /** The block that the callback really adds. */
  function NextBlock(list: seq<Extent>, b: Block): Block {
    if list != [] && list[|list| - 1].pblk + list[|list| - 1].len == b.pblk
    then Block(list[|list| - 1].lblk + list[|list| - 1].len, b.pblk, list[|list| - 1].uninit)
    else Block(b.lblk, b.pblk, false)
  }

  lemma NextIsPhysical(list: seq<Extent>, b: Block)
    ensures NextBlock(list, b).pblk == b.pblk
    ensures (list != [] ==> !list[|list| - 1].uninit) ==> !NextBlock(list, b).uninit
  {
  }

  lemma FoundStep(list: seq<Extent>, b: Block, n: nat)
    requires n + 1 < U32 && forall i | 0 <= i < |list| :: 0 < list[i].len <= n && !list[i].uninit
    ensures Blocks(Found1(list, b)) == Blocks(list) + [NextBlock(list, b)]
    ensures var l := Found1(list, b); l != [] && forall i | 0 <= i < |l| :: 0 < l[i].len <= n + 1 && !l[i].uninit
    ensures var l := Found1(list, b); l[|l| - 1].pblk + l[|l| - 1].len == b.pblk + 1
    ensures var l := Found1(list, b); l[|l| - 1].lblk + l[|l| - 1].len == NextBlock(list, b).lblk + 1
  {
    var l := Found1(list, b);
    if list != [] && list[|list| - 1].pblk + list[|list| - 1].len == b.pblk {
      var last := list[|list| - 1];
      assert l[..|l| - 1] == list[..|list| - 1];
      assert Expand(last.(len := last.len + 1)) == Expand(last) + [NextBlock(list, b)];
    } else {
      assert l[..|l| - 1] == list;
      assert Expand(Extent(b.pblk, b.lblk, 1, false)) == [NextBlock(list, b)];
    }
  }

  /** The mapping survives exactly when no hole hides between physically adjacent blocks. */
  lemma {:induction false} FoundExact(bs: seq<Block>)
    requires Mapped(bs) && |bs| < U32
    ensures Blocks(Found(bs)) == bs <==> NoHiddenHole(bs)
  {
    hide Found, Blocks, NoHiddenHole, Found1;
    if bs == [] {
      FoundNothing();
    } else {
      var a, b := bs[..|bs| - 1], bs[|bs| - 1];
      FoundExact(a);
      FoundShape(a);
      FoundShape(bs);
      var x := NextBlock(Found(a), b);
      assert bs == a + [b] && Blocks(Found(bs)) == Blocks(Found(a)) + [x];
      SnocEqual(Blocks(Found(a)), x, a, b);
      NoHiddenHoleStep(a, b);
    }
  }

  lemma FoundNothing()
    ensures Blocks(Found([])) == [] && NoHiddenHole([])
  {
  }

  lemma SnocEqual<T>(p: seq<T>, x: T, q: seq<T>, y: T)
    requires |p| == |q|
    ensures p + [x] == q + [y] <==> p == q && x == y
  {
    if p + [x] == q + [y] {
      assert p == (p + [x])[..|p|] && q == (q + [y])[..|q|];
      assert x == (p + [x])[|p|] && y == (q + [y])[|q|];
    }
  }

  lemma NoHiddenHoleStep(a: seq<Block>, b: Block)
    ensures NoHiddenHole(a + [b]) <==>
      (NoHiddenHole(a) && (a != [] && a[|a| - 1].pblk + 1 == b.pblk ==> a[|a| - 1].lblk + 1 == b.lblk))
  {
    var bs := a + [b];
    if NoHiddenHole(bs) {
      forall i | 0 <= i < |a| - 1
        ensures a[i].pblk + 1 == a[i + 1].pblk ==> a[i].lblk + 1 == a[i + 1].lblk
      {
        assert bs[i] == a[i] && bs[i + 1] == a[i + 1];
      }
      assert a != [] ==> bs[|a| - 1] == a[|a| - 1] && bs[|a| - 1 + 1] == b;
    }
  }

  /** A sparse file whose blocks are physically in a row: logical block 5 becomes block 1. */
  lemma HiddenHoleExample()
    ensures var bs := [Block(0, 100, false), Block(5, 101, false)];
      Found(bs) == [Extent(100, 0, 2, false)] && Blocks(Found(bs)) != bs
  {
    var bs := [Block(0, 100, false), Block(5, 101, false)];
    assert bs[..1] == [Block(0, 100, false)] && bs[..1][..0] == [];
    assert Found(bs[..1]) == [Extent(100, 0, 1, false)];
    assert !NoHiddenHole(bs) by { assert bs[0].pblk + 1 == bs[0 + 1].pblk; }
    FoundExact(bs);
  }

  // ----- leaves in the tree -----

  /** A leaf as the tree holds it: 32 bits of logical block, 16 bits of length, 32 and 16 bits of physical block. */
  datatype Leaf = Leaf(block: nat, len: nat, start: nat, startHi: nat)

  datatype Option<T> = None | Some(value: T)

  /** Physical block numbers have 48 bits. */
  const U48: nat := 0x1_0000_0000_0000

  /** The leaf part of ext2fs_extent_replace: lengths the field cannot hold are refused. */
  function Pack(e: Extent): Option<Leaf> {
    if e.uninit && e.len > UNINIT_MAX_LEN then None
    else if !e.uninit && e.len > INIT_MAX_LEN then None
    else Some(Leaf(e.lblk % U32, (if e.uninit then e.len + INIT_MAX_LEN else e.len) % 0x1_0000, e.pblk % U32, e.pblk / U32 % 0x1_0000))
  }

  /** The leaf part of ext2fs_extent_get. */
  function Unpack(l: Leaf): Extent {
    if l.len > INIT_MAX_LEN then Extent(l.start + U32 * l.startHi, l.block, l.len - INIT_MAX_LEN, true)
    else Extent(l.start + U32 * l.startHi, l.block, l.len, false)
  }

  ghost predicate Survives(e: Extent) { Pack(e).Some? && Unpack(Pack(e).value) == e }

  /** An empty extent without data would come back as 32768 blocks with data; otherwise only the widths matter. */
  lemma PackExact(e: Extent)
    ensures Pack(e).Some? <==> e.len <= if e.uninit then 32767 else 32768
    ensures Survives(e) <==>
      e.lblk < U32 && e.pblk < U48 && (if e.uninit then 0 < e.len <= 32767 else e.len <= 32768)
  {
  }

  lemma {:induction false} InBlocks(list: seq<Extent>, i: nat)
    requires i < |list| && list[i].len > 0
    ensures Block(list[i].lblk, list[i].pblk, list[i].uninit) in Blocks(list)
  {
    var n := |list| - 1;
    if i < n {
      InBlocks(list[..n], i);
    } else {
      assert Expand(list[n])[0] == Block(list[i].lblk, list[i].pblk, list[i].uninit);
      assert Expand(list[n])[0] in Expand(list[n]);
    }
  }

  /** Block numbers within the widths of the fields. */
  ghost predicate Narrow(bs: seq<Block>) { forall b | b in bs :: b.lblk < U32 && b.pblk < U48 }

  lemma {:induction false} NarrowBlocks(list: seq<Extent>)
    requires InRange(list) && forall i | 0 <= i < |list| :: list[i].pblk + list[i].len <= U48
    ensures Narrow(Blocks(list))
  {
    if list != [] {
      var n := |list| - 1;
      NarrowBlocks(list[..n]);
      assert forall b | b in Expand(list[n]) :: b.lblk < U32 && b.pblk < U48;
    }
  }

  /** Pieces of blocks within the widths come back from their leaves as they are. */
  lemma PiecesSurvive(list: seq<Extent>)
    requires Narrow(Blocks(list)) && forall i | 0 <= i < |list| :: 0 < list[i].len <= MaxLen(list[i])
    ensures forall i | 0 <= i < |list| :: Survives(list[i])
  {
    hide Blocks, Survives;
    forall i | 0 <= i < |list|
      ensures Survives(list[i])
    {
      InBlocks(list, i);
      PackExact(list[i]);
    }
  }

  // ----- the list in memory -----

  /** What the extent iterator reports. */
  datatype Visit = Visit(extent: Extent, leaf: bool, secondVisit: bool)

  function Leaves(visits: seq<Visit>): seq<Extent> {
    if visits == [] then []
    else
      var v := visits[|visits| - 1];
      Leaves(visits[..|visits| - 1]) + if v.leaf && !v.secondVisit then [v.extent] else []
  }

  function Internals(visits: seq<Visit>): nat {
    if visits == [] then 0
    else
      var v := visits[|visits| - 1];
      Internals(visits[..|visits| - 1]) + if !v.leaf && !v.secondVisit then 1 else 0
  }

  /** The extents of the leaves, each on its first visit. */
  lemma {:induction false} LeavesMean(visits: seq<Visit>, e: Extent)
    ensures e in Leaves(visits) <==> Visit(e, true, false) in visits
  {
    if visits != [] {
      var n := |visits| - 1;
      LeavesMean(visits[..n], e);
      assert Visit(e, true, false) in visits <==> Visit(e, true, false) in visits[..n] || visits[n] == Visit(e, true, false);
    }
  }

  /** Every first visit is a leaf or an interior node. */
  lemma {:induction false} VisitsCount(visits: seq<Visit>)
    ensures |Leaves(visits)| + Internals(visits) == |set k | 0 <= k < |visits| && !visits[k].secondVisit|
  {
    var first := set k | 0 <= k < |visits| && !visits[k].secondVisit;
    if visits != [] {
      var n := |visits| - 1;
      var front := visits[..n];
      VisitsCount(front);
      var first' := set k | 0 <= k < |front| && !front[k].secondVisit;
      assert first == (if visits[n].secondVisit then first' else first' + {n}) && n !in first';
    } else {
      assert first == {};
    }
  }

  lemma VisitNone(visits: seq<Visit>)
    ensures Leaves(visits[..0]) == [] && Internals(visits[..0]) == 0 && Coalesced([]) == []
  {
  }

  lemma VisitStep(visits: seq<Visit>, k: nat)
    requires k < |visits|
    ensures var v, u, w := visits[k], visits[..k], visits[..k + 1];
      && Internals(w) == Internals(u) + (if !v.leaf && !v.secondVisit then 1 else 0)
      && Coalesced(Leaves(w)) ==
         (if v.leaf && !v.secondVisit then Attach(Coalesced(Leaves(u)), v.extent) else Coalesced(Leaves(u)))
  {
    var u := Leaves(visits[..k]);
    assert visits[..k + 1][..k] == visits[..k];
    assert u + [] == u && (u + [visits[k].extent])[..|u|] == u;
  }

  class ExtentList {
    var extents: seq<Extent>
    var count: nat
    var size: nat
    var blocksFreed: nat
    var extRead: nat

    ghost predicate Valid()
      reads this
    {
      count <= size == |extents|
    }

    ghost function Used(): seq<Extent>
      requires Valid()
      reads this
    {
      extents[..count]
    }

    constructor ()
      ensures Valid() && Used() == [] && blocksFreed == 0
    {
      extents, count, size, blocksFreed, extRead := [], 0, 0, 0, 0;
    }

    /** Appends, growing the array by NUM_EXTENTS when it is full. */
    method Add(e: Extent)
      requires Valid()
      modifies `extents, `count, `size
      ensures Valid() && Used() == old(Used()) + [e]
    {
      if count == size {
        extents := extents + seq(NUM_EXTENTS, _ => Extent(0, 0, 0, false));
        size := size + NUM_EXTENTS;
      }
      extents := extents[count := e];
      count := count + 1;
    }

    /** load_extents: every leaf is merged into the last extent or appended; tree blocks are freed. */
    method LoadExtents(visits: seq<Visit>)
      requires Valid() && Used() == []
      modifies this
      ensures Valid() && Used() == Coalesced(Leaves(visits))
      ensures blocksFreed == old(blocksFreed) + Internals(visits)
    {
      hide Leaves, Internals, Coalesced, Attach;
      var k := 0;
      VisitNone(visits);
      while k < |visits|
        invariant k <= |visits| && Valid() && Used() == Coalesced(Leaves(visits[..k]))
        invariant blocksFreed == old(blocksFreed) + Internals(visits[..k])
      {
        var v := visits[k];
        VisitStep(visits, k);
        if v.secondVisit {
        } else if !v.leaf {
          blocksFreed := blocksFreed + 1;
        } else {
          extRead := extRead + 1;
          Load1(v.extent);
        }
        k := k + 1;
      }
      assert visits[..k] == visits;
    }

    method Load1(e: Extent)
      requires Valid()
      modifies `extents, `count, `size
      ensures Valid() && Used() == Attach(old(Used()), e)
    {
      if count > 0 {
        var last := extents[count - 1];
        assert Used()[|Used()| - 1] == last;
        var end := (last.len + e.len) % U32;
        if last.pblk + last.len == e.pblk && last.lblk + last.len == e.lblk && last.uninit == e.uninit && end < U32 {
          extents := extents[count - 1 := last.(len := end)];
          return;
        }
      }
      Add(e);
    }

    /** find_blocks: one callback of the block iterator; a negative count marks an indirect block. */
    method FindBlocks(blocknr: nat, blockcnt: int)
      requires Valid()
      modifies this
      ensures Valid()
      ensures blockcnt < 0 ==> Used() == old(Used()) && blocksFreed == old(blocksFreed) + 1
      ensures blockcnt >= 0 ==> Used() == Found1(old(Used()), Block(blockcnt, blocknr, false))
      ensures blockcnt >= 0 ==> blocksFreed == old(blocksFreed)
    {
      if blockcnt < 0 {
        blocksFreed := blocksFreed + 1;
        return;
      }
      if count > 0 {
        var last := extents[count - 1];
        assert Used()[|Used()| - 1] == last;
        var end := (last.len + 1) % U32;
        if last.pblk + last.len == blocknr && end < U32 {
          extents := extents[count - 1 := last.(len := end)];
          return;
        }
      }
      Add(Extent(blocknr, blockcnt, 1, false));
    }

    /** The write-out loop of rebuild_extent_tree, which steps back to an extent it has only begun. */
    method WriteOut() returns (written: seq<Extent>)
      requires Valid() && count < U32
      modifies `extents
      ensures written == SplitAll(old(Used()))
      ensures forall i | 0 <= i < |written| :: written[i].len <= if written[i].uninit then 32767 else 32768
    {
      hide Split, SplitAll;
      written := [];
      ghost var was := Used();
      assert [] + SplitAll(was) == SplitAll(was) && extents[0..count] == was;
      var i := 0;
      while i < count
        invariant i <= count && Valid() && count == old(count)
        invariant written + SplitAll(extents[i..count]) == SplitAll(was)
        decreases count - i, if i < count then extents[i].len else 0
      {
        var e := extents[i];
        WriteStep(extents, i, count, written);
        var max := if e.uninit then UNINIT_MAX_LEN else INIT_MAX_LEN;
        if e.len > max {
          written := written + [e.(len := max)];
          extents := extents[i := Extent(e.pblk + max, e.lblk + max, e.len - max, e.uninit)];
          i := (i + U32 - 1) % U32;
        } else {
          written := written + [e];
        }
        i := (i + 1) % U32;
      }
      assert extents[i..count] == [];
      SplitAllNothing();
      SplitAllShort(was);
    }
  }

  /** One turn of the loop: a piece of the extent at `i`, or the rest of it. */
  lemma WriteStep(xs: seq<Extent>, i: nat, count: nat, written: seq<Extent>)
    requires i < count <= |xs|
    ensures var e := xs[i];
      if e.len > MaxLen(e)
      then written + SplitAll(xs[i..count]) == written + [Piece(e)] + SplitAll(xs[i := Remainder(e)][i..count])
      else written + SplitAll(xs[i..count]) == written + [e] + SplitAll(xs[i + 1..count])
  {
    hide SplitAll, Split;
    var e, rest := xs[i], xs[i + 1..count];
    assert xs[i..count][0] == e && xs[i..count][1..] == rest;
    SplitAllStep(xs[i..count]);
    if e.len > MaxLen(e) {
      assert xs[i := Remainder(e)][i..count] == [Remainder(e)] + rest;
      Assoc(written, [Piece(e)], SplitAll([Remainder(e)] + rest));
    } else {
      Assoc(written, [e], SplitAll(rest));
    }
  }

  /** What is still to be written, one piece at a time. */
  lemma SplitAllStep(list: seq<Extent>)
    requires list != []
    ensures var e := list[0];
      if e.len > MaxLen(e)
      then SplitAll(list) == [Piece(e)] + SplitAll([Remainder(e)] + list[1..])
      else SplitAll(list) == [e] + SplitAll(list[1..])
  {
    var e := list[0];
    if e.len > MaxLen(e) {
      var l := [Remainder(e)] + list[1..];
      assert l[0] == Remainder(e) && l[1..] == list[1..];
      assert Split(e) == [Piece(e)] + Split(Remainder(e));
      Assoc([Piece(e)], Split(Remainder(e)), SplitAll(list[1..]));
    }
  }

  lemma Assoc<T>(a: seq<T>, b: seq<T>, c: seq<T>)
    ensures a + b + c == a + (b + c)
  {
  }

  lemma SplitAllNothing()
    ensures SplitAll([]) == []
  {
  }

  /** The whole rebuild: same blocks, in pieces the format allows, unless all 2^32 blocks are one run. */
  method Rebuild(visits: seq<Visit>) returns (written: seq<Extent>)
    requires |Coalesced(Leaves(visits))| < U32
    ensures AllFit(Leaves(visits)) ==> Blocks(written) == Blocks(Leaves(visits))
    ensures Ordered(Leaves(visits)) && InRange(Leaves(visits)) ==>
      (Blocks(written) == Blocks(Leaves(visits)) <==> !WholeRange(Leaves(visits)))
    ensures Ordered(Leaves(visits)) && InRange(Leaves(visits)) && !WholeRange(Leaves(visits)) ==> Ordered(written)
    ensures forall i | 0 <= i < |written| :: written[i].len <= if written[i].uninit then 32767 else 32768
    ensures Ordered(Leaves(visits)) && InRange(Leaves(visits)) && !WholeRange(Leaves(visits)) &&
            (forall i | 0 <= i < |Leaves(visits)| :: Leaves(visits)[i].pblk + Leaves(visits)[i].len <= U48) ==>
      forall i | 0 <= i < |written| :: Survives(written[i])
  {
    hide Survives, Leaves, Blocks, Coalesced, SplitAll, Ordered, InRange, WholeRange, AllFit;
    var list := new ExtentList();
    list.LoadExtents(visits);
    written := list.WriteOut();
    ghost var es, c := Leaves(visits), Coalesced(Leaves(visits));
    SplitAllBlocks(c);
    SplitAllShort(c);
    if AllFit(es) { CoalescedBlocks(es); }
    if Ordered(es) && InRange(es) {
      LostExactly(es);
      if !WholeRange(es) {
        SplitAllPieces(c);
        OrderedLengths(written);
        if forall i | 0 <= i < |es| :: es[i].pblk + es[i].len <= U48 {
          NarrowBlocks(es);
          PiecesSurvive(written);
        }
      }
    }
  }

  lemma OrderedLengths(list: seq<Extent>)
    requires Ordered(list)
    ensures forall i | 0 <= i < |list| :: list[i].len > 0
  {
  }

  /** One call of the block iterator: a block and its logical number, or an indirect block. */
  datatype Callback = Callback(blocknr: nat, blockcnt: int)

  /** The mapped blocks among the callbacks. */
  function MappedBlocks(calls: seq<Callback>): seq<Block> {
    if calls == [] then []
    else
      var c := calls[|calls| - 1];
      MappedBlocks(calls[..|calls| - 1]) + if c.blockcnt < 0 then [] else [Block(c.blockcnt, c.blocknr, false)]
  }

  /** The callbacks with a logical number, and no others. */
  lemma {:induction false} MappedMean(calls: seq<Callback>, b: Block)
    ensures b in MappedBlocks(calls) <==> !b.uninit && Callback(b.pblk, b.lblk) in calls
  {
    if calls != [] {
      var n := |calls| - 1;
      var c := Callback(b.pblk, b.lblk);
      MappedMean(calls[..n], b);
      assert c in calls <==> c in calls[..n] || calls[n] == c;
    }
  }

  lemma MappedStep(calls: seq<Callback>, k: nat)
    requires k < |calls|
    ensures var a, b, c := MappedBlocks(calls[..k]), MappedBlocks(calls[..k + 1]), calls[k];
      && Mapped(b) && b == (if c.blockcnt < 0 then a else a + [Block(c.blockcnt, c.blocknr, false)])
      && Found(b) == (if c.blockcnt < 0 then Found(a) else Found1(Found(a), Block(c.blockcnt, c.blocknr, false)))
  {
    var a, c := MappedBlocks(calls[..k]), calls[k];
    assert calls[..k + 1][..k] == calls[..k] && a + [] == a;
    if c.blockcnt >= 0 { assert (a + [Block(c.blockcnt, c.blocknr, false)])[..|a|] == a; }
    MappedAll(calls[..k + 1]);
  }

  lemma {:induction false} MappedAll(calls: seq<Callback>)
    ensures Mapped(MappedBlocks(calls))
  {
    if calls != [] { MappedAll(calls[..|calls| - 1]); }
  }

  lemma {:induction false} FoundFew(bs: seq<Block>)
    ensures |Found(bs)| <= |bs|
  {
    if bs != [] { FoundFew(bs[..|bs| - 1]); }
  }

  /** Rebuilding a block-mapped file: the block map survives if and only if no hole is hidden. */
  method RebuildFromBlocks(calls: seq<Callback>) returns (written: seq<Extent>)
    requires |MappedBlocks(calls)| < U32
    ensures Blocks(written) == MappedBlocks(calls) <==> NoHiddenHole(MappedBlocks(calls))
    ensures forall i | 0 <= i < |written| :: written[i].len <= if written[i].uninit then 32767 else 32768
    ensures NoHiddenHole(MappedBlocks(calls)) && Rising(MappedBlocks(calls)) ==> Ordered(written)
    ensures NoHiddenHole(MappedBlocks(calls)) && Narrow(MappedBlocks(calls)) ==>
      forall i | 0 <= i < |written| :: Survives(written[i])
  {
    hide Narrow, Survives, MappedBlocks, Found, Found1, Blocks, SplitAll, NoHiddenHole, Mapped, Rising, Ordered;
    var list := new ExtentList();
    NoCallbacks(calls);
    for k := 0 to |calls|
      invariant list.Valid() && list.Used() == Found(MappedBlocks(calls[..k])) && fresh(list) && Mapped(MappedBlocks(calls[..k]))
    {
      MappedStep(calls, k);
      list.FindBlocks(calls[k].blocknr, calls[k].blockcnt);
    }
    assert calls[..|calls|] == calls;
    ghost var bs := MappedBlocks(calls);
    FoundFew(bs);
    written := list.WriteOut();
    SplitAllBlocks(Found(bs));
    SplitAllShort(Found(bs));
    FoundExact(bs);
    FoundShape(bs);
    SplitAllPositive(Found(bs));
    if NoHiddenHole(bs) && Rising(bs) { RisingOrdered(written); }
    if NoHiddenHole(bs) && Narrow(bs) { PiecesSurvive(written); }
  }

  /** The iterator goes up through the file. */
  predicate Rising(bs: seq<Block>) { forall i, j | 0 <= i < j < |bs| :: bs[i].lblk < bs[j].lblk }

  lemma {:induction false} RisingOrdered(list: seq<Extent>)
    requires Rising(Blocks(list)) && forall i | 0 <= i < |list| :: list[i].len > 0
    ensures Ordered(list)
  {
    if |list| > 1 {
      var n := |list| - 1;
      var a, e := list[..n], list[n];
      var bs := Blocks(list);
      assert bs == Blocks(a) + Expand(e);
      assert forall i | 0 <= i < |Blocks(a)| :: Blocks(a)[i] == bs[i];
      RisingOrdered(a);
      LastBlock(a);
      assert bs[|Blocks(a)|] == Expand(e)[0];
      forall i | 0 <= i < |list| - 1
        ensures list[i].lblk + list[i].len <= list[i + 1].lblk
      {
        if i < n - 1 { assert a[i] == list[i] && a[i + 1] == list[i + 1]; }
      }
    }
  }

  lemma LastBlock(list: seq<Extent>)
    requires list != [] && list[|list| - 1].len > 0
    ensures Blocks(list) != []
    ensures Blocks(list)[|Blocks(list)| - 1].lblk + 1 == list[|list| - 1].lblk + list[|list| - 1].len
  {
  }

  lemma {:induction false} SplitAllPositive(list: seq<Extent>)
    requires forall i | 0 <= i < |list| :: list[i].len > 0
    ensures forall i | 0 <= i < |SplitAll(list)| :: SplitAll(list)[i].len > 0
  {
    hide Split;
    if list != [] {
      SplitPieces(list[0]);
      SplitAllPositive(list[1..]);
    }
  }

  lemma NoCallbacks(calls: seq<Callback>)
    ensures MappedBlocks(calls[..0]) == [] && Found([]) == [] && Mapped([])
  {
  }

  lemma {:induction false} SplitShort(e: Extent)
    ensures forall i | 0 <= i < |Split(e)| :: Split(e)[i].len <= MaxLen(Split(e)[i])
    decreases e.len
  {
    if e.len > MaxLen(e) { SplitShort(Remainder(e)); }
  }

  lemma {:induction false} SplitAllShort(list: seq<Extent>)
    ensures forall i | 0 <= i < |SplitAll(list)| :: SplitAll(list)[i].len <= MaxLen(SplitAll(list)[i])
  {
    hide Split, MaxLen;
    if list != [] {
      SplitShort(list[0]);
      SplitAllShort(list[1..]);
    }
  }
}
