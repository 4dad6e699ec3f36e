/**
 * Loading a dictionary from a sorted list in linear time.
 */
module DictLoad {
  import opened RedBlackTree
  import opened NodeStore
  import opened Rebalance
  import opened DictRepair
  import opened BulkLoad
  import opened LoadStore
  import D = Dict

  // ----- the list, threaded through left pointers -----

  ghost predicate Chain(left: seq<Ref>, p: Ref, list: seq<Ref>, end: Ref)
    decreases list
  {
    if list == [] then p == end
    else p == list[0] && 0 <= p < |left| && Chain(left, left[p], list[1..], end)
  }

  lemma {:induction false} ChainFrame(left: seq<Ref>, left': seq<Ref>, p: Ref, list: seq<Ref>, end: Ref, n: Ref)
    requires Chain(left, p, list, end) && n !in list
    requires |left'| == |left| && forall i | 0 <= i < |left| && i != n :: left'[i] == left[i]
    ensures Chain(left', p, list, end)
    decreases list
  {
    if list != [] { ChainFrame(left, left', left[p], list[1..], end, n); }
  }

  ghost predicate NoRepeats(list: seq<Ref>) {
    forall i, j | 0 <= i < j < |list| :: list[i] != list[j]
  }

  /** Every node of the list is a cell, and neither sentinel. */
  ghost predicate Members(m: Mem, list: seq<Ref>, nil: Ref, loadnil: Ref) {
    forall i | 0 <= i < |list| :: m.Has(list[i]) && list[i] != nil && list[i] != loadnil
  }

  /** The list as dictionary entries. */
  ghost function Entries(list: seq<Ref>, key: seq<int>): seq<Entry>
    requires forall i | 0 <= i < |list| :: 0 <= list[i] < |key|
  {
    if list == [] then []
    else Entries(list[..|list| - 1], key) + [Entry(list[|list| - 1], key[list[|list| - 1]])]
  }

  /** Cells outside `s` hold what they held. */
  ghost predicate Untouched(m: Mem, m': Mem, s: set<Ref>) {
    SameCells(m, m') && m'.key == m.key &&
    forall n: Ref {:trigger m.Has(n)} | m.Has(n) && n !in s ::
      m'.left[n] == m.left[n] && m'.right[n] == m.right[n] && m'.parent[n] == m.parent[n] && m'.color[n] == m.color[n]
  }

  lemma UntouchedTrans(m: Mem, m': Mem, m'': Mem, s: set<Ref>, s': set<Ref>)
    requires Untouched(m, m', s) && Untouched(m', m'', s')
    ensures Untouched(m, m'', s + s')
  {
    forall n: Ref | m.Has(n) && n !in s + s'
      ensures m''.left[n] == m.left[n] && m''.right[n] == m.right[n]
      ensures m''.parent[n] == m.parent[n] && m''.color[n] == m.color[n]
    {
      assert m'.Has(n);
    }
  }

  lemma UntouchedWithin(m: Mem, m': Mem, m'': Mem, s: set<Ref>, s': set<Ref>)
    requires Untouched(m, m', s) && Untouched(m', m'', s') && s' <= s
    ensures Untouched(m, m'', s) && SameCells(m, m'') && m''.key == m.key
  {
    UntouchedTrans(m, m', m'', s, s');
    assert s + s' == s;
  }

  // ----- what has been laid out so far -----

  ghost function Laid(x: Ctx, t: Tree): seq<Entry> { Before(x) + Inorder(t) }
  ghost function Cells(x: Ctx, t: Tree): set<Ref> { CtxNodes(x) + Nodes(t) }

  /** A complete subtree of level `level` stands ready; below it all slots are empty. */
  ghost predicate Ready(m: Mem, tree: seq<Ref>, level: nat, x: Ctx, t: Tree, u: nat, v: nat, nil: Ref) {
    && |tree| == DEPTH_MAX && Loose(m, x, t, nil) && t.Node? && Layered(t, level) && Carry(u, v, level)
    && Slots(tree, x, level, v) && forall j | 0 <= j < level && j < DEPTH_MAX :: tree[j] == NULL
  }

  /** No subtree stands ready; the waiting nodes are the bits of `u`. */
  ghost predicate Waiting(m: Mem, tree: seq<Ref>, x: Ctx, u: nat, nil: Ref) {
    |tree| == DEPTH_MAX && Loose(m, x, Leaf, nil) && Slots(tree, x, 0, u)
  }

  /** One turn of the loops that give the lowest waiting node its right child. */
  lemma AttachStep(m: Mem, tree: seq<Ref>, level: nat, x: Ctx, t: Tree, u: nat, v: nat, nil: Ref)
    requires Ready(m, tree, level, x, t, u, v, nil) && level < DEPTH_MAX && tree[level] != NULL && m.Has(nil)
    ensures x.InRight? && tree[level] == x.n && m.Has(x.n) && m.Has(t.n) && x.n != NULL
    ensures Ready(AttachMem(m, x.n, t.n), tree[level := NULL], level + 1, x.up, Lift(x, t), u, v / 2, nil)
    ensures Laid(x.up, Lift(x, t)) == Laid(x, t) && Cells(x.up, Lift(x, t)) == Cells(x, t)
    ensures Untouched(m, AttachMem(m, x.n, t.n), Cells(x, t))
  {
    assert v % 2 == 1;
    AttachLoose(m, x, t, nil);
    CarryStep(u, v, level);
    SlotsFrame(tree, tree[level := NULL], x.up, level + 1, v / 2);
    ConcatAssoc(Before(x.up), Inorder(x.l) + [Entry(x.n, x.k)], Inorder(t));
    ConcatAssoc(Before(x.up), Inorder(x.l), [Entry(x.n, x.k)]);
  }

  /** The climb: waiting nodes take the complete subtree as long as there is one in the next slot. */
  method Climb(d: D.Dict, tree0: seq<Ref>, c0: Ref, l0: nat, ghost x0: Ctx, ghost t0: Tree, ghost u: nat, ghost v0: nat)
    returns (tree: seq<Ref>, complete: Ref, level: nat, ghost x: Ctx, ghost t: Tree, ghost v: nat)
    requires Ready(d.heap.View(), tree0, l0, x0, t0, u, v0, d.nil) && c0 == t0.n && u < Pow2(DEPTH_MAX - 1)
    requires d.heap.View().Has(d.nil)
    modifies d.heap
    ensures Ready(d.heap.View(), tree, level, x, t, u, v, d.nil) && complete == t.n && v % 2 == 0
    ensures Laid(x, t) == Laid(x0, t0) && Cells(x, t) == Cells(x0, t0) && d.heap.View().Has(d.nil)
    ensures d.heap.left == old(d.heap.left) && d.heap.key == old(d.heap.key)
    ensures Untouched(old(d.heap.View()), d.heap.View(), Cells(x0, t0))
    ensures l0 <= level
  {
    hide Loose, Slots, Layered, Laid, Cells, Carry, Untouched;
    SameUntouched(d.heap.View(), Cells(x0, t0));
    tree, complete, level, x, t, v := tree0, c0, l0, x0, t0, v0;
    CarryBound(u, v, level);
    while tree[level] != NULL
      invariant Ready(d.heap.View(), tree, level, x, t, u, v, d.nil) && complete == t.n && level < DEPTH_MAX
      invariant Laid(x, t) == Laid(x0, t0) && Cells(x, t) == Cells(x0, t0) && d.heap.View().Has(d.nil)
      invariant d.heap.left == old(d.heap.left) && d.heap.key == old(d.heap.key) && l0 <= level
      invariant Untouched(old(d.heap.View()), d.heap.View(), Cells(x0, t0))
      decreases DEPTH_MAX - level
    {
      AttachStep(d.heap.View(), tree, level, x, t, u, v, d.nil);
      ghost var m := d.heap.View();
      var n := tree[level];
      d.heap.right := d.heap.right[n := complete];
      d.heap.parent := d.heap.parent[complete := n];
      complete := n;
      tree := tree[level := NULL];
      level := level + 1;
      UntouchedWithin(old(d.heap.View()), m, d.heap.View(), Cells(x0, t0), Cells(x, t));
      x, t, v := x.up, Lift(x, t), v / 2;
      CarryBound(u, v, level);
    }
    EvenAtEmpty(tree, x, level, v);
  }

  lemma SameUntouched(m: Mem, s: set<Ref>)
    ensures Untouched(m, m, s)
  {
  }

  lemma EvenAtEmpty(tree: seq<Ref>, x: Ctx, level: nat, v: nat)
    requires |tree| == DEPTH_MAX && level < DEPTH_MAX && Slots(tree, x, level, v) && tree[level] == NULL
    ensures v % 2 == 0
  {
  }

  // ----- the four things that happen to the next node of the list -----

  /** It goes into the bottom row. */
  lemma BottomStep(m: Mem, tree: seq<Ref>, x: Ctx, n: Ref, u: nat, nil: Ref)
    requires Waiting(m, tree, x, u, nil) && m.Has(n) && n != nil && n !in CtxNodes(x)
    ensures var t := Node(Leaf, n, LevelColor(0), m.key[n], Leaf);
      && Ready(LeafMem(m, n, LevelColor(0), nil), tree, 0, x, t, u, u, nil)
      && Laid(x, t) == Laid(x, Leaf) + [Entry(n, m.key[n])] && Cells(x, t) == Cells(x, Leaf) + {n}
  {
    LeafLoose(m, x, n, LevelColor(0), nil);
  }

  /** It goes into the row above, without children, once the bottom row is used up. */
  lemma SecondRowStep(m: Mem, tree: seq<Ref>, x: Ctx, n: Ref, u: nat, nil: Ref)
    requires Waiting(m, tree, x, u, nil) && m.Has(n) && n != nil && n !in CtxNodes(x) && u % 2 == 0
    ensures var t := Node(Leaf, n, LevelColor(1), m.key[n], Leaf);
      && Ready(LeafMem(m, n, LevelColor(1), nil), tree, 1, x, t, u + 1, u / 2, nil)
      && Laid(x, t) == Laid(x, Leaf) + [Entry(n, m.key[n])] && Cells(x, t) == Cells(x, Leaf) + {n}
  {
    LeafLoose(m, x, n, LevelColor(1), nil);
    var t := Node(Leaf, n, LevelColor(1), m.key[n], Leaf);
    assert Layered(Leaf, 0) && Layered(t, 1);
    assert Pow2(1) == 2;
  }

  /** It goes on top of the complete subtree and waits for its right child. */
  lemma UpperStep(m: Mem, tree: seq<Ref>, level: nat, x: Ctx, t: Tree, n: Ref, u: nat, v: nat, nil: Ref)
    requires Ready(m, tree, level, x, t, u, v, nil) && v % 2 == 0 && level < DEPTH_MAX
    requires m.Has(n) && n != nil && n !in Cells(x, t)
    ensures m.Has(t.n)
    ensures var c := LevelColor(level + 1); var y := InRight(x, t, n, c, m.key[n]);
      && Waiting(UpperMem(m, n, t.n, c), tree[level := n], y, u + 1, nil)
      && Laid(y, Leaf) == Laid(x, t) + [Entry(n, m.key[n])] && Cells(y, Leaf) == Cells(x, t) + {n}
      && t.n in Cells(x, t)
  {
    var c := LevelColor(level + 1);
    UpperLoose(m, x, t, n, c, nil);
    var y, tree' := InRight(x, t, n, c, m.key[n]), tree[level := n];
    assert Slots(tree, x, level + 1, v / 2);
    SlotsFrame(tree, tree', x, level + 1, v / 2);
    assert (v + 1) % 2 == 1 && (v + 1) / 2 == v / 2;
    assert Slots(tree', y, level, v + 1);
    SlotsLow(tree', y, 0, level, v + 1);
  }

  /** The bottom row is used up while its last node hangs alone under a waiting parent. */
  lemma SealStep(m: Mem, tree: seq<Ref>, x: Ctx, u: nat, nil: Ref)
    requires Waiting(m, tree, x, u, nil) && tree[0] != NULL
    ensures x.InRight? && tree[0] == x.n && m.Has(x.n) && u % 2 == 1
    ensures Ready(SealMem(m, x.n, nil), tree[0 := NULL], 1, x.up, Lift(x, Leaf), u, u / 2, nil)
    ensures Laid(x.up, Lift(x, Leaf)) == Laid(x, Leaf) && Cells(x.up, Lift(x, Leaf)) == Cells(x, Leaf)
    ensures Untouched(m, SealMem(m, x.n, nil), Cells(x, Leaf))
  {
    hide Loose, Laid, Cells, Untouched, SealMem;
    SealLoose(m, x, nil);
    SlotsFrame(tree, tree[0 := NULL], x.up, 1, u / 2);
    assert Layered(x.l, 0) && Layered(Leaf, 0) && Layered(Lift(x, Leaf), 1);
    assert Pow2(1) == 2;
    LiftKeeps(x, Leaf);
    SealTouches(m, x, nil);
  }

  /** Filling the hole of a waiting node moves nothing. */
  lemma LiftKeeps(x: Ctx, t: Tree)
    requires x.InRight?
    ensures Laid(x.up, Lift(x, t)) == Laid(x, t) && Cells(x.up, Lift(x, t)) == Cells(x, t)
  {
    ConcatAssoc(Before(x.up), Inorder(x.l) + [Entry(x.n, x.k)], Inorder(t));
    ConcatAssoc(Before(x.up), Inorder(x.l), [Entry(x.n, x.k)]);
  }

  lemma SealTouches(m: Mem, x: Ctx, nil: Ref)
    requires x.InRight? && m.Has(x.n)
    ensures Untouched(m, SealMem(m, x.n, nil), Cells(x, Leaf))
  {
  }

  lemma AttachTouches(m: Mem, x: Ctx, t: Tree, nil: Ref)
    requires x.InRight? && m.Has(x.n) && m.Has(Ptr(t, nil))
    ensures Untouched(m, AttachMem(m, x.n, Ptr(t, nil)), Cells(x, t) + {nil})
  {
  }

  // ----- dict_load_end -----

  /** Loop state of dict_load_end, `complete == NULL` and otherwise. */
  ghost predicate Building(m: Mem, tree: seq<Ref>, complete: Ref, level: nat, base: nat,
                           x: Ctx, t: Tree, u: nat, v: nat, nil: Ref)
  {
    && m.Has(nil) && base <= 1 && level < DEPTH_MAX
    && if complete == NULL
       then Waiting(m, tree, x, u, nil) && t == Leaf && level == base && (base == 1 ==> u % 2 == 0)
       else Ready(m, tree, level, x, t, u, v, nil) && v % 2 == 0 && complete == t.n && base <= level
  }

  /** The switch to the second row. */
  method SwitchRow(d: D.Dict, tree0: seq<Ref>, ghost x0: Ctx, ghost u: nat)
    returns (tree: seq<Ref>, complete: Ref, level: nat, ghost x: Ctx, ghost t: Tree, ghost v: nat)
    requires Waiting(d.heap.View(), tree0, x0, u, d.nil) && u < Pow2(DEPTH_MAX - 1) && d.heap.View().Has(d.nil)
    modifies d.heap
    ensures Building(d.heap.View(), tree, complete, level, 1, x, t, u, v, d.nil)
    ensures Laid(x, t) == Laid(x0, Leaf) && Cells(x, t) == Cells(x0, Leaf)
    ensures d.heap.left == old(d.heap.left) && d.heap.key == old(d.heap.key)
    ensures Untouched(old(d.heap.View()), d.heap.View(), Cells(x0, Leaf))
    ensures complete == NULL <==> u % 2 == 0
  {
    hide Loose, Layered, Laid, Cells, Carry;
    tree, x, t, v := tree0, x0, Leaf, 0;
    complete, level := tree[0], 1;
    if complete != NULL {
      SealStep(d.heap.View(), tree, x, u, d.nil);
      tree := tree[0 := NULL];
      d.heap.right := d.heap.right[complete := d.nil];
      ghost var m := d.heap.View();
      tree, complete, level, x, t, v := Climb(d, tree, complete, 1, x.up, Lift(x, Leaf), u, u / 2);
      UntouchedTrans(old(d.heap.View()), m, d.heap.View(), Cells(x0, Leaf), Cells(x0, Leaf));
      CarryBound(u, v, level);
      ReadyAddress(d.heap.View(), tree, level, x, t, u, v, d.nil);
    } else {
      EvenAtEmpty(tree, x, 0, u);
    }
  }

  lemma ReadyAddress(m: Mem, tree: seq<Ref>, level: nat, x: Ctx, t: Tree, u: nat, v: nat, nil: Ref)
    requires Ready(m, tree, level, x, t, u, v, nil)
    ensures t.n != NULL && m.Has(t.n)
  {
  }

  /** The body of the loop for one node that starts a new row place (`complete == NULL`). */
  method PlaceLow(d: D.Dict, tree0: seq<Ref>, curr: Ref, base: nat, ghost x0: Ctx, ghost u: nat)
    returns (tree: seq<Ref>, complete: Ref, level: nat, ghost x: Ctx, ghost t: Tree, ghost v: nat)
    requires Building(d.heap.View(), tree0, NULL, base, base, x0, Leaf, u, 0, d.nil)
    requires u + base < Pow2(DEPTH_MAX - 1)
    requires d.heap.View().Has(curr) && curr != d.nil && curr !in Cells(x0, Leaf)
    modifies d.heap
    ensures Building(d.heap.View(), tree, complete, level, base, x, t, u + base, v, d.nil) && complete != NULL
    ensures Laid(x, t) == Laid(x0, Leaf) + [Entry(curr, old(d.heap.key[curr]))] && Cells(x, t) == Cells(x0, Leaf) + {curr}
    ensures d.heap.left == old(d.heap.left)[curr := d.nil] && d.heap.key == old(d.heap.key)
    ensures Untouched(old(d.heap.View()), d.heap.View(), Cells(x0, Leaf) + {curr})
  {
    hide Loose, Slots, Layered, Laid, Carry, Ready;
    var c := if base % 2 == 0 then Red else Black;
    if base == 0 {
      BottomStep(d.heap.View(), tree0, x0, curr, u, d.nil);
    } else {
      SecondRowStep(d.heap.View(), tree0, x0, curr, u, d.nil);
    }
    d.heap.left := d.heap.left[curr := d.nil];
    d.heap.right := d.heap.right[curr := d.nil];
    d.heap.color := d.heap.color[curr := c];
    ghost var t1 := Node(Leaf, curr, c, d.heap.key[curr], Leaf);
    ghost var m := d.heap.View();
    tree, complete, level, x, t, v :=
      Climb(d, tree0, curr, base, x0, t1, u + base, if base == 0 then u else u / 2);
    UntouchedTrans(old(d.heap.View()), m, d.heap.View(), {curr}, Cells(x0, t1));
    ReadyAddress(d.heap.View(), tree, level, x, t, u + base, v, d.nil);
    ReadyLevel(d.heap.View(), tree, level, x, t, u + base, v, d.nil);
  }

  lemma ReadyLevel(m: Mem, tree: seq<Ref>, level: nat, x: Ctx, t: Tree, u: nat, v: nat, nil: Ref)
    requires Ready(m, tree, level, x, t, u, v, nil) && u < Pow2(DEPTH_MAX - 1)
    ensures level < DEPTH_MAX
  {
    CarryBound(u, v, level);
  }

  /** The body of the loop for one node that goes on top of the complete subtree. */
  method PlaceUpper(d: D.Dict, tree0: seq<Ref>, curr: Ref, complete: Ref, level: nat, base: nat,
                    ghost x0: Ctx, ghost t0: Tree, ghost u: nat, ghost v: nat)
    returns (tree: seq<Ref>, ghost x: Ctx)
    requires Building(d.heap.View(), tree0, complete, level, base, x0, t0, u, v, d.nil) && complete != NULL
    requires d.heap.View().Has(curr) && curr != d.nil && curr !in Cells(x0, t0)
    modifies d.heap
    ensures Waiting(d.heap.View(), tree, x, u + 1, d.nil) && d.heap.View().Has(d.nil)
    ensures base == 1 ==> (u + 1) % 2 == 0
    ensures Laid(x, Leaf) == Laid(x0, t0) + [Entry(curr, old(d.heap.key[curr]))] && Cells(x, Leaf) == Cells(x0, t0) + {curr}
    ensures d.heap.left == old(d.heap.left)[curr := complete] && d.heap.key == old(d.heap.key)
    ensures Untouched(old(d.heap.View()), d.heap.View(), Cells(x0, t0) + {curr})
  {
    hide Loose, Slots, Layered, Laid, Cells, Waiting;
    UpperStep(d.heap.View(), tree0, level, x0, t0, curr, u, v, d.nil);
    if base == 1 { CarryOdd(u, v, level); }
    d.heap.left := d.heap.left[curr := complete];
    d.heap.color := d.heap.color[curr := if (level + 1) % 2 == 0 then Red else Black];
    d.heap.parent := d.heap.parent[complete := curr];
    tree := tree0[level := curr];
    x := InRight(x0, t0, curr, LevelColor(level + 1), d.heap.key[curr]);
  }

  lemma CarryOdd(u: nat, v: nat, l: nat)
    requires Carry(u, v, l) && l > 0
    ensures (u + 1) % 2 == 0
  {
    Doubled(v + 1, l);
  }

  /** The last pass over the slots: what still waits gets what is there, or nothing. */
  method Finish(d: D.Dict, tree: seq<Ref>, c0: Ref, level: nat, base: nat,
                ghost x0: Ctx, ghost t0: Tree, ghost u: nat, ghost v0: nat, ghost k: nat)
    requires Building(d.heap.View(), tree, c0, level, base, x0, t0, u, v0, d.nil) && u + 1 == Pow2(k)
    modifies d.heap, d`tree
    ensures Good(d.heap.View(), Top, d.tree, d.nil) && NilBlack(d.heap.View(), d.nil) && RedBlack(d.tree)
    ensures d.tree.Leaf? ==> d.heap.parent[d.nil] == d.nil
    ensures Inorder(d.tree) == Laid(x0, t0)
    ensures Untouched(old(d.heap.View()), d.heap.View(), Cells(x0, t0) + {d.nil})
  {
    hide Loose, Layered, Laid, Good, RedBlack, Untouched, Cells;
    SameUntouched(d.heap.View(), Cells(x0, t0) + {d.nil});
    ghost var x, t, v := x0, t0, u;
    ghost var lev: nat := 0;
    var complete := c0;
    if complete == NULL {
      complete := d.nil;
      LeafLayered();
    } else {
      CarryAllOnes(u, v0, level, k);
      SlotsLow(tree, x, 0, level, 0);
      v, lev := 0, level;
    }
    StartOnes(v, u, k);
    var i := 0;
    while i < DEPTH_MAX
      invariant i <= DEPTH_MAX && |tree| == DEPTH_MAX
      invariant Loose(d.heap.View(), x, t, d.nil) && complete == Ptr(t, d.nil) && d.heap.View().Has(d.nil)
      invariant Slots(tree, x, i, v) && AllOnes(v) && Layered(t, lev) && (v > 0 ==> lev == i)
      invariant Laid(x, t) == Laid(x0, t0) && Cells(x, t) == Cells(x0, t0)
      invariant Untouched(old(d.heap.View()), d.heap.View(), Cells(x0, t0) + {d.nil})
    {
      if tree[i] != NULL {
        ghost var m := d.heap.View();
        LastStep(d.heap.View(), tree, i, x, t, v, d.nil);
        d.heap.right := d.heap.right[tree[i] := complete];
        d.heap.parent := d.heap.parent[complete := tree[i]];
        complete := tree[i];
        UntouchedWithin(old(d.heap.View()), m, d.heap.View(), Cells(x0, t0) + {d.nil}, Cells(x, t) + {d.nil});
        x, t, lev := x.up, Lift(x, t), i + 1;
      }
      HalfOnes(v);
      v := v / 2;
      i := i + 1;
    }
    SlotsZero(tree, x, i);
    ghost var m := d.heap.View();
    Crown(d, complete, t, lev);
    UntouchedWithin(old(d.heap.View()), m, d.heap.View(), Cells(x0, t0) + {d.nil}, Cells(x, t) + {d.nil});
  }

  /** The finished tree becomes the dictionary. */
  method Crown(d: D.Dict, complete: Ref, ghost t: Tree, ghost lev: nat)
    requires Loose(d.heap.View(), Top, t, d.nil) && d.heap.View().Has(d.nil)
    requires Layered(t, lev) && complete == Ptr(t, d.nil)
    modifies d.heap, d`tree
    ensures Good(d.heap.View(), Top, d.tree, d.nil) && NilBlack(d.heap.View(), d.nil) && RedBlack(d.tree)
    ensures d.tree.Leaf? ==> d.heap.parent[d.nil] == d.nil
    ensures Inorder(d.tree) == Laid(Top, t)
    ensures Untouched(old(d.heap.View()), d.heap.View(), Cells(Top, t) + {d.nil})
  {
    hide Loose, Layered, Good, RedBlack;
    CrownGood(d.heap.View(), t, d.nil);
    LayeredRedBlack(t, lev);
    PaintContents(Top, t, Black);
    d.heap.color := d.heap.color[d.nil := Black];
    d.heap.right := d.heap.right[d.nil := d.nil];
    d.heap.parent := d.heap.parent[complete := d.nil];
    d.heap.color := d.heap.color[complete := Black];
    d.heap.left := d.heap.left[d.nil := complete];
    d.tree := Paint(t, Black);
  }

  ghost predicate AllOnes(v: nat) { exists e: nat :: v + 1 == Pow2(e) }

  lemma StartOnes(v: nat, u: nat, k: nat)
    requires u + 1 == Pow2(k) && (v == u || v == 0)
    ensures AllOnes(v)
  {
    assert v == 0 ==> v + 1 == Pow2(0);
  }

  lemma HalfOnes(v: nat)
    requires AllOnes(v)
    ensures AllOnes(v / 2) && (v > 0 ==> v % 2 == 1)
  {
    var e: nat :| v + 1 == Pow2(e);
    if e > 0 {
      assert v / 2 + 1 == Pow2(e - 1);
    } else {
      assert v / 2 + 1 == Pow2(0);
    }
  }

  lemma LeafLayered()
    ensures Layered(Leaf, 0)
  {
  }

  lemma LastStep(m: Mem, tree: seq<Ref>, i: nat, x: Ctx, t: Tree, v: nat, nil: Ref)
    requires |tree| == DEPTH_MAX && i < DEPTH_MAX && tree[i] != NULL && Slots(tree, x, i, v)
    requires Loose(m, x, t, nil) && m.Has(nil) && Layered(t, i)
    ensures x.InRight? && tree[i] == x.n && v % 2 == 1 && m.Has(x.n) && m.Has(Ptr(t, nil))
    ensures Loose(AttachMem(m, x.n, Ptr(t, nil)), x.up, Lift(x, t), nil)
    ensures Slots(tree, x.up, i + 1, v / 2) && Layered(Lift(x, t), i + 1)
    ensures Laid(x.up, Lift(x, t)) == Laid(x, t) && Cells(x.up, Lift(x, t)) == Cells(x, t)
    ensures Untouched(m, AttachMem(m, x.n, Ptr(t, nil)), Cells(x, t) + {nil})
  {
    hide Loose, Laid, Cells, Untouched, AttachMem;
    AttachLoose(m, x, t, nil);
    LiftKeeps(x, t);
    AttachTouches(m, x, t, nil);
  }

  /** The rows above the bottom one hold the largest 2^k - 1 below the node count. */
  method RowSplit(nodecount: nat) returns (fullcount: nat, ghost k: nat)
    requires nodecount < Pow2(DEPTH_MAX)
    ensures fullcount + 1 == Pow2(k)
    ensures if nodecount == 0 then fullcount == 0 else fullcount < nodecount <= 2 * fullcount + 1
  {
    fullcount, k := Pow2(DEPTH_MAX) - 1, DEPTH_MAX;
    while fullcount >= nodecount && fullcount != 0
      invariant fullcount + 1 == Pow2(k) && nodecount <= 2 * fullcount + 1
      decreases fullcount
    {
      fullcount := fullcount / 2;
      k := k - 1;
    }
  }

  /** How many nodes of each kind have been placed, and what botrowcount says about it. */
  ghost predicate Tally(base: nat, bot: nat, waiting: bool, i: nat, u: nat, b: nat) {
    if base == 0 then i - u + bot == b && i - u == (if waiting then u else u + 1)
    else i == b + u && bot + i >= Pow2(DEPTH_MAX) - 1
  }

  /** One node of the list. */
  method LoadStep(d: D.Dict, curr: Ref, tree0: seq<Ref>, c0: Ref, l0: nat, base0: nat, bot0: nat,
                  ghost x0: Ctx, ghost t0: Tree, ghost u0: nat, ghost v0: nat, ghost i: nat, ghost b: nat)
    returns (tree: seq<Ref>, complete: Ref, level: nat, base: nat, bot: nat,
             ghost x: Ctx, ghost t: Tree, ghost u: nat, ghost v: nat)
    requires Building(d.heap.View(), tree0, c0, l0, base0, x0, t0, u0, v0, d.nil)
    requires Tally(base0, bot0, c0 == NULL, i, u0, b) && i + 1 < Pow2(DEPTH_MAX - 1)
    requires d.heap.View().Has(curr) && curr != d.nil && curr !in Cells(x0, t0)
    modifies d.heap
    ensures Building(d.heap.View(), tree, complete, level, base, x, t, u, v, d.nil)
    ensures Tally(base, bot, complete == NULL, i + 1, u, b)
    ensures Laid(x, t) == Laid(x0, t0) + [Entry(curr, old(d.heap.key[curr]))] && Cells(x, t) == Cells(x0, t0) + {curr}
    ensures Untouched(old(d.heap.View()), d.heap.View(), Cells(x0, t0) + {curr})
    ensures forall j | 0 <= j < |d.heap.left| && j != curr :: d.heap.left[j] == old(d.heap.left[j])
  {
    hide Laid, Cells, Waiting, Ready;
    tree, complete, level, base, bot, x, t, u, v := tree0, c0, l0, base0, bot0, x0, t0, u0, v0;
    if complete == NULL {
      var was := bot;
      bot := if bot == 0 then Pow2(DEPTH_MAX) - 1 else bot - 1;
      if was == 0 {
        base := 1;
        tree, complete, level, x, t, v := SwitchRow(d, tree, x, u);
      }
    }
    ghost var m := d.heap.View();
    if complete == NULL {
      tree, complete, level, x, t, v := PlaceLow(d, tree, curr, base, x, u);
      u := u + base;
    } else {
      tree, x := PlaceUpper(d, tree, curr, complete, level, base, x, t, u, v);
      complete, level, t, u := NULL, base, Leaf, u + 1;
    }
    UntouchedTrans(old(d.heap.View()), m, d.heap.View(), Cells(x0, t0), Cells(x0, t0) + {curr});
  }

  /** Where the bottom row ends, and hence how many nodes lie above it. */
  lemma UpperCount(base: nat, bot: nat, waiting: bool, n: nat, u: nat, b: nat, full: nat)
    requires Tally(base, bot, waiting, n, u, b) && n == b + full && b <= full + 1
    ensures u == full
  {
  }

  /** A list ready to be loaded: `list` in order, threaded from the load sentinel. */
  ghost predicate Listed(m: Mem, nil: Ref, loadnil: Ref, list: seq<Ref>) {
    && m.Has(nil) && m.Has(loadnil) && NoRepeats(list) && Members(m, list, nil, loadnil)
    && Chain(m.left, m.left[loadnil], list, loadnil)
  }

  /** The nodes laid out so far are the first `i` of the list. */
  ghost predicate Covered(x: Ctx, t: Tree, list: seq<Ref>, i: nat, key: seq<int>)
    requires i <= |list| && forall j | 0 <= j < |list| :: 0 <= list[j] < |key|
  {
    Laid(x, t) == Entries(list[..i], key) && forall n | n in Cells(x, t) :: n in list[..i]
  }

  lemma CoverStep(x0: Ctx, t0: Tree, x: Ctx, t: Tree, list: seq<Ref>, i: nat, key: seq<int>)
    requires i < |list| && forall j | 0 <= j < |list| :: 0 <= list[j] < |key|
    requires Covered(x0, t0, list, i, key)
    requires Laid(x, t) == Laid(x0, t0) + [Entry(list[i], key[list[i]])] && Cells(x, t) == Cells(x0, t0) + {list[i]}
    ensures Covered(x, t, list, i + 1, key)
  {
    hide Laid, Cells;
    var a, b := list[..i], list[..i + 1];
    assert b == a + [list[i]] && b[..|b| - 1] == a;
    assert Entries(b, key) == Entries(a, key) + [Entry(list[i], key[list[i]])];
    forall n | n in Cells(x, t)
      ensures n in b
    {
      if n != list[i] { assert n in a; }
    }
  }

  lemma CoverLaid(x: Ctx, t: Tree, list: seq<Ref>, i: nat, key: seq<int>)
    requires i <= |list| && (forall j | 0 <= j < |list| :: 0 <= list[j] < |key|) && Covered(x, t, list, i, key)
    ensures Laid(x, t) == Entries(list[..i], key)
  {
  }

  lemma CoverCells(x: Ctx, t: Tree, list: seq<Ref>, i: nat, key: seq<int>)
    requires i <= |list| && (forall j | 0 <= j < |list| :: 0 <= list[j] < |key|) && Covered(x, t, list, i, key)
    ensures Cells(x, t) <= set n | n in list
    ensures i < |list| && NoRepeats(list) ==> list[i] !in Cells(x, t)
  {
    hide Cells, Laid;
    forall n | n in Cells(x, t)
      ensures n in list
    {
      assert n in list[..i];
    }
  }

  lemma NotYet(list: seq<Ref>, i: nat)
    requires i < |list| && NoRepeats(list)
    ensures list[i] !in list[..i] && list[i] !in list[i + 1..]
  {
  }

  /** The loop over the list: one node after the other goes to its level. */
  method LoadRows(d: D.Dict, loadnil: Ref, b: nat, ghost list: seq<Ref>)
    returns (tree: seq<Ref>, complete: Ref, level: nat, base: nat, bot: nat, ghost x: Ctx, ghost t: Tree, ghost u: nat, ghost v: nat)
    requires Listed(d.heap.View(), d.nil, loadnil, list) && |list| < Pow2(DEPTH_MAX - 1)
    modifies d.heap
    ensures Untouched(old(d.heap.View()), d.heap.View(), (set n | n in list) + {d.nil})
    ensures SameCells(old(d.heap.View()), d.heap.View()) && d.heap.key == old(d.heap.key)
    ensures Building(d.heap.View(), tree, complete, level, base, x, t, u, v, d.nil)
    ensures Tally(base, bot, complete == NULL, |list|, u, b) && Covered(x, t, list, |list|, d.heap.key)
  {
    hide Building, Laid, Cells, Entries, Untouched, Covered, Tally, Pow2;
    ghost var all := (set n | n in list) + {d.nil};
    SameUntouched(d.heap.View(), all);
    ghost var key, i := d.heap.key, 0;
    tree, complete, level, base, bot := seq(DEPTH_MAX, _ => NULL), NULL, 0, 0, b;
    x, t, u, v := Top, Leaf, 0, 0;
    EmptyStart(d.heap.View(), tree, list, key, d.nil, b);
    var curr := d.heap.left[loadnil];
    while curr != loadnil
      invariant 0 <= i <= |list| && Untouched(old(d.heap.View()), d.heap.View(), all)
      invariant SameCells(old(d.heap.View()), d.heap.View()) && d.heap.key == key
      invariant Chain(d.heap.left, curr, list[i..], loadnil)
      invariant Building(d.heap.View(), tree, complete, level, base, x, t, u, v, d.nil)
      invariant Tally(base, bot, complete == NULL, i, u, b)
      invariant Covered(x, t, list, i, key)
      decreases |list| - i
    {
      assert list[i..] != [] && curr == list[i] && list[i..][1..] == list[i + 1..];
      NotYet(list, i);
      CoverCells(x, t, list, i, key);
      var next := d.heap.left[curr];
      ghost var x', t', m := x, t, d.heap.View();
      tree, complete, level, base, bot, x, t, u, v :=
        LoadStep(d, curr, tree, complete, level, base, bot, x, t, u, v, i, b);
      UntouchedWithin(old(d.heap.View()), m, d.heap.View(), all, Cells(x', t') + {curr});
      CoverStep(x', t', x, t, list, i, key);
      ChainFrame(m.left, d.heap.left, next, list[i + 1..], loadnil, curr);
      curr, i := next, i + 1;
    }
    assert i == |list|;
  }

  /** dict_load_end: the list becomes the dictionary, in the order of the list. */
  method LoadEnd(d: D.Dict, loadnil: Ref, ghost list: seq<Ref>)
    requires Listed(d.heap.View(), d.nil, loadnil, list)
    requires d.nodecount == |list| < Pow2(DEPTH_MAX - 1)
    requires D.Preorder(d.compare) && D.Sorted(d.compare, Entries(list, d.heap.key))
    modifies d.heap, d`tree
    ensures d.Valid() && Inorder(d.tree) == Entries(list, old(d.heap.key))
    ensures Untouched(old(d.heap.View()), d.heap.View(), (set n | n in list) + {d.nil})
  {
    hide Building, Laid, Cells, Entries, D.Sorted, D.Preorder, Good, RedBlack, Untouched, Covered, Tally, Pow2, Inorder, Chain;
    ghost var all, key := (set n | n in list) + {d.nil}, d.heap.key;
    var fullcount; ghost var k;
    Pow2Mono(DEPTH_MAX - 1, DEPTH_MAX);
    fullcount, k := RowSplit(d.nodecount);
    var b: nat := d.nodecount - fullcount;
    var tree, complete, level, base, bot;
    ghost var x, t, u, v;
    tree, complete, level, base, bot, x, t, u, v := LoadRows(d, loadnil, b, list);
    assert list[..|list|] == list;
    CoverLaid(x, t, list, |list|, key);
    UpperCount(base, bot, complete == NULL, |list|, u, b, fullcount);
    CoverCells(x, t, list, |list|, key);
    ghost var m := d.heap.View();
    Finish(d, tree, complete, level, base, x, t, u, v, k);
    UntouchedWithin(old(d.heap.View()), m, d.heap.View(), all, Cells(x, t) + {d.nil});
    InorderLength(d.tree);
    EntriesLength(list, key);
  }

  lemma EmptyStart(m: Mem, tree: seq<Ref>, list: seq<Ref>, key: seq<int>, nil: Ref, b: nat)
    requires |tree| == DEPTH_MAX && (forall j | 0 <= j < DEPTH_MAX :: tree[j] == NULL) && m.Has(nil)
    requires forall j | 0 <= j < |list| :: 0 <= list[j] < |key|
    ensures Building(m, tree, NULL, 0, 0, Top, Leaf, 0, 0, nil)
    ensures Covered(Top, Leaf, list, 0, key) && Tally(0, b, true, 0, 0, b)
  {
    EmptySlots(tree, 0);
  }

  lemma {:induction false} EmptySlots(tree: seq<Ref>, i: nat)
    requires |tree| == DEPTH_MAX && forall j | 0 <= j < DEPTH_MAX :: tree[j] == NULL
    ensures Slots(tree, Top, i, 0)
    decreases DEPTH_MAX - i
  {
    if i < DEPTH_MAX { EmptySlots(tree, i + 1); }
  }

  lemma {:induction false} EntriesLength(list: seq<Ref>, key: seq<int>)
    requires forall j | 0 <= j < |list| :: 0 <= list[j] < |key|
    ensures |Entries(list, key)| == |list|
  {
    if list != [] { EntriesLength(list[..|list| - 1], key); }
  }
}
