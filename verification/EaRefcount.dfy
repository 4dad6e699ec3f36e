/**
 * The extended-attribute reference count store: a sorted array in which
 * counts that have dropped to zero linger until space is needed, with a
 * cursor that remembers the last hit.  Its abstract value is a total function
 * from block numbers to counts, zero almost everywhere.
 */
module EaRefcount {

  datatype Element = Element(blk: nat, count: int)

  /** The count an array of elements gives to a block. */
  function At(els: seq<Element>, blk: nat): int {
    if els == [] then 0
    else if els[|els| - 1].blk == blk then els[|els| - 1].count
    else At(els[..|els| - 1], blk)
  }

  ghost predicate Ascending(els: seq<Element>) {
    forall i, j | 0 <= i < j < |els| :: els[i].blk < els[j].blk
  }

  lemma {:induction false} AtIndex(els: seq<Element>, i: nat)
    requires Ascending(els) && i < |els|
    ensures At(els, els[i].blk) == els[i].count
  {
    if i < |els| - 1 { AtIndex(els[..|els| - 1], i); }
  }

  lemma {:induction false} AtAbsent(els: seq<Element>, blk: nat)
    requires forall i | 0 <= i < |els| :: els[i].blk != blk
    ensures At(els, blk) == 0
  {
    if els != [] { AtAbsent(els[..|els| - 1], blk); }
  }

  /** Arrays that agree on every live element give the same counts. */
  lemma SameCounts(a: seq<Element>, b: seq<Element>, blk: nat)
    requires Ascending(a) && Ascending(b)
    requires forall i | 0 <= i < |a| && a[i].blk == blk && a[i].count != 0 :: a[i] in b
    requires forall i | 0 <= i < |b| && b[i].blk == blk && b[i].count != 0 :: b[i] in a
    ensures At(a, blk) == At(b, blk)
  {
    if i :| 0 <= i < |a| && a[i].blk == blk && a[i].count != 0 {
      var j :| 0 <= j < |b| && b[j] == a[i];
      AtIndex(a, i);
      AtIndex(b, j);
    } else {
      NoLive(a, blk);
      NoLive(b, blk);
    }
  }

  lemma NoLive(a: seq<Element>, blk: nat)
    requires Ascending(a) && forall i | 0 <= i < |a| && a[i].blk == blk :: a[i].count == 0
    ensures At(a, blk) == 0
  {
    if i :| 0 <= i < |a| && a[i].blk == blk { AtIndex(a, i); } else { AtAbsent(a, blk); }
  }

  // ----- the array operations, as functions -----

  /** Elements with a count: what refcount_collapse keeps. */
  function Live(els: seq<Element>): seq<Element> {
    if els == [] then []
    else Live(els[..|els| - 1]) + (if els[|els| - 1].count != 0 then [els[|els| - 1]] else [])
  }

  lemma {:induction false} LiveElements(els: seq<Element>)
    requires Ascending(els)
    ensures |Live(els)| <= |els| && Ascending(Live(els))
    ensures forall e | e in Live(els) :: e in els && e.count != 0
    ensures forall e | e in els && e.count != 0 :: e in Live(els)
  {
    if els != [] {
      LiveElements(els[..|els| - 1]);
      assert els == els[..|els| - 1] + [els[|els| - 1]];
    }
  }

  lemma LiveAt(els: seq<Element>, blk: nat)
    requires Ascending(els)
    ensures At(Live(els), blk) == At(els, blk)
  {
    LiveElements(els);
    SameCounts(els, Live(els), blk);
  }

  /** A new, empty element at its place. */
  lemma InsertAt(els: seq<Element>, pos: nat, blk: nat, b: nat)
    requires Ascending(els) && pos <= |els|
    requires forall i | 0 <= i < pos :: els[i].blk < blk
    requires forall i | pos <= i < |els| :: blk < els[i].blk
    ensures Ascending(els[..pos] + [Element(blk, 0)] + els[pos..])
    ensures At(els[..pos] + [Element(blk, 0)] + els[pos..], b) == At(els, b)
  {
    var e := els[..pos] + [Element(blk, 0)] + els[pos..];
    forall i | 0 <= i < |els| && els[i].blk == b
      ensures els[i] in e
    {
      assert els[i] == e[if i < pos then i else i + 1];
    }
    SameCounts(els, e, b);
  }

  /** Changing one element's count changes the store at its block only. */
  lemma SetAt(els: seq<Element>, i: nat, c: int, b: nat)
    requires Ascending(els) && i < |els|
    ensures Ascending(els[i := els[i].(count := c)])
    ensures At(els[i := els[i].(count := c)], b) == if b == els[i].blk then c else At(els, b)
  {
    var e := els[i := els[i].(count := c)];
    if b == els[i].blk {
      AtIndex(e, i);
    } else {
      forall j | 0 <= j < |els| && els[j].blk == b
        ensures els[j] in e
      {
        assert e[j] == els[j];
      }
      forall j | 0 <= j < |e| && e[j].blk == b
        ensures e[j] in els
      {
        assert e[j] == els[j];
      }
      SameCounts(els, e, b);
    }
  }

  lemma LiveNone(els: seq<Element>)
    ensures Live(els[..0]) == [] == els[..0] && Live([]) == []
  {
  }

  lemma LiveNext(els: seq<Element>, i: nat)
    requires i < |els|
    ensures Live(els[..i + 1]) == if els[i].count != 0 then Live(els[..i]) + [els[i]] else Live(els[..i])
  {
    assert els[..i + 1][..i] == els[..i];
  }

  /** If collapsing frees nothing, it changes nothing. */
  lemma {:induction false} LiveFull(els: seq<Element>)
    ensures |Live(els)| <= |els| && (|Live(els)| == |els| ==> Live(els) == els)
  {
    hide Live;
    if els == [] {
      LiveNone(els);
    } else {
      var n := |els| - 1;
      LiveFull(els[..n]);
      LiveNext(els, n);
      assert els == els[..n] + [els[n]] == els[..n + 1];
    }
  }

  // ----- the store -----

  datatype Status = Success | InvalidArgument

  class Refcount {
    /** The allocated array; the first `count` elements are in use. */
    var list: seq<Element>
    var count: nat
    var size: nat
    var cursor: nat

    ghost predicate Valid()
      reads this
    {
      count <= size == |list| && Ascending(list[..count])
    }

    ghost function Used(): seq<Element>
      requires Valid()
      reads this
    {
      list[..count]
    }

    /** The abstract value. */
    ghost function Value(blk: nat): int
      requires Valid()
      reads this
    {
      At(Used(), blk)
    }

    constructor (size0: nat)
      ensures Valid() && count == 0 && cursor == 0
      ensures size == if size0 == 0 then 500 else size0
      ensures forall b: nat :: Value(b) == 0
    {
      var n := if size0 == 0 then 500 else size0;
      size, count, cursor := n, 0, 0;
      list := seq(n, _ => Element(0, 0));
    }

    /** Drops every element whose count is zero. */
    method Collapse()
      requires Valid()
      modifies this
      ensures Valid() && Used() == Live(old(Used())) && size == old(size) && cursor == old(cursor)
    {
      hide Live;
      var i, j := 0, 0;
      ghost var was := list;
      LiveNone(was);
      while i < count
        invariant j <= i <= count && |list| == size && count == old(count) && size == old(size) && cursor == old(cursor)
        invariant list[..j] == Live(was[..i])
        invariant list[i..] == was[i..]
      {
        LiveNext(was, i);
        assert list[i] == was[i];
        if list[i].count != 0 {
          if i != j {
            list := list[j := list[i]];
          }
          j := j + 1;
        }
        i := i + 1;
      }
      LiveElements(was[..count]);
      count := j;
    }

    /** Makes room at `pos` for a new element with count zero. */
    method InsertEl(blk: nat, pos: nat)
      requires Valid() && pos <= count
      modifies this
      ensures |list| == size && count == old(count) + 1 <= size && cursor == old(cursor)
      ensures list[..count] == old(list[..pos]) + [Element(blk, 0)] + old(list[pos..count])
      ensures size == if old(count >= size) then old(size) + 100 else old(size)
    {
      if count >= size {
        list := list + seq(100, _ => Element(0, 0));
        size := size + 100;
      }
      list := list[..pos] + [list[pos]] + list[pos..count] + list[count + 1..];
      count := count + 1;
      list := list[pos := Element(blk, 0)];
    }

    lemma InsertedValue(els: seq<Element>, pos: nat, blk: nat)
      requires Ascending(els) && pos <= |els|
      requires forall i | 0 <= i < pos :: els[i].blk < blk
      requires forall i | pos <= i < |els| :: blk < els[i].blk
      ensures var e := els[..pos] + [Element(blk, 0)] + els[pos..];
        Ascending(e) && forall b: nat :: At(e, b) == At(els, b)
    {
      var e := els[..pos] + [Element(blk, 0)] + els[pos..];
      InsertAt(els, pos, blk, 0);
      forall b: nat ensures At(e, b) == At(els, b) { InsertAt(els, pos, blk, b); }
    }

    lemma CollapsedValue(els: seq<Element>)
      requires Ascending(els)
      ensures Ascending(Live(els)) && forall b: nat :: At(Live(els), b) == At(els, b)
    {
      LiveElements(els);
      forall b: nat ensures At(Live(els), b) == At(els, b) { LiveAt(els, b); }
    }

    /** Binary search: the element, or the place where it belongs. */
    method Search(blk: nat) returns (found: bool, pos: nat)
      requires Valid()
      ensures found ==> pos < count && list[pos].blk == blk
      ensures !found ==> pos <= count
      ensures !found ==> forall i | 0 <= i < pos :: list[i].blk < blk
      ensures !found ==> forall i | pos <= i < count :: blk < list[i].blk
    {
      var low, high := 0, count - 1;
      while low <= high
        invariant 0 <= low <= high + 1 <= count
        invariant forall i | 0 <= i < low :: list[i].blk < blk
        invariant forall i | high < i < count :: blk < list[i].blk
        decreases high - low
      {
        var mid := (low + high) / 2;
        assert list[..count][mid] == list[mid];
        assert forall i | 0 <= i < count :: list[..count][i] == list[i];
        if blk == list[mid].blk { return true, mid; }
        if blk < list[mid].blk { high := mid - 1; } else { low := mid + 1; }
      }
      return false, low;
    }

    /** Collapsing a full array: either there is room now, or nothing has moved. */
    method Compact()
      requires Valid() && count >= size
      modifies this
      ensures Valid() && (forall b: nat :: Value(b) == old(Value(b))) && size == old(size)
      ensures count >= size ==> count == old(count) && Used() == old(Used())
    {
      ghost var was := Used();
      CollapsedValue(was);
      Collapse();
      LiveFull(was);
    }

    /**
     * The element of a block, created on demand.  Whatever the cursor says, and
     * whether the array is collapsed, searched again or grown, no count changes.
     */
    method GetEl(blk: nat, create: bool) returns (el: int, ghost retries: nat)
      requires Valid()
      modifies this
      ensures Valid() && forall b: nat :: Value(b) == old(Value(b))
      ensures el >= 0 ==> el < count && list[el].blk == blk
      ensures el < 0 ==> !create && Value(blk) == 0
      ensures retries <= 1
    {
      hide At, Live, Ascending;
      retries := 0;
      while true
        invariant Valid() && (forall b: nat :: Value(b) == old(Value(b)))
        invariant retries == 0 || (retries == 1 && count < size)
        decreases 1 - retries
      {
        if create && (count == 0 || blk > list[count - 1].blk) {
          LastIsGreatest();
          el := AddLast(blk);
          return;
        }
        if count == 0 {
          AtAbsent(Used(), blk);
          el := -1;
          return;
        }
        if cursor >= count { cursor := 0; }
        if blk == list[cursor].blk {
          el := cursor;
          cursor := cursor + 1;
          return;
        }
        var found, pos := Search(blk);
        if found {
          cursor := pos + 1;
          el := pos;
          return;
        }
        if !create {
          AtAbsent(Used(), blk);
          el := -1;
          return;
        }
        if count >= size {
          Compact();
          if count < size {
            retries := retries + 1;
            continue;
          }
        }
        assert forall i | 0 <= i < count :: list[i] == Used()[i];
        AddAt(blk, pos);
        el := pos;
        return;
      }
    }

    lemma LastIsGreatest()
      requires Valid()
      ensures count > 0 ==> forall i | 0 <= i < count :: list[i].blk <= list[count - 1].blk
    {
      assert forall i | 0 <= i < count :: list[..count][i] == list[i];
    }

    method AddAt(blk: nat, pos: nat)
      requires Valid() && pos <= count
      requires forall i | 0 <= i < pos :: list[i].blk < blk
      requires forall i | pos <= i < count :: blk < list[i].blk
      modifies this
      ensures Valid() && pos < count && list[pos].blk == blk
      ensures forall b: nat :: Value(b) == old(Value(b))
    {
      ghost var u := Used();
      InsertedValue(u, pos, blk);
      InsertEl(blk, pos);
      assert Used() == u[..pos] + [Element(blk, 0)] + u[pos..];
      assert list[..count][pos] == list[pos];
    }

    /** Appending behind the last element, after making room by collapsing if need be. */
    method AddLast(blk: nat) returns (el: nat)
      requires Valid() && forall i | 0 <= i < count :: list[i].blk < blk
      modifies this
      ensures Valid() && el < count && list[el].blk == blk
      ensures forall b: nat :: Value(b) == old(Value(b))
    {
      if count >= size {
        ghost var u := Used();
        CollapsedValue(u);
        LiveElements(u);
        Collapse();
        forall i | 0 <= i < count
          ensures list[i].blk < blk
        {
          assert list[i] == Used()[i] && Used()[i] in u;
        }
      }
      el := count;
      AddAt(blk, count);
    }

    // ----- the public operations -----

    method Fetch(blk: nat) returns (r: int)
      requires Valid()
      modifies this
      ensures Valid() && (forall b: nat :: Value(b) == old(Value(b))) && r == Value(blk)
    {
      ghost var n;
      var el;
      el, n := GetEl(blk, false);
      if el < 0 { return 0; }
      ElementValue(el, blk);
      r := list[el].count;
    }

    lemma ElementValue(el: nat, blk: nat)
      requires Valid() && el < count && list[el].blk == blk
      ensures Value(blk) == list[el].count
    {
      assert Used()[el] == list[el];
      AtIndex(Used(), el);
    }

    /** Overwrites the count of one element. */
    method Put(el: nat, c: int)
      requires Valid() && el < count
      modifies this
      ensures Valid()
      ensures forall b: nat :: Value(b) == if b == old(list[el].blk) then c else old(Value(b))
    {
      hide At;
      ghost var u := Used();
      SetAt(u, el, c, 0);
      list := list[el := list[el].(count := c)];
      assert Used() == u[el := u[el].(count := c)];
      forall b: nat
        ensures Value(b) == if b == old(list[el].blk) then c else old(Value(b))
      {
        SetAt(u, el, c, b);
      }
    }

    method Increment(blk: nat) returns (status: Status, r: int)
      requires Valid()
      modifies this
      ensures Valid() && status == Success && r == old(Value(blk)) + 1
      ensures forall b: nat :: Value(b) == if b == blk then r else old(Value(b))
    {
      ghost var n;
      var el;
      el, n := GetEl(blk, true);
      ElementValue(el, blk);
      r := list[el].count + 1;
      Put(el, r);
      status := Success;
    }

    /** Refused when the count is already zero; a negative count is decremented further. */
    method Decrement(blk: nat) returns (status: Status, r: int)
      requires Valid()
      modifies this
      ensures Valid() && (status == Success <==> old(Value(blk)) != 0)
      ensures status == Success ==> r == old(Value(blk)) - 1
      ensures forall b: nat :: Value(b) == if b == blk && status == Success then r else old(Value(b))
    {
      ghost var n;
      var el;
      el, n := GetEl(blk, false);
      if el < 0 { return InvalidArgument, 0; }
      ElementValue(el, blk);
      if list[el].count == 0 { return InvalidArgument, 0; }
      r := list[el].count - 1;
      Put(el, r);
      status := Success;
    }

    method Store(blk: nat, c: int) returns (status: Status)
      requires Valid()
      modifies this
      ensures Valid() && status == Success
      ensures forall b: nat :: Value(b) == if b == blk then c else old(Value(b))
    {
      ghost var n;
      var el;
      el, n := GetEl(blk, c != 0);
      status := Success;
      if el < 0 { return; }
      Put(el, c);
    }

    // ----- iteration -----

    method IntrBegin()
      requires Valid()
      modifies this`cursor
      ensures Valid() && cursor == 0 && Used() == old(Used())
    {
      cursor := 0;
    }

    /** The next element with a count, in block order; 0 once there is none. */
    method IntrNext() returns (blk: nat, c: int)
      requires Valid()
      modifies this`cursor
      ensures Valid() && Used() == old(Used()) && old(cursor) <= cursor
      ensures if c == 0 then blk == 0 && count <= cursor
              else old(cursor) < cursor <= count && blk == list[cursor - 1].blk && c == list[cursor - 1].count
      ensures forall i | old(cursor) <= i < cursor - (if c == 0 then 0 else 1) && i < count :: list[i].count == 0
    {
      while true
        invariant old(cursor) <= cursor && Valid()
        invariant forall i | old(cursor) <= i < cursor && i < count :: list[i].count == 0
        decreases count - cursor
      {
        if cursor >= count { return 0, 0; }
        if list[cursor].count != 0 {
          cursor := cursor + 1;
          return list[cursor - 1].blk, list[cursor - 1].count;
        }
        cursor := cursor + 1;
      }
    }
  }

  // ----- whole programs -----

  /** The byte-code programs that exercise the store. */
  datatype Op = OpStore(blk: nat, c: int) | OpIncrement(blk: nat) | OpDecrement(blk: nat) | OpFetch(blk: nat)

  datatype Reply = Reply(status: Status, value: int)

  /** A plain map with default zero, the reference for the store. */
  function Default(m: map<nat, int>, blk: nat): int { if blk in m then m[blk] else 0 }

  function Effect(m: map<nat, int>, op: Op): map<nat, int> {
    match op
    case OpStore(b, c) => m[b := c]
    case OpIncrement(b) => m[b := Default(m, b) + 1]
    case OpDecrement(b) => if Default(m, b) == 0 then m else m[b := Default(m, b) - 1]
    case OpFetch(_) => m
  }

  function Answer(m: map<nat, int>, op: Op): Reply {
    match op
    case OpStore(_, _) => Reply(Success, 0)
    case OpIncrement(b) => Reply(Success, Default(m, b) + 1)
    case OpDecrement(b) =>
      if Default(m, b) == 0 then Reply(InvalidArgument, 0) else Reply(Success, Default(m, b) - 1)
    case OpFetch(b) => Reply(Success, Default(m, b))
  }

  function Replies(m: map<nat, int>, program: seq<Op>): seq<Reply>
    decreases program
  {
    if program == [] then [] else [Answer(m, program[0])] + Replies(Effect(m, program[0]), program[1..])
  }

  /** Every run of the store answers like the plain map, whatever the initial size. */
  method Run(program: seq<Op>, size: nat) returns (replies: seq<Reply>)
    ensures replies == Replies(map[], program)
  {
    var r := new Refcount(size);
    replies := [];
    ghost var m: map<nat, int> := map[];
    var i := 0;
    while i < |program|
      invariant i <= |program| && r.Valid() && fresh(r)
      invariant forall b: nat :: r.Value(b) == Default(m, b)
      invariant replies + Replies(m, program[i..]) == Replies(map[], program)
    {
      assert program[i..][1..] == program[i + 1..];
      var op := program[i];
      var reply := Perform(r, op, m);
      replies := replies + [reply];
      m := Effect(m, op);
      i := i + 1;
    }
    assert program[i..] == [];
  }

  method Perform(r: Refcount, op: Op, ghost m: map<nat, int>) returns (reply: Reply)
    requires r.Valid() && forall b: nat :: r.Value(b) == Default(m, b)
    modifies r
    ensures r.Valid() && reply == Answer(m, op)
    ensures forall b: nat :: r.Value(b) == Default(Effect(m, op), b)
  {
    var status, value := Success, 0;
    match op {
      case OpStore(b, c) => status := r.Store(b, c);
      case OpIncrement(b) => status, value := r.Increment(b);
      case OpDecrement(b) =>
        status, value := r.Decrement(b);
        if status == InvalidArgument { value := 0; }
      case OpFetch(b) => value := r.Fetch(b);
    }
    reply := Reply(status, value);
  }
}
