/**
 * Change files of the flashing tool: reading the log of a change file into
 * write operations and applying them to a device.
 */
module ChangeFile {
  import opened Words

  type Byte = x: int | 0 <= x < 256

  const FOOTER_SIZE: nat := 32
  const SMALL_FLAG: nat := 0x8000_0000_0000_0000
  const ZERO_FLAG: nat := 0x4000_0000_0000_0000

  datatype Option<T> = None | Some(value: T)

  datatype WriteOp = WriteOp(inDevice: nat, inFile: nat, size: int, zero: bool)

  // ----- fixed-width numbers -----

  function Little(s: seq<Byte>): nat {
    if s == [] then 0 else s[0] + 256 * Little(s[1..])
  }

  function Word(s: seq<Byte>, at: nat, n: nat): nat
    requires at + n <= |s|
  {
    Little(s[at..at + n])
  }

  // ----- log entries -----

  /** One entry of the log: where, and how much with two flags in the top bits. */
  datatype Entry = Entry(offset: nat, sizeWithFlags: nat) {
    predicate Small() { sizeWithFlags / SMALL_FLAG % 2 == 1 }
    predicate Zero() { !Small() && sizeWithFlags / ZERO_FLAG % 2 == 1 }
    /** The size meant, and the size kept in an int. */
    function Size(): nat { sizeWithFlags % ZERO_FLAG }
    function IntSize(): int { Signed32(Size()) }
    /** The size as an unsigned 32-bit number. */
    function UintSize(): nat { IntSize() % U32 }
  }

  function Entries(log: seq<Byte>): seq<Entry> {
    if |log| < 16 then [] else [Entry(Word(log, 0, 8), Word(log, 8, 8))] + Entries(log[16..])
  }

  lemma WordShift(log: seq<Byte>, at: nat, n: nat)
    requires 16 + at + n <= |log|
    ensures Word(log[16..], at, n) == Word(log, 16 + at, n)
  {
    assert log[16..][at..at + n] == log[16 + at..16 + at + n];
  }

  lemma {:induction false} EntriesAt(log: seq<Byte>, k: nat)
    requires 16 * (k + 1) <= |log|
    ensures |Entries(log)| > k && Entries(log)[k] == Entry(Word(log, 16 * k, 8), Word(log, 16 * k + 8, 8))
    decreases k
  {
    hide Little;
    if k > 0 {
      EntriesAt(log[16..], k - 1);
      WordShift(log, 16 * (k - 1), 8);
      WordShift(log, 16 * (k - 1) + 8, 8);
    }
  }

  lemma {:induction false} EntriesCount(log: seq<Byte>)
    ensures |Entries(log)| == |log| / 16
  {
    if |log| >= 16 { EntriesCount(log[16..]); }
  }

  /** The size is kept exactly when it is below 2^31. */
  lemma SizeKept(e: Entry)
    ensures e.IntSize() == e.Size() <==> e.Size() < U32 / 2
    ensures e.UintSize() == e.Size() % U32
  {
  }

  /** An entry of 2^32 + 1 bytes becomes an operation on one byte. */
  lemma SizeLost()
    ensures Entry(0, U32 + 1).Size() == U32 + 1 && Entry(0, U32 + 1).IntSize() == 1
  {
  }

  // ----- the operations of a log -----

  /** Bytes that the entries take from the block area, or from the small-write area. */
  function Taken(es: seq<Entry>, small: bool): nat {
    if es == [] then 0
    else
      var e := es[|es| - 1];
      Taken(es[..|es| - 1], small) + if e.Small() == small && !e.Zero() then e.UintSize() else 0
  }

  lemma TakenAdd(es: seq<Entry>, e: Entry, small: bool)
    ensures Taken(es + [e], small) == Taken(es, small) + if e.Small() == small && !e.Zero() then e.UintSize() else 0
  {
    assert (es + [e])[..|es|] == es;
  }

  /** The operation for entry `k`: payloads follow each other in their area, offsets wrap at 64 bits. */
  function OpOf(es: seq<Entry>, k: nat, smallBase: nat, partition: nat): WriteOp
    requires k < |es|
  {
    var e := es[k];
    WriteOp((e.offset + partition) % U64,
            if e.Zero() then 0 else if e.Small() then (smallBase + Taken(es[..k], true)) % U64 else Taken(es[..k], false) % U64,
            e.IntSize(), e.Zero())
  }

  predicate Bounded(op: WriteOp, deviceSize: nat, fileSize: nat) {
    && op.inDevice <= deviceSize && (op.inDevice + op.size % U32) % U64 <= deviceSize
    && (op.zero || (op.inFile <= fileSize && (op.inFile + op.size % U32) % U64 <= fileSize))
  }

  /** The log loop of the constructor: every entry becomes an operation, or the file is refused. */
  method ParseLog(log: seq<Byte>, smallBase: nat, partition: nat, deviceSize: nat, fileSize: nat)
    returns (ops: Option<seq<WriteOp>>)
    requires |log| % 16 == 0 && smallBase < U64
    ensures ops.Some? <==> forall k | 0 <= k < |Entries(log)| :: Bounded(OpOf(Entries(log), k, smallBase, partition), deviceSize, fileSize)
    ensures ops.Some? ==> |ops.value| == |Entries(log)|
    ensures ops.Some? ==> forall k | 0 <= k < |Entries(log)| :: ops.value[k] == OpOf(Entries(log), k, smallBase, partition)
  {
    hide OpOf, Bounded, Entries, Taken;
    ghost var es := Entries(log);
    EntriesCount(log);
    var list: seq<WriteOp> := [];
    var i, small, block := 0, smallBase, 0;
    LogBegins(es, smallBase);
    while i < |log|
      invariant 0 <= i <= |log| && i == 16 * |list| && |list| <= |es|
      invariant small == (smallBase + Taken(es[..|list|], true)) % U64 && block == Taken(es[..|list|], false) % U64
      invariant forall k | 0 <= k < |list| :: list[k] == OpOf(es, k, smallBase, partition)
      invariant forall k | 0 <= k < |list| :: Bounded(list[k], deviceSize, fileSize)
      decreases |log| - i
    {
      ghost var k := |list|;
      EntriesAt(log, k);
      var offset := Word(log, i, 8);
      var sizeWithFlags := Word(log, i + 8, 8);
      i := i + 16;
      var e := Entry(offset, sizeWithFlags);
      LogStep(es, k, smallBase, partition);
      var op;
      if e.Small() {
        op := WriteOp((offset + partition) % U64, small, e.IntSize(), false);
        small := (small + e.UintSize()) % U64;
      } else if e.Zero() {
        op := WriteOp((offset + partition) % U64, 0, e.IntSize(), true);
      } else {
        op := WriteOp((offset + partition) % U64, block, e.IntSize(), false);
        block := (block + e.UintSize()) % U64;
      }
      if !Bounded(op, deviceSize, fileSize) { return None; }
      list := list + [op];
    }
    ops := Some(list);
  }

  lemma LogBegins(es: seq<Entry>, smallBase: nat)
    requires smallBase < U64
    ensures (smallBase + Taken(es[..0], true)) % U64 == smallBase && Taken(es[..0], false) % U64 == 0
  {
  }

  lemma LogStep(es: seq<Entry>, k: nat, smallBase: nat, partition: nat)
    requires k < |es|
    ensures var e, small, block := es[k], (smallBase + Taken(es[..k], true)) % U64, Taken(es[..k], false) % U64;
      && OpOf(es, k, smallBase, partition) ==
         WriteOp((e.offset + partition) % U64, if e.Zero() then 0 else if e.Small() then small else block, e.IntSize(), e.Zero())
      && (smallBase + Taken(es[..k + 1], true)) % U64 == (if e.Small() then (small + e.UintSize()) % U64 else small)
      && Taken(es[..k + 1], false) % U64 == (if e.Small() || e.Zero() then block else (block + e.UintSize()) % U64)
  {
    hide Taken, Signed32;
    assert es[..k + 1] == es[..k] + [es[k]];
    TakenAdd(es[..k], es[k], true);
    TakenAdd(es[..k], es[k], false);
    WrapAdd(smallBase + Taken(es[..k], true), es[k].UintSize());
    WrapAdd(Taken(es[..k], false), es[k].UintSize());
  }

  lemma WrapAdd(a: nat, b: nat)
    ensures (a + b) % U64 == (a % U64 + b) % U64
  {
  }

  /** Of an accepted log no area offset has wrapped: payloads lie one behind the other, inside the file. */
  lemma {:induction false} AreasConsecutive(es: seq<Entry>, k: nat, smallBase: nat, partition: nat, deviceSize: nat, fileSize: nat)
    requires k <= |es| && smallBase < U64 && fileSize < U64 / 2
    requires forall j | 0 <= j < k :: Bounded(OpOf(es, j, smallBase, partition), deviceSize, fileSize)
    ensures Taken(es[..k], false) <= fileSize
    ensures Taken(es[..k], true) == 0 || smallBase + Taken(es[..k], true) <= fileSize
    ensures forall j | 0 <= j < k && !es[j].Zero() ::
      OpOf(es, j, smallBase, partition).inFile == AreaOffset(es, j, smallBase) &&
      AreaOffset(es, j, smallBase) + es[j].UintSize() <= fileSize
    decreases k
  {
    hide Taken, OpOf, Bounded, AreaOffset;
    if k == 0 {
      NothingTaken(es);
    } else {
      AreasConsecutive(es, k - 1, smallBase, partition, deviceSize, fileSize);
      AreaStep(es, k - 1, smallBase, partition, deviceSize, fileSize);
    }
  }

  lemma AreaStep(es: seq<Entry>, k: nat, smallBase: nat, partition: nat, deviceSize: nat, fileSize: nat)
    requires k < |es| && smallBase < U64 && fileSize < U64 / 2
    requires Bounded(OpOf(es, k, smallBase, partition), deviceSize, fileSize)
    requires Taken(es[..k], false) <= fileSize
    requires Taken(es[..k], true) == 0 || smallBase + Taken(es[..k], true) <= fileSize
    ensures Taken(es[..k + 1], false) <= fileSize
    ensures Taken(es[..k + 1], true) == 0 || smallBase + Taken(es[..k + 1], true) <= fileSize
    ensures !es[k].Zero() ==> OpOf(es, k, smallBase, partition).inFile == AreaOffset(es, k, smallBase)
    ensures !es[k].Zero() ==> AreaOffset(es, k, smallBase) + es[k].UintSize() <= fileSize
  {
    hide Taken, Bounded;
    assert es[..k + 1] == es[..k] + [es[k]];
    TakenAdd(es[..k], es[k], true);
    TakenAdd(es[..k], es[k], false);
    if !es[k].Zero() {
      Unwrapped(AreaOffset(es, k, smallBase));
      BoundedPlain(OpOf(es, k, smallBase, partition), deviceSize, fileSize);
    }
  }

  lemma Unwrapped(x: nat)
    requires x < U64
    ensures x % U64 == x
  {
  }

  lemma BoundedPlain(op: WriteOp, deviceSize: nat, fileSize: nat)
    requires Bounded(op, deviceSize, fileSize) && !op.zero && fileSize < U64 / 2
    ensures op.inFile + op.size % U32 <= fileSize
  {
    var u := op.size % U32;
    Unwrapped(op.inFile + u);
  }

  function AreaOffset(es: seq<Entry>, k: nat, smallBase: nat): nat
    requires k < |es|
  {
    if es[k].Small() then smallBase + Taken(es[..k], true) else Taken(es[..k], false)
  }

  lemma NothingTaken(es: seq<Entry>)
    ensures Taken(es[..0], true) == 0 && Taken(es[..0], false) == 0
  {
  }

  // ----- the footer -----

  const SIGNATURE: seq<Byte> := [88, 88, 67, 72, 65, 78, 71, 69, 70, 73, 76, 69, 118, 49, 48, 0]

  datatype Footer = Footer(signature: seq<Byte>, logOffset: int, logSize: int, smallSize: int)

  function ReadFooter(file: seq<Byte>): Footer
    requires |file| >= FOOTER_SIZE
  {
    var f := file[|file| - FOOTER_SIZE..];
    Footer(f[..16], Signed64(Word(f, 16, 8)), Signed32(Word(f, 24, 4)), Signed32(Word(f, 28, 4)))
  }

  /** Where the log is looked for: int arithmetic, then a seek from the end. */
  function LogPosition(file: seq<Byte>, f: Footer): int { |file| + Signed32(0 - FOOTER_SIZE - f.logSize - f.smallSize) }

  predicate GoodFooter(file: seq<Byte>) {
    |file| >= FOOTER_SIZE &&
    var f := ReadFooter(file);
    && f.signature == SIGNATURE && f.logSize >= 0 && f.logSize % 16 == 0
    && 0 <= LogPosition(file, f) == f.logOffset && f.logOffset + f.logSize <= |file|
  }

  function LogOf(file: seq<Byte>): seq<Byte>
    requires GoodFooter(file)
  {
    var f := ReadFooter(file);
    file[f.logOffset..f.logOffset + f.logSize]
  }

  function SmallBase(file: seq<Byte>): nat
    requires GoodFooter(file)
  {
    (|file| - FOOTER_SIZE - ReadFooter(file).smallSize) % U64
  }

  /** An accepted operation of a size that is not negative stays inside the device and the file. */
  lemma AcceptedFits(es: seq<Entry>, k: nat, smallBase: nat, partition: nat, deviceSize: nat, fileSize: nat)
    requires k < |es| && deviceSize < U64 / 2 && fileSize < U64 / 2
    requires Bounded(OpOf(es, k, smallBase, partition), deviceSize, fileSize) && OpOf(es, k, smallBase, partition).size >= 0
    ensures Fits(OpOf(es, k, smallBase, partition), deviceSize, fileSize)
  {
    hide Taken;
    assert OpOf(es, k, smallBase, partition).size % U32 == OpOf(es, k, smallBase, partition).size;
  }

  /** The constructor: the operations of a good file, or an exception. */
  method Open(file: seq<Byte>, partition: nat, deviceSize: nat) returns (ops: Option<seq<WriteOp>>)
    requires |file| < U64 / 2
    ensures !GoodFooter(file) ==> ops.None?
    ensures GoodFooter(file) ==>
      var es, base := Entries(LogOf(file)), SmallBase(file);
      && (ops.Some? <==> forall k | 0 <= k < |es| :: Bounded(OpOf(es, k, base, partition), deviceSize, |file|))
      && (ops.Some? ==> |ops.value| == |es| && forall k | 0 <= k < |es| :: ops.value[k] == OpOf(es, k, base, partition))
    ensures ops.Some? && deviceSize < U64 / 2 ==>
      forall k | 0 <= k < |ops.value| && ops.value[k].size >= 0 :: Fits(ops.value[k], deviceSize, |file|)
  {
    hide OpOf, Entries, Bounded, Fits, SIGNATURE;
    if |file| < FOOTER_SIZE { return None; }
    var f := ReadFooter(file);
    if f.signature != SIGNATURE { return None; }
    var small := (|file| - FOOTER_SIZE - f.smallSize) % U64;
    if f.logSize < 0 { return None; }
    var position := LogPosition(file, f);
    if position < 0 { return None; }
    if position != f.logOffset { return None; }
    if position + f.logSize > |file| { return None; }
    if f.logSize % 16 != 0 { return None; }
    assert GoodFooter(file) && LogOf(file) == file[position..position + f.logSize] && SmallBase(file) == small;
    ops := ParseLog(file[position..position + f.logSize], small, partition, deviceSize, |file|);
    ghost var es := Entries(LogOf(file));
    if ops.Some? && deviceSize < U64 / 2 {
      forall k | 0 <= k < |ops.value| && ops.value[k].size >= 0
        ensures Fits(ops.value[k], deviceSize, |file|)
      {
        AcceptedFits(es, k, small, partition, deviceSize, |file|);
      }
    }
  }

  // ----- applying the operations -----

  ghost predicate Fits(op: WriteOp, deviceSize: nat, fileSize: nat) {
    op.size >= 0 && op.inDevice + op.size <= deviceSize && (op.zero || op.inFile + op.size <= fileSize)
  }

  predicate Covers(op: WriteOp, b: nat) { op.inDevice <= b < op.inDevice + op.size }

  /** The last operation that writes this byte, or -1. */
  function LastCover(ops: seq<WriteOp>, b: nat): (k: int)
    ensures -1 <= k < |ops|
    ensures k >= 0 ==> Covers(ops[k], b)
    ensures forall j | k < j < |ops| :: !Covers(ops[j], b)
  {
    if ops == [] then -1
    else if Covers(ops[|ops| - 1], b) then |ops| - 1
    else LastCover(ops[..|ops| - 1], b)
  }

  /** What the byte is after the operations. */
  function Expected(was: seq<Byte>, file: seq<Byte>, ops: seq<WriteOp>, b: nat): Byte
    requires b < |was| && forall k | 0 <= k < |ops| :: Fits(ops[k], |was|, |file|)
  {
    var k := LastCover(ops, b);
    assert k >= 0 ==> Fits(ops[k], |was|, |file|);
    if k == -1 then was[b] else if ops[k].zero then 0 else file[ops[k].inFile + (b - ops[k].inDevice)]
  }

  lemma ExpectedStep(was: seq<Byte>, file: seq<Byte>, ops: seq<WriteOp>, op: WriteOp, b: nat)
    requires b < |was| && Fits(op, |was|, |file|) && forall k | 0 <= k < |ops| :: Fits(ops[k], |was|, |file|)
    ensures Expected(was, file, ops + [op], b) ==
      if !Covers(op, b) then Expected(was, file, ops, b) else if op.zero then 0 else file[op.inFile + (b - op.inDevice)]
  {
    assert (ops + [op])[..|ops|] == ops;
  }

  /** Fills the buffer with the bytes of one operation; what is behind them is left from before. */
  method Fill(tmp: array<Byte>, file: seq<Byte>, op: WriteOp)
    requires op.size >= 0 && tmp.Length >= op.size && (op.zero || op.inFile + op.size <= |file|)
    modifies tmp
    ensures forall i | 0 <= i < op.size :: tmp[i] == if op.zero then 0 else file[op.inFile + i]
  {
    for i := 0 to op.size
      invariant forall j | 0 <= j < i :: tmp[j] == if op.zero then 0 else file[op.inFile + j]
    {
      tmp[i] := if op.zero then 0 else file[op.inFile + i];
    }
  }

  method WriteAt(dev: array<Byte>, at: nat, tmp: array<Byte>, size: nat)
    requires at + size <= dev.Length && size <= tmp.Length && dev != tmp
    modifies dev
    ensures forall b | 0 <= b < dev.Length :: dev[b] == if at <= b < at + size then tmp[b - at] else old(dev[b])
  {
    for i := 0 to size
      invariant forall b | 0 <= b < dev.Length :: dev[b] == if at <= b < at + i then tmp[b - at] else old(dev[b])
    {
      dev[at + i] := tmp[i];
    }
  }

  /**
   * How the replay ends. An operation whose size has become negative throws
   * when its buffer is allocated or its payload is read; a zero operation in a
   * buffer left from before hands the device a count beyond that buffer, and
   * what is written then is not defined.
   */
  datatype Outcome = Done | Threw(at: nat) | Overrun(at: nat)

  /** The first operation of negative size, or their number. */
  function Sound(ops: seq<WriteOp>): (n: nat)
    ensures n <= |ops| && (forall k | 0 <= k < n :: ops[k].size >= 0) && (n < |ops| ==> ops[n].size < 0)
  {
    if ops == [] then 0
    else
      var n := Sound(ops[..|ops| - 1]);
      if n < |ops| - 1 then n else if ops[|ops| - 1].size < 0 then |ops| - 1 else |ops|
  }

  /** Every byte of the device ends as the last operation that covers it says, and the others stay. */
  method Apply(file: seq<Byte>, ops: seq<WriteOp>, dev: array<Byte>) returns (outcome: Outcome)
    requires forall k | 0 <= k < |ops| :: ops[k].size < 0 || Fits(ops[k], dev.Length, |file|)
    modifies dev
    ensures var n := Sound(ops);
      outcome == if n == |ops| then Done else if n > 0 && ops[n].zero then Overrun(n) else Threw(n)
    ensures !outcome.Overrun? ==>
      forall b | 0 <= b < dev.Length :: dev[b] == Expected(old(dev[..]), file, ops[..Sound(ops)], b)
  {
    hide Expected, Sound;
    var tmp: array?<Byte> := null;
    ghost var was := dev[..];
    NothingDone(was, file, ops);
    for k := 0 to |ops|
      invariant tmp != null ==> tmp != dev && fresh(tmp)
      invariant tmp == null <==> k == 0
      invariant k <= Sound(ops)
      invariant forall b | 0 <= b < dev.Length :: dev[b] == Expected(was, file, ops[..k], b)
    {
      var chg := ops[k];
      if tmp == null || tmp.Length < chg.size {
        if chg.size < 0 { return Threw(k); }
        tmp := new Byte[chg.size];
      }
      if chg.size < 0 { return if chg.zero then Overrun(k) else Threw(k); }
      Fill(tmp, file, chg);
      WriteAt(dev, chg.inDevice, tmp, chg.size);
      assert ops[..k + 1] == ops[..k] + [chg];
      forall b | 0 <= b < dev.Length
        ensures dev[b] == Expected(was, file, ops[..k + 1], b)
      {
        ExpectedStep(was, file, ops[..k], chg, b);
      }
    }
    assert ops[..|ops|] == ops;
    outcome := Done;
  }

  lemma NothingDone(was: seq<Byte>, file: seq<Byte>, ops: seq<WriteOp>)
    ensures forall b | 0 <= b < |was| :: was[b] == Expected(was, file, ops[..0], b)
  {
  }

  // ----- from log entries to device bytes -----

  /** Sizes and device offsets mean what they say. */
  ghost predicate Uncut(es: seq<Entry>, partition: nat) {
    forall k | 0 <= k < |es| :: es[k].Size() < U32 / 2 && es[k].offset + partition < U64
  }

  predicate EntryCovers(e: Entry, partition: nat, b: nat) {
    e.offset + partition <= b < e.offset + partition + e.Size()
  }

  /** The byte is that of the last entry covering it, from the entry's own part of the file. */
  ghost predicate Replayed(was: seq<Byte>, file: seq<Byte>, es: seq<Entry>, base: nat, partition: nat, b: nat, v: Byte)
    requires b < |was|
  {
    && ((forall k | 0 <= k < |es| :: !EntryCovers(es[k], partition, b)) ==> v == was[b])
    && (forall k | 0 <= k < |es| && EntryCovers(es[k], partition, b) &&
          (forall j | k < j < |es| :: !EntryCovers(es[j], partition, b)) :: v == Payload(file, es, k, base, partition, b))
  }

  function Payload(file: seq<Byte>, es: seq<Entry>, k: nat, base: nat, partition: nat, b: nat): Byte
    requires k < |es| && EntryCovers(es[k], partition, b)
  {
    var at := AreaOffset(es, k, base) + (b - (es[k].offset + partition));
    if es[k].Zero() then 0 else if at < |file| then file[at] else 0
  }

  lemma OpCovers(es: seq<Entry>, k: nat, base: nat, partition: nat, b: nat)
    requires Uncut(es, partition) && k < |es|
    ensures OpOf(es, k, base, partition).size == es[k].Size() && OpOf(es, k, base, partition).inDevice == es[k].offset + partition
    ensures Covers(OpOf(es, k, base, partition), b) <==> EntryCovers(es[k], partition, b)
  {
    hide Taken, Signed32;
    SizeKept(es[k]);
    Unwrapped(es[k].offset + partition);
  }

  lemma ExpectedReplays(was: seq<Byte>, file: seq<Byte>, es: seq<Entry>, base: nat, partition: nat, ops: seq<WriteOp>, b: nat)
    requires Uncut(es, partition) && base < U64 && |file| < U64 / 2 && b < |was|
    requires |ops| == |es| && forall k | 0 <= k < |es| :: ops[k] == OpOf(es, k, base, partition)
    requires forall k | 0 <= k < |es| :: Bounded(ops[k], |was|, |file|) && Fits(ops[k], |was|, |file|)
    ensures Replayed(was, file, es, base, partition, b, Expected(was, file, ops, b))
  {
    hide OpOf, Bounded, AreaOffset, EntryCovers, Covers, Uncut;
    var k := LastCover(ops, b);
    forall j | 0 <= j < |es|
      ensures Covers(ops[j], b) <==> EntryCovers(es[j], partition, b)
    {
      OpCovers(es, j, base, partition, b);
    }
    if k >= 0 {
      OpCovers(es, k, base, partition, b);
      AreasConsecutive(es, |es|, base, partition, |was|, |file|);
      PayloadRead(was, file, es, base, partition, ops[k], k, b);
    }
  }

  lemma PayloadRead(was: seq<Byte>, file: seq<Byte>, es: seq<Entry>, base: nat, partition: nat, op: WriteOp, k: nat, b: nat)
    requires k < |es| && op == OpOf(es, k, base, partition) && EntryCovers(es[k], partition, b) && Covers(op, b)
    requires op.inDevice == es[k].offset + partition && Fits(op, |was|, |file|)
    requires !es[k].Zero() ==> op.inFile == AreaOffset(es, k, base)
    ensures Payload(file, es, k, base, partition, b) == if op.zero then 0 else file[op.inFile + (b - op.inDevice)]
  {
    hide Taken, Signed32;
  }

  /** Opening a change file and applying it. */
  method Replay(file: seq<Byte>, partition: nat, dev: array<Byte>) returns (accepted: bool, outcome: Outcome)
    requires |file| < U64 / 2 && dev.Length < U64 / 2
    modifies dev
    ensures !accepted ==> dev[..] == old(dev[..])
    ensures accepted <==> GoodFooter(file) && forall k | 0 <= k < |Entries(LogOf(file))| ::
      Bounded(OpOf(Entries(LogOf(file)), k, SmallBase(file), partition), dev.Length, |file|)
    ensures accepted && Uncut(Entries(LogOf(file)), partition) ==> outcome == Done
    ensures accepted && Uncut(Entries(LogOf(file)), partition) ==>
      forall b | 0 <= b < dev.Length ::
        Replayed(old(dev[..]), file, Entries(LogOf(file)), SmallBase(file), partition, b, dev[b])
  {
    hide OpOf, Bounded, Fits, Entries, Expected, Replayed, Sound, Uncut, GoodFooter;
    outcome := Done;
    ghost var was := dev[..];
    var ops := Open(file, partition, dev.Length);
    accepted := ops.Some?;
    if !accepted { return; }
    outcome := Apply(file, ops.value, dev);
    ghost var es, base := Entries(LogOf(file)), SmallBase(file);
    if Uncut(es, partition) {
      forall k | 0 <= k < |es|
        ensures ops.value[k].size >= 0
      {
        OpCovers(es, k, base, partition, 0);
      }
      assert ops.value[..|ops.value|] == ops.value;
      forall b | 0 <= b < dev.Length
        ensures Replayed(was, file, es, base, partition, b, dev[b])
      {
        ExpectedReplays(was, file, es, base, partition, ops.value, b);
      }
    }
  }
}
