/** Bounded host memory (src/hostmem.c): byte blocks whose every access is checked in 64-bit arithmetic. */
module HostMemory {
  import opened Common
  import opened DataHandling

  /** The boundary check (hostmem.c:191, 205, 222, 224, 280, 294). */
  predicate Passes(offset: nat, n: nat, size: nat) {
    !(offset >= size || n > Wrap64(size - offset))
  }

  /** It accepts exactly the ranges that lie inside the block, counted without wrap-around. */
  lemma BoundsExact(offset: nat, n: nat, size: nat)
    requires size < WORD_LIMIT
    ensures Passes(offset, n, size) <==> offset < size && offset + n <= size
  {
  }

  /** One access that changes a block: `data` is meant for the bytes from `at` on. */
  datatype Patch = Patch(at: nat, data: seq<byte>)

  predicate Fits(s: seq<byte>, p: Patch) {
    p.at < |s| && p.at + |p.data| <= |s|
  }

  function Effect(s: seq<byte>, p: Patch): seq<byte> {
    if Fits(s, p) then Overwritten(s, p.at, p.data) else s
  }

  // ---------- runs over several blocks ----------

  /** A request to one of a sequence of blocks, with Lua integers for offsets and sizes. */
  datatype Op =
    | WriteOp(block: nat, offset: int, data: seq<byte>)
    | PackOp(block: nat, offset: int, prim: Prim, items: seq<Value>)
    | ClearOp(block: nat, offset: int, size: int, c: byte)
    | CopyOp(block: nat, offset: int, size: int, src: nat, from: int)

  /** The contents of all blocks. */
  type Memory = seq<seq<byte>>

  predicate Names(n: nat, op: Op) {
    op.block < n && (op.CopyOp? ==> op.src < n)
  }

  function Bytes(op: Op): nat {
    match op
    case WriteOp(_, _, data) => |data|
    case PackOp(_, _, t, items) => |Packed(Stored(items), t)|
    case ClearOp(_, _, size, _) => Wrap64(size)
    case CopyOp(_, _, size, _, _) => Wrap64(size)
  }

  /** The request changes something, or may: this depends on the sizes of the blocks only. */
  predicate Granted(s: Memory, op: Op)
    requires Names(|s|, op)
  {
    var at, size := Wrap64(op.offset), |s[op.block]|;
    && at < size && at + (if op.PackOp? then Size(|op.items|, op.prim) else Bytes(op)) <= size
    && (op.CopyOp? ==>
      op.src != op.block && Wrap64(op.from) < |s[op.src]| && Wrap64(op.from) + Bytes(op) <= |s[op.src]|)
  }

  /** The bytes that a granted request puts at its offset; those of a copy are read from its source now. */
  function Payload(s: Memory, op: Op): (b: seq<byte>)
    requires Names(|s|, op) && Granted(s, op)
    ensures |b| == Bytes(op)
  {
    match op
    case WriteOp(_, _, data) => data
    case PackOp(_, _, t, items) => Packed(Stored(items), t)
    case ClearOp(_, _, size, c) => seq(Wrap64(size), _ => c)
    case CopyOp(_, _, size, src, from) => s[src][Wrap64(from)..Wrap64(from) + Wrap64(size)]
  }

  function Step(s: Memory, op: Op): Memory
    requires Names(|s|, op)
  {
    if Granted(s, op) then s[op.block := Effect(s[op.block], Patch(Wrap64(op.offset), Payload(s, op)))] else s
  }

  /** The requests are to these blocks. */
  predicate AllNames(n: nat, ops: seq<Op>) {
    forall op <- ops :: Names(n, op)
  }

  function Run(s: Memory, ops: seq<Op>): (r: Memory)
    requires AllNames(|s|, ops)
    ensures |r| == |s|
  {
    if ops == [] then s else Step(Run(s, ops[..|ops| - 1]), ops[|ops| - 1])
  }

  predicate SameSizes(s: Memory, r: Memory) {
    |r| == |s| && forall i :: 0 <= i < |s| ==> |r[i]| == |s[i]|
  }

  lemma {:induction false} RunKeepsSizes(s: Memory, ops: seq<Op>)
    requires AllNames(|s|, ops)
    ensures SameSizes(s, Run(s, ops))
  {
    if ops != [] {
      RunKeepsSizes(s, ops[..|ops| - 1]);
    }
  }

  /** The request is granted and reaches byte `k` of block `b`. */
  predicate Reaches(s: Memory, op: Op, b: nat, k: nat)
    requires Names(|s|, op)
  {
    Granted(s, op) && op.block == b && Wrap64(op.offset) <= k < Wrap64(op.offset) + Bytes(op)
  }

  /** The request, made in the state `s`, puts `v` at byte `k` of block `b`. */
  predicate Put(s: Memory, op: Op, b: nat, k: nat, v: byte)
    requires Names(|s|, op)
  {
    Reaches(s, op, b, k) && v == Payload(s, op)[k - Wrap64(op.offset)]
  }

  /** Number `i` is the last request of a run that reaches byte `k` of block `b`; -1 stands for none. */
  ghost predicate IsLast(s: Memory, ops: seq<Op>, b: nat, k: nat, i: int)
    requires AllNames(|s|, ops)
  {
    && -1 <= i < |ops| && (i >= 0 ==> Reaches(s, ops[i], b, k))
    && forall j :: i < j < |ops| ==> !Reaches(s, ops[j], b, k)
  }

  lemma GrantedBySizes(s: Memory, r: Memory, op: Op)
    requires SameSizes(s, r) && Names(|s|, op)
    ensures Granted(s, op) == Granted(r, op)
  {
  }

  lemma StepByte(s: Memory, op: Op, b: nat, k: nat)
    requires Names(|s|, op) && b < |s| && k < |s[b]|
    ensures SameSizes(s, Step(s, op))
    ensures if Reaches(s, op, b, k) then Put(s, op, b, k, Step(s, op)[b][k]) else Step(s, op)[b][k] == s[b][k]
  {
    PackedFits(op);
    hide Packed, Stored, Size, Effect;
    if Granted(s, op) {
      var p := Patch(Wrap64(op.offset), Payload(s, op));
      EffectBytes(s[op.block], p);
    }
  }

  lemma EffectBytes(s: seq<byte>, p: Patch)
    requires Fits(s, p)
    ensures |Effect(s, p)| == |s|
    ensures forall k :: 0 <= k < |s| ==>
      Effect(s, p)[k] == if p.at <= k < p.at + |p.data| then p.data[k - p.at] else s[k]
  {
  }

  lemma PackedFits(op: Op)
    ensures op.PackOp? ==> Bytes(op) <= Size(|op.items|, op.prim)
  {
    if op.PackOp? {
      StoredFits(op.items, op.prim);
    }
  }

  lemma ReachesBySizes(s: Memory, r: Memory, op: Op, b: nat, k: nat)
    requires SameSizes(s, r) && Names(|s|, op)
    ensures |r| == |s| && (b < |s| ==> |r[b]| == |s[b]|) && Reaches(s, op, b, k) == Reaches(r, op, b, k)
  {
    GrantedBySizes(s, r, op);
  }

  lemma LastReaches(s: Memory, ops: seq<Op>, b: nat, k: nat, i: int)
    requires AllNames(|s|, ops) && ops != [] && IsLast(s, ops, b, k, i)
    ensures var n := |ops| - 1;
      && AllNames(|s|, ops[..n]) && (i == n ==> Reaches(s, ops[n], b, k)) && -1 <= i <= n
      && (i < n ==> !Reaches(s, ops[n], b, k) && IsLast(s, ops[..n], b, k, i) && (i >= 0 ==> ops[..n][i] == ops[i]))
  {
    hide Reaches;
    assert forall j :: 0 <= j < |ops| - 1 ==> ops[..|ops| - 1][j] == ops[j];
  }

  /** Over any run of writes, clears and copies on blocks that do not share memory, every byte of every block
      holds what the last request that reached it put there, as read at that point of the run, or what it held
      at first. */
  lemma {:induction false} LastAccessWins(s: Memory, ops: seq<Op>, b: nat, k: nat, i: int)
    requires AllNames(|s|, ops) && b < |s| && k < |s[b]| && IsLast(s, ops, b, k, i)
    ensures SameSizes(s, Run(s, ops)) && (i >= 0 ==> AllNames(|s|, ops[..i]))
    ensures if i < 0 then Run(s, ops)[b][k] == s[b][k] else Put(Run(s, ops[..i]), ops[i], b, k, Run(s, ops)[b][k])
  {
    RunKeepsSizes(s, ops);
    if ops != [] {
      var n := |ops| - 1;
      var before, op := Run(s, ops[..n]), ops[n];
      LastReaches(s, ops, b, k, i);
      RunKeepsSizes(s, ops[..n]);
      ReachesBySizes(s, before, op, b, k);
      StepByte(before, op, b, k);
      hide Put, Step, SameSizes, Reaches, IsLast, AllNames;
      if i < n {
        LastAccessWins(s, ops[..n], b, k, i);
        assert i >= 0 ==> ops[..n][..i] == ops[..i];
      }
    }
  }

  datatype Access<+T> = Done(value: T) | Boundaries | BadArgument | Data(error: Result<()>)

  /** hostmem_t (hostmem.c:39-73): `size` is the block's length. */
  class Block {
    const ptr: array<byte>

    ghost predicate Valid() {
      0 < ptr.Length < WORD_LIMIT
    }

    constructor (size: nat)
      requires 0 < size < WORD_LIMIT
      ensures Valid() && ptr.Length == size && fresh(ptr) && forall k :: 0 <= k < size ==> ptr[k] == 0
    {
      ptr := new byte[size](_ => 0);
    }

    /** WriteData (hostmem.c:182-195). Writing nothing succeeds at any offset. */
    method WriteData(offset0: int, data: seq<byte>) returns (r: Access<()>)
      requires Valid() && |data| < WORD_LIMIT
      modifies ptr
      ensures var offset := Wrap64(offset0);
        var ok := offset < ptr.Length && offset + |data| <= ptr.Length;
        && r == (if data == [] || ok then Done(()) else Boundaries)
        && ptr[..] == if ok then Overwritten(old(ptr[..]), offset, data) else old(ptr[..])
    {
      var offset, size := Wrap64(offset0), |data|;
      BoundsExact(offset, size, ptr.Length);
      if size == 0 {
        return Done(());
      }
      if offset >= ptr.Length || size > Wrap64(ptr.Length - offset) {
        return Boundaries;
      }
      Store(ptr, offset, data);
      r := Done(());
    }

    /** CopyHostmem (hostmem.c:211-228) from a block elsewhere in memory. */
    method CopyHostmem(offset0: int, size0: int, src: Block, srcoffset0: int) returns (r: Access<()>)
      requires Valid() && src.Valid() && (src != this ==> src.ptr != ptr)
      modifies ptr
      ensures src == this ==> r == BadArgument && ptr[..] == old(ptr[..])
      ensures src != this ==>
        var offset, size, from := Wrap64(offset0), Wrap64(size0), Wrap64(srcoffset0);
        var ok := offset < ptr.Length && offset + size <= ptr.Length
          && from < src.ptr.Length && from + size <= src.ptr.Length;
        && r == (if size == 0 || ok then Done(()) else Boundaries)
        && ptr[..] == if ok then Overwritten(old(ptr[..]), offset, src.ptr[from..from + size]) else old(ptr[..])
    {
      var offset, size, srcoffset := Wrap64(offset0), Wrap64(size0), Wrap64(srcoffset0);
      BoundsExact(offset, size, ptr.Length);
      BoundsExact(srcoffset, size, src.ptr.Length);
      if src == this {
        return BadArgument;
      }
      if size == 0 {
        return Done(());
      }
      if offset >= ptr.Length || size > Wrap64(ptr.Length - offset) {
        return Boundaries;
      }
      if srcoffset >= src.ptr.Length || size > Wrap64(src.ptr.Length - srcoffset) {
        return Boundaries;
      }
      Store(ptr, offset, src.ptr[srcoffset..srcoffset + size]);
      r := Done(());
    }

    /** Clear (hostmem.c:259-286) */
    method Clear(offset0: int, size0: int, c: byte) returns (r: Access<()>)
      requires Valid()
      modifies ptr
      ensures var offset, size := Wrap64(offset0), Wrap64(size0);
        var ok := offset < ptr.Length && offset + size <= ptr.Length;
        && r == (if ok then Done(()) else Boundaries)
        && ptr[..] == if ok then Overwritten(old(ptr[..]), offset, seq(size, _ => c)) else old(ptr[..])
    {
      var offset, size := Wrap64(offset0), Wrap64(size0);
      BoundsExact(offset, size, ptr.Length);
      if offset >= ptr.Length || size > Wrap64(ptr.Length - offset) {
        return Boundaries;
      }
      if size == 0 {
        return Done(());
      }
      Store(ptr, offset, seq(size, _ => c));
      r := Done(());
    }

    /** WritePack (hostmem.c:231-241) of a list of elements that is already flat. */
    method WritePack(offset0: int, t: Prim, items: seq<Value>) returns (r: Access<()>)
      requires Valid()
      modifies ptr
      ensures var offset, b := Wrap64(offset0), Packed(Stored(items), t);
        if offset >= ptr.Length then r == Boundaries && ptr[..] == old(ptr[..])
        else if offset + Size(|items|, t) > ptr.Length then r == Data(LengthError) && ptr[..] == old(ptr[..])
        else && r == (if Integers(items) == |items| then Done(()) else Data(TypeError(Integers(items) + 1)))
             && offset + |b| <= ptr.Length && ptr[..] == Overwritten(old(ptr[..]), offset, b)
    {
      var offset := Wrap64(offset0);
      var size := Wrap64(ptr.Length - offset);
      if offset >= ptr.Length {
        return Boundaries;
      }
      var err := Pack(ptr, offset, size, t, items);
      r := if err.Ok? then Done(()) else Data(err);
    }

    /** Read (hostmem.c:288-308) without a type: the bytes as a string. */
    method Read(offset0: int, size0: int) returns (r: Access<seq<byte>>)
      requires Valid()
      ensures var offset, size := Wrap64(offset0), Wrap64(size0);
        r == if offset < ptr.Length && offset + size <= ptr.Length then Done(ptr[offset..offset + size]) else Boundaries
    {
      var offset, size := Wrap64(offset0), Wrap64(size0);
      BoundsExact(offset, size, ptr.Length);
      if offset >= ptr.Length || size > Wrap64(ptr.Length - offset) {
        return Boundaries;
      }
      r := Done(ptr[offset..offset + size]);
    }

    /** Read with a type (hostmem.c:296-302); a size that is not whole is the data error. */
    method ReadAs(offset0: int, size0: int, t: Prim) returns (r: Access<seq<int>>)
      requires Valid()
      ensures var offset, size := Wrap64(offset0), Wrap64(size0);
        r == if !(offset < ptr.Length && offset + size <= ptr.Length) then Boundaries
             else if !Whole(ptr[offset..offset + size], t) then Data(LengthError)
             else Done(Unpacked(ptr[offset..offset + size], t))
      ensures r.Done? ==> forall x <- r.value :: InRange(x, t)
    {
      var offset, size := Wrap64(offset0), Wrap64(size0);
      BoundsExact(offset, size, ptr.Length);
      if offset >= ptr.Length || size > Wrap64(ptr.Length - offset) {
        return Boundaries;
      }
      if size == 0 {
        return Done([]);
      }
      var data := ptr[offset..offset + size];
      var xs := Unpack(data, t);
      ShortIsPartial(data, t);
      r := if xs.Ok? then Done(xs.value) else Data(LengthError);
    }

    /** A typed write followed by a typed read of as many bytes from the same offset gives the integers, reduced
        to the type's width; the bytes around them are as before. */
    method WriteThenRead(offset0: int, t: Prim, items: seq<Value>) returns (w: Access<()>, r: Access<seq<int>>)
      requires Valid()
      modifies ptr
      ensures var at, n := Wrap64(offset0), Size(|items|, t);
        && (w.Done? <==> at < ptr.Length && at + n <= ptr.Length && Integers(items) == |items|)
        && (w.Done? ==> r == Done(AllReduced(Stored(items), t)))
        && (w.Done? ==> forall k | 0 <= k < ptr.Length && !(at <= k < at + n) :: ptr[k] == old(ptr[k]))
    {
      hide Packed, Unpacked, Stored, AllReduced, Overwritten, Size, SizeOf, Whole;
      w := WritePack(offset0, t, items);
      r := ReadAs(offset0, Size(|items|, t), t);
      if w.Done? {
        WrittenReads(old(ptr[..]), ptr[..], Wrap64(offset0), items, t);
      }
    }
  }

  lemma WrittenReads(s: seq<byte>, s': seq<byte>, at: nat, items: seq<Value>, t: Prim)
    requires Integers(items) == |items| && at < |s| && at + Size(|items|, t) <= |s|
    requires s' == Effect(s, Patch(at, Packed(Stored(items), t)))
    ensures var n := Size(|items|, t);
      && Whole(s'[at..at + n], t) && Unpacked(s'[at..at + n], t) == AllReduced(Stored(items), t)
      && forall k :: 0 <= k < |s| && !(at <= k < at + n) ==> s'[k] == s[k]
  {
    var xs, b := Stored(items), Packed(Stored(items), t);
    PackedLength(xs, t);
    StoredFits(items, t);
    PackedWhole(xs, t);
    UnpackPacked(xs, t);
    hide Packed, Unpacked, Stored, AllReduced;
    assert s'[at..at + |b|] == b;
  }

  // ---------- the blocks together ----------

  /** Different blocks, which share no memory. */
  ghost predicate Apart(blocks: seq<Block>) {
    && (forall x <- blocks :: x.Valid())
    && forall i, j :: 0 <= i < j < |blocks| ==> blocks[i] != blocks[j] && blocks[i].ptr != blocks[j].ptr
  }

  ghost function ContentsOf(blocks: seq<Block>): (s: Memory)
    reads set x <- blocks :: x.ptr
    ensures |s| == |blocks| && forall i :: 0 <= i < |s| ==> s[i] == blocks[i].ptr[..]
  {
    if blocks == [] then [] else
    var n := |blocks| - 1;
    ContentsOf(blocks[..n]) + [blocks[n].ptr[..]]
  }

  /** One request, made by the method it stands for. */
  method Perform(blocks: seq<Block>, op: Op)
    requires Apart(blocks) && Names(|blocks|, op) && (op.WriteOp? ==> |op.data| < WORD_LIMIT)
    modifies set x <- blocks :: x.ptr
    ensures ContentsOf(blocks) == Step(old(ContentsOf(blocks)), op)
  {
    hide ContentsOf, Packed, Stored, Size, Effect, Step, Overwritten, Payload;
    PackedFits(op);
    var target := blocks[op.block];
    ghost var s := ContentsOf(blocks);
    StepEffect(s, op);
    match op {
      case WriteOp(_, offset, data) =>
        var _ := target.WriteData(offset, data);
      case PackOp(_, offset, t, items) =>
        var _ := target.WritePack(offset, t, items);
      case ClearOp(_, offset, size, c) =>
        var _ := target.Clear(offset, size, c);
      case CopyOp(_, offset, size, src, from) =>
        var _ := target.CopyHostmem(offset, size, blocks[src], from);
    }
    StepIs(s, ContentsOf(blocks), op);
  }

  /** What a granted request puts, case by case. */
  lemma StepEffect(s: Memory, op: Op)
    requires Names(|s|, op)
    ensures Granted(s, op) ==>
      var at, b := Wrap64(op.offset), Payload(s, op);
      && at + |b| <= |s[op.block]|
      && Effect(s[op.block], Patch(at, b)) == Overwritten(s[op.block], at, b)
      && match op
         case WriteOp(_, _, data) => b == data
         case PackOp(_, _, t, items) => b == Packed(Stored(items), t)
         case ClearOp(_, _, size, c) => b == seq(Wrap64(size), _ => c)
         case CopyOp(_, _, size, src, from) => b == s[src][Wrap64(from)..Wrap64(from) + Wrap64(size)]
  {
    hide Packed, Stored, Size, Overwritten;
    PackedFits(op);
  }

  lemma StepIs(s: Memory, r: Memory, op: Op)
    requires Names(|s|, op) && |r| == |s| && forall i :: 0 <= i < |s| && i != op.block ==> r[i] == s[i]
    requires r[op.block] ==
      if Granted(s, op) then Effect(s[op.block], Patch(Wrap64(op.offset), Payload(s, op))) else s[op.block]
    ensures r == Step(s, op)
  {
    hide Granted, Payload, Effect;
  }

  /** A script of requests leaves every block as `Run` says, to which `LastAccessWins` applies. */
  method PerformAll(blocks: seq<Block>, ops: seq<Op>)
    requires Apart(blocks) && AllNames(|blocks|, ops)
    requires forall op <- ops :: op.WriteOp? ==> |op.data| < WORD_LIMIT
    modifies set x <- blocks :: x.ptr
    ensures ContentsOf(blocks) == Run(old(ContentsOf(blocks)), ops)
  {
    hide ContentsOf, Step;
    for i := 0 to |ops|
      invariant ContentsOf(blocks) == Run(old(ContentsOf(blocks)), ops[..i])
    {
      assert ops[..i + 1][..i] == ops[..i];
      Perform(blocks, ops[i]);
    }
    assert ops[..|ops|] == ops;
  }
}
