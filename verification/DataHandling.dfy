/** Flattening of nested tables, and packing of integers into bytes (src/datahandling.c). */
module DataHandling {

  // ---------- flattening ----------

  /** A Lua value: a table is given by the elements at its indices 1 to its length. */
  datatype Value = Num(n: int) | Other(tag: nat) | Table(items: seq<Value>)

  /** The leaves of a value, from left to right. */
  function Leaves(v: Value): seq<Value>
    decreases v
  {
    if v.Table? then AllLeaves(v.items) else [v]
  }

  function AllLeaves(items: seq<Value>): seq<Value>
    decreases items
  {
    if items == [] then [] else AllLeaves(items[..|items| - 1]) + Leaves(items[|items| - 1])
  }

  /** The leaves of two lists of elements are those of the first, and then those of the second; a table has the
      leaves of its elements, and anything else is a leaf. */
  lemma {:induction false} LeavesAppend(xs: seq<Value>, ys: seq<Value>)
    ensures AllLeaves(xs + ys) == AllLeaves(xs) + AllLeaves(ys)
    ensures Leaves(Table(xs)) == AllLeaves(xs)
    ensures |xs| == 1 && !xs[0].Table? ==> AllLeaves(xs) == xs
    decreases |ys|
  {
    hide AllLeaves, Leaves;
    FewLeaves(xs);
    if ys == [] {
      FewLeaves(ys);
      assert xs + ys == xs;
    } else {
      var n := |ys| - 1;
      LeavesAppend(xs, ys[..n]);
      LastLeaves(ys);
      LastLeaves(xs + ys);
      assert (xs + ys)[..|xs| + n] == xs + ys[..n] && (xs + ys)[|xs| + n] == ys[n];
    }
  }

  lemma LastLeaves(items: seq<Value>)
    requires items != []
    ensures AllLeaves(items) == AllLeaves(items[..|items| - 1]) + Leaves(items[|items| - 1])
  {
    hide Leaves;
  }

  lemma FewLeaves(xs: seq<Value>)
    ensures xs == [] ==> AllLeaves(xs) == []
    ensures Leaves(Table(xs)) == AllLeaves(xs)
    ensures |xs| == 1 && !xs[0].Table? ==> AllLeaves(xs) == xs
  {
    if |xs| == 1 && !xs[0].Table? {
      assert xs[..0] == [] && AllLeaves(xs) == AllLeaves(xs[..0]) + Leaves(xs[0]);
    }
  }

  /** A flat table: the elements stored by index. */
  type FlatTable = map<int, Value>

  /** `t` with `xs` stored from index `cur + 1` on. */
  ghost function Filled(t: FlatTable, cur: int, xs: seq<Value>): FlatTable {
    if xs == [] then t else
    var n := |xs| - 1;
    Filled(t, cur, xs[..n])[cur + n + 1 := xs[n]]
  }

  lemma {:induction false} FilledTwice(t: FlatTable, cur: int, xs: seq<Value>, ys: seq<Value>)
    ensures Filled(Filled(t, cur, xs), cur + |xs|, ys) == Filled(t, cur, xs + ys)
  {
    if ys == [] {
      assert xs + ys == xs;
    } else {
      var n := |ys| - 1;
      FilledTwice(t, cur, xs, ys[..n]);
      assert (xs + ys)[..|xs| + n] == xs + ys[..n];
    }
  }

  /** A new table filled this way holds exactly the indices 1 to n, in order. */
  lemma {:induction false} FilledExactly(xs: seq<Value>)
    ensures forall i :: i in Filled(map[], 0, xs) <==> 1 <= i <= |xs|
    ensures forall i :: 1 <= i <= |xs| ==> Filled(map[], 0, xs)[i] == xs[i - 1]
  {
    if xs != [] {
      FilledExactly(xs[..|xs| - 1]);
    }
  }

  lemma FilledOne(t: FlatTable, cur: int, x: Value)
    requires !x.Table?
    ensures Leaves(x) == [x] && Filled(t, cur, Leaves(x)) == t[cur + 1 := x]
  {
    assert [x][..0] == [];
  }

  lemma LeavesUpTo(items: seq<Value>, k: nat)
    requires k < |items|
    ensures AllLeaves(items[..k + 1]) == AllLeaves(items[..k]) + Leaves(items[k])
  {
    assert items[..k + 1][..k] == items[..k];
  }

  lemma NoLeaves(v: Value, t: FlatTable, cur: int)
    requires v.Table?
    ensures AllLeaves(v.items[..0]) == [] && Filled(t, cur, []) == t && Leaves(v) == AllLeaves(v.items)
    ensures v.items == [] ==> Leaves(v) == []
  {
  }

  datatype Result<+T> = Ok(value: T) | TableExpected | LengthError | TypeError(element: nat)

  /** The part of the Lua state that flattening touches: the stack, and the target table below it. */
  class Flattener {
    var stack: seq<Value>
    var target: FlatTable

    /** Flatten1_ (datahandling.c:60-92): `arg` is the stack index of the table to be flattened. */
    method Flatten1(cur0: nat, arg: nat) returns (r: Result<nat>)
      requires 1 <= arg <= |stack|
      modifies this
      ensures stack == old(stack)
      ensures !old(stack)[arg - 1].Table? ==> r == TableExpected && target == old(target)
      ensures old(stack)[arg - 1].Table? ==>
        var xs := Leaves(old(stack)[arg - 1]); r == Ok(|xs|) && target == Filled(old(target), cur0, xs)
      decreases stack[arg - 1], 0
    {
      hide Filled, AllLeaves, Leaves;
      var v := stack[arg - 1];
      if !v.Table? {
        return TableExpected;
      }
      var len, n, cur := |v.items|, 0, cur0;
      NoLeaves(v, target, cur);
      if len == 0 {
        return Ok(n);
      }
      for i := 1 to len + 1
        invariant stack == old(stack) && cur == cur0 + n && n == |AllLeaves(v.items[..i - 1])|
        invariant target == Filled(old(target), cur0, AllLeaves(v.items[..i - 1]))
      {
        ghost var done, x := AllLeaves(v.items[..i - 1]), v.items[i - 1];
        LeavesUpTo(v.items, i - 1);
        FilledTwice(old(target), cur0, done, Leaves(x));
        stack := stack + [v.items[i - 1]];
        var m := FlattenTop(cur);
        n := n + m;
        cur := cur + m;
      }
      assert v.items[..len] == v.items;
      r := Ok(n);
    }

    /** The element on top of the stack (datahandling.c:76-89); it is popped, and `m` leaves are stored. */
    method FlattenTop(cur: nat) returns (m: nat)
      requires stack != []
      modifies this
      ensures stack == old(stack)[..|old(stack)| - 1]
      ensures var xs := Leaves(old(stack)[|old(stack)| - 1]); m == |xs| && target == Filled(old(target), cur, xs)
      decreases stack[|stack| - 1], 1
    {
      hide Filled, AllLeaves;
      var top := |stack|;
      if stack[top - 1].Table? {
        var r := Flatten1(cur, top);
        m := r.value;
      } else {
        m := 1;
        FilledOne(target, cur, stack[top - 1]);
        target := target[cur + 1 := stack[top - 1]];
      }
      stack := stack[..top - 1];
    }
  }

  /** toflattable (datahandling.c:94-120) on the arguments `args`: one table is flattened itself, anything else,
      also nothing at all, as the elements of a table. */
  method ToFlatTable(args: seq<Value>) returns (t: FlatTable, n: nat)
    ensures var xs := if args != [] && args[0].Table? then Leaves(args[0]) else AllLeaves(args);
      n == |xs| && forall i :: (i in t <==> 1 <= i <= n) && (i in t ==> t[i] == xs[i - 1])
  {
    var f := new Flattener;
    f.target := map[];
    f.stack := [if args != [] && args[0].Table? then args[0] else Table(args)];
    var r := f.Flatten1(0, 1);
    t, n := f.target, r.value;
    FilledExactly(if args != [] && args[0].Table? then Leaves(args[0]) else AllLeaves(args));
  }

  // ---------- integers as bytes ----------

  newtype byte = x: int | 0 <= x < 256

  /** The eight integer types (datahandling.c:170-177). */
  datatype Prim = CHAR | UCHAR | SHORT | USHORT | INT | UINT | LONG | ULONG

  /** sizeofprimtype (datahandling.c:31-50) */
  function SizeOf(t: Prim): (n: nat)
    ensures n > 0
  {
    match t
    case CHAR | UCHAR => 1
    case SHORT | USHORT => 2
    case INT | UINT => 4
    case LONG | ULONG => 8
  }

  /** How many values the type has. */
  function Range(t: Prim): nat {
    match t
    case CHAR | UCHAR => 0x100
    case SHORT | USHORT => 0x1_0000
    case INT | UINT => 0x1_0000_0000
    case LONG | ULONG => 0x1_0000_0000_0000_0000
  }

  /** Types whose upper half reads back as negative: the signed ones, and ULONG, because a Lua integer
      is signed and no wider. */
  predicate Signed(t: Prim) {
    t in {CHAR, SHORT, INT, LONG, ULONG}
  }

  /** The assignment of a Lua integer to an object of the type. */
  function ToWord(v: int, t: Prim): (w: nat)
    ensures w < Range(t)
  {
    v % Range(t)
  }

  /** The Lua integer that the object reads back as. */
  function FromWord(w: nat, t: Prim): int {
    if Signed(t) && w >= Range(t) / 2 then w - Range(t) else w
  }

  /** `v` reduced to the type's width. */
  function Reduced(v: int, t: Prim): int {
    FromWord(ToWord(v, t), t)
  }

  /** What objects of the type read back as: `cl_ulong` as well as `cl_long`, because a Lua integer is a signed
      64-bit one. */
  predicate InRange(x: int, t: Prim) {
    match t
    case CHAR => -0x80 <= x < 0x80
    case UCHAR => 0 <= x < 0x100
    case SHORT => -0x8000 <= x < 0x8000
    case USHORT => 0 <= x < 0x1_0000
    case INT => -0x8000_0000 <= x < 0x8000_0000
    case UINT => 0 <= x < 0x1_0000_0000
    case LONG | ULONG => -0x8000_0000_0000_0000 <= x < 0x8000_0000_0000_0000
  }

  /** Reducing changes nothing exactly when the type can represent the value. */
  lemma ReducedExact(v: int, t: Prim)
    ensures Reduced(v, t) == v <==> match t
      case CHAR => -0x80 <= v < 0x80
      case UCHAR => 0 <= v < 0x100
      case SHORT => -0x8000 <= v < 0x8000
      case USHORT => 0 <= v < 0x1_0000
      case INT => -0x8000_0000 <= v < 0x8000_0000
      case UINT => 0 <= v < 0x1_0000_0000
      case LONG | ULONG => -0x8000_0000_0000_0000 <= v < 0x8000_0000_0000_0000
  {
  }

  /** Otherwise it changes the value by a multiple of 2 to the width. */
  lemma ReducedCongruent(v: int, t: Prim)
    ensures match t
      case CHAR | UCHAR => Reduced(v, t) in {v % 0x100, v % 0x100 - 0x100}
      case SHORT | USHORT => Reduced(v, t) in {v % 0x1_0000, v % 0x1_0000 - 0x1_0000}
      case INT | UINT => Reduced(v, t) in {v % 0x1_0000_0000, v % 0x1_0000_0000 - 0x1_0000_0000}
      case LONG | ULONG =>
        Reduced(v, t) in {v % 0x1_0000_0000_0000_0000, v % 0x1_0000_0000_0000_0000 - 0x1_0000_0000_0000_0000}
  {
  }

  /** A word reads back as the number of the type's range that differs from it by a multiple of 2 to the width. */
  lemma FromWordExact(w: nat, t: Prim)
    requires w < Range(t)
    ensures InRange(FromWord(w, t), t) && FromWord(w, t) in {w, w - Range(t)}
  {
  }

  /** The bytes of a word, the least significant first. */
  function BytesOf(w: nat, size: nat): (b: seq<byte>)
    ensures |b| == size
  {
    if size == 0 then [] else [(w % 256) as byte] + BytesOf(w / 256, size - 1)
  }

  function WordOf(b: seq<byte>): nat {
    if b == [] then 0 else b[0] as nat + 256 * WordOf(b[1..])
  }

  function Limit(size: nat): nat {
    if size == 0 then 1 else 256 * Limit(size - 1)
  }

  lemma RangeIsLimit(t: Prim)
    ensures Range(t) == Limit(SizeOf(t))
  {
    assert Limit(8) == 256 * Limit(7) == 0x1_0000 * Limit(6) == 0x100_0000 * Limit(5) == 0x1_0000_0000 * Limit(4);
    assert Limit(4) == 256 * Limit(3) == 0x1_0000 * Limit(2) == 0x100_0000 * Limit(1);
  }

  lemma {:induction false} WordOfBytes(w: nat, size: nat)
    requires w < Limit(size)
    ensures WordOf(BytesOf(w, size)) == w
  {
    if size > 0 {
      WordOfBytes(w / 256, size - 1);
    }
  }

  lemma LowByte(b: byte, w: nat)
    ensures (b as nat + 256 * w) % 256 == b as nat && (b as nat + 256 * w) / 256 == w
  {
  }

  lemma {:induction false} BytesOfWord(b: seq<byte>)
    ensures WordOf(b) < Limit(|b|) && BytesOf(WordOf(b), |b|) == b
  {
    if b != [] {
      BytesOfWord(b[1..]);
      LowByte(b[0], WordOf(b[1..]));
      assert b == [b[0]] + b[1..];
    }
  }

  // ---------- pack and unpack ----------

  /** The bytes of a sequence of integers. */
  function Packed(xs: seq<int>, t: Prim): (b: seq<byte>) {
    if xs == [] then [] else
    var n := |xs| - 1;
    Packed(xs[..n], t) + BytesOf(ToWord(xs[n], t), SizeOf(t))
  }

  /** The integers that a whole number of objects reads back as. */
  function Unpacked(b: seq<byte>, t: Prim): seq<int> {
    if |b| < SizeOf(t) then [] else
    var n := |b| - SizeOf(t);
    Unpacked(b[..n], t) + [FromWord(WordOf(b[n..]), t)]
  }

  /** `n * sizeof(T)` */
  function Size(n: nat, t: Prim): nat {
    match t
    case CHAR | UCHAR => n
    case SHORT | USHORT => n * 2
    case INT | UINT => n * 4
    case LONG | ULONG => n * 8
  }

  /** `len % sizeof(T) == 0` */
  predicate WholeLength(len: nat, t: Prim) {
    match t
    case CHAR | UCHAR => true
    case SHORT | USHORT => len % 2 == 0
    case INT | UINT => len % 4 == 0
    case LONG | ULONG => len % 8 == 0
  }

  /** `len / sizeof(T)` */
  function Count(len: nat, t: Prim): nat {
    match t
    case CHAR | UCHAR => len
    case SHORT | USHORT => len / 2
    case INT | UINT => len / 4
    case LONG | ULONG => len / 8
  }

  ghost predicate Whole(b: seq<byte>, t: Prim) {
    WholeLength(|b|, t)
  }

  lemma WholeStep(n: nat, t: Prim)
    requires n >= SizeOf(t)
    ensures WholeLength(n - SizeOf(t), t) == WholeLength(n, t)
  {
    match t
    case CHAR | UCHAR =>
    case SHORT | USHORT => assert (n - 2) % 2 == n % 2;
    case INT | UINT => assert (n - 4) % 4 == n % 4;
    case LONG | ULONG => assert (n - 8) % 8 == n % 8;
  }

  function AllReduced(xs: seq<int>, t: Prim): (r: seq<int>) {
    seq(|xs|, i requires 0 <= i < |xs| => Reduced(xs[i], t))
  }

  lemma {:induction false} UnpackedAt(b: seq<byte>, t: Prim, i: nat)
    requires Whole(b, t) && i < Count(|b|, t)
    ensures Size(i, t) + SizeOf(t) <= |b| && i < |Unpacked(b, t)| == Count(|b|, t)
    ensures Unpacked(b, t)[i] == FromWord(WordOf(b[Size(i, t)..Size(i, t) + SizeOf(t)]), t)
    decreases |b|
  {
    hide FromWord, WordOf, Size, SizeOf, Count, WholeLength, Unpacked;
    LastObject(|b|, i, t);
    var n, w, at := |b| - SizeOf(t), SizeOf(t), Size(i, t);
    Slices(b, n, at, w);
    UnpackedStep(b, n, t);
    if n > 0 {
      UnpackedAt(b[..n], t, if i < Count(n, t) then i else 0);
    } else {
      NothingUnpacked(b, t);
    }
    Appended(Unpacked(b[..n], t), FromWord(WordOf(b[n..n + w]), t), i);
  }

  lemma Slices(b: seq<byte>, n: nat, at: nat, w: nat)
    requires n + w == |b|
    ensures b[..n + w] == b
    ensures at + w <= n ==> b[..n][at..at + w] == b[at..at + w]
  {
  }

  lemma Appended(s: seq<int>, x: int, i: nat)
    requires i <= |s|
    ensures (s + [x])[i] == if i < |s| then s[i] else x
  {
  }

  lemma LastObject(len: nat, i: nat, t: Prim)
    requires WholeLength(len, t) && i < Count(len, t)
    ensures len >= SizeOf(t) && WholeLength(len - SizeOf(t), t) && Count(len, t) == Count(len - SizeOf(t), t) + 1
    ensures Size(i, t) + SizeOf(t) <= len && (Count(len - SizeOf(t), t) == 0 <==> len == SizeOf(t))
    ensures i == Count(len, t) - 1 ==> Size(i, t) == len - SizeOf(t)
    ensures i < Count(len, t) - 1 ==> Size(i, t) + SizeOf(t) <= len - SizeOf(t)
  {
    CountWhole(len, t);
    FewerWhole(len, t);
    hide Count, WholeLength;
  }

  lemma FewerWhole(len: nat, t: Prim)
    requires WholeLength(len, t) && 0 < Count(len, t)
    ensures len >= SizeOf(t) && WholeLength(len - SizeOf(t), t) && Count(len, t) == Count(len - SizeOf(t), t) + 1
  {
    match t
    case CHAR | UCHAR =>
    case SHORT | USHORT => assert (len - 2) % 2 == len % 2 && (len - 2) / 2 == len / 2 - 1;
    case INT | UINT => assert (len - 4) % 4 == len % 4 && (len - 4) / 4 == len / 4 - 1;
    case LONG | ULONG => assert (len - 8) % 8 == len % 8 && (len - 8) / 8 == len / 8 - 1;
  }

  lemma WordOfOne(b: seq<byte>)
    requires |b| == 1
    ensures WordOf(b) == b[0] as nat
  {
  }

  lemma WordOfTwo(b: seq<byte>)
    requires |b| == 2
    ensures WordOf(b) == b[0] as nat + 0x100 * b[1] as nat
  {
    assert b[1..] == [b[1]];
    assert WordOf(b[1..]) == b[1] as nat;
  }

  lemma WordOfFour(b: seq<byte>)
    requires |b| == 4
    ensures WordOf(b) == b[0] as nat + 0x100 * b[1] as nat + 0x1_0000 * b[2] as nat + 0x100_0000 * b[3] as nat
  {
    assert b[1..][1..] == b[2..];
    WordOfTwo(b[2..]);
  }

  lemma WordOfEight(b: seq<byte>)
    requires |b| == 8
    ensures WordOf(b)
         == b[0] as nat + 0x100 * b[1] as nat + 0x1_0000 * b[2] as nat + 0x100_0000 * b[3] as nat
            + 0x1_0000_0000 * b[4] as nat + 0x100_0000_0000 * b[5] as nat
            + 0x1_0000_0000_0000 * b[6] as nat + 0x100_0000_0000_0000 * b[7] as nat
  {
    var c, d, e := b[1..], b[2..], b[3..];
    assert c[1..] == d && d[1..] == e && e[1..] == b[4..];
    assert WordOf(b) == b[0] as nat + 0x100 * WordOf(c);
    assert WordOf(c) == b[1] as nat + 0x100 * WordOf(d);
    assert WordOf(d) == b[2] as nat + 0x100 * WordOf(e);
    assert WordOf(e) == b[3] as nat + 0x100 * WordOf(b[4..]);
    WordOfFour(b[4..]);
  }

  /** What unpacking reads: two's complement, the least significant byte first. */
  lemma UnpackedExact(b: seq<byte>, t: Prim, i: nat)
    requires Whole(b, t) && i < |Unpacked(b, t)|
    ensures match t
      case CHAR | UCHAR => |Unpacked(b, t)| == |b|
      case SHORT | USHORT => 2 * |Unpacked(b, t)| == |b|
      case INT | UINT => 4 * |Unpacked(b, t)| == |b|
      case LONG | ULONG => 8 * |Unpacked(b, t)| == |b|
    ensures var x := Unpacked(b, t)[i];
      match t
      case CHAR => -0x80 <= x < 0x80 && x in {b[i] as int, b[i] as int - 0x100}
      case UCHAR => x == b[i] as int
      case SHORT | USHORT =>
        var w := b[2 * i] as int + 0x100 * b[2 * i + 1] as int;
        if t == USHORT then x == w else -0x8000 <= x < 0x8000 && x in {w, w - 0x1_0000}
      case INT | UINT =>
        var w := b[4 * i] as int + 0x100 * b[4 * i + 1] as int
                 + 0x1_0000 * b[4 * i + 2] as int + 0x100_0000 * b[4 * i + 3] as int;
        if t == UINT then x == w else -0x8000_0000 <= x < 0x8000_0000 && x in {w, w - 0x1_0000_0000}
      case LONG | ULONG =>
        var w := b[8 * i] as int + 0x100 * b[8 * i + 1] as int
                 + 0x1_0000 * b[8 * i + 2] as int + 0x100_0000 * b[8 * i + 3] as int
                 + 0x1_0000_0000 * b[8 * i + 4] as int + 0x100_0000_0000 * b[8 * i + 5] as int
                 + 0x1_0000_0000_0000 * b[8 * i + 6] as int + 0x100_0000_0000_0000 * b[8 * i + 7] as int;
        -0x8000_0000_0000_0000 <= x < 0x8000_0000_0000_0000 && x in {w, w - 0x1_0000_0000_0000_0000}
  {
    hide Unpacked, WordOf, FromWord;
    UnpackedCount(b, t);
    UnpackedAt(b, t, i);
    var c := b[Size(i, t)..Size(i, t) + SizeOf(t)];
    ObjectExact(c, t);
    match t
    case CHAR | UCHAR => assert c[0] == b[i];
    case SHORT | USHORT => assert c == b[2 * i..2 * i + 2];
    case INT | UINT => assert c == b[4 * i..4 * i + 4];
    case LONG | ULONG => assert c == b[8 * i..8 * i + 8];
  }

  lemma ObjectExact(c: seq<byte>, t: Prim)
    requires |c| == SizeOf(t)
    ensures var x := FromWord(WordOf(c), t);
      match t
      case CHAR => -0x80 <= x < 0x80 && x in {c[0] as int, c[0] as int - 0x100}
      case UCHAR => x == c[0] as int
      case SHORT | USHORT =>
        var w := c[0] as int + 0x100 * c[1] as int;
        if t == USHORT then x == w else -0x8000 <= x < 0x8000 && x in {w, w - 0x1_0000}
      case INT | UINT =>
        var w := c[0] as int + 0x100 * c[1] as int + 0x1_0000 * c[2] as int + 0x100_0000 * c[3] as int;
        if t == UINT then x == w else -0x8000_0000 <= x < 0x8000_0000 && x in {w, w - 0x1_0000_0000}
      case LONG | ULONG =>
        var w := c[0] as int + 0x100 * c[1] as int + 0x1_0000 * c[2] as int + 0x100_0000 * c[3] as int
                 + 0x1_0000_0000 * c[4] as int + 0x100_0000_0000 * c[5] as int
                 + 0x1_0000_0000_0000 * c[6] as int + 0x100_0000_0000_0000 * c[7] as int;
        -0x8000_0000_0000_0000 <= x < 0x8000_0000_0000_0000 && x in {w, w - 0x1_0000_0000_0000_0000}
  {
    hide WordOf, FromWord, Limit, BytesOf;
    RangeIsLimit(t);
    BytesOfWord(c);
    FromWordExact(WordOf(c), t);
    match t
    case CHAR | UCHAR => WordOfOne(c);
    case SHORT | USHORT => WordOfTwo(c);
    case INT | UINT => WordOfFour(c);
    case LONG | ULONG => WordOfEight(c);
  }

  lemma UnpackedCount(b: seq<byte>, t: Prim)
    requires Whole(b, t)
    ensures |Unpacked(b, t)| == Count(|b|, t)
  {
    if Count(|b|, t) > 0 {
      UnpackedAt(b, t, 0);
    } else {
      NoCount(|b|, t);
    }
  }

  lemma NoCount(len: nat, t: Prim)
    requires WholeLength(len, t) && Count(len, t) == 0
    ensures len == 0
  {
  }

  /** Unpacking what was packed gives the integers, reduced to the type's width. */
  lemma {:induction false} UnpackPacked(xs: seq<int>, t: Prim)
    ensures Unpacked(Packed(xs, t), t) == AllReduced(xs, t)
  {
    hide *;
    if xs == [] {
      NothingReduced(t);
    } else {
      var n := |xs| - 1;
      UnpackPacked(xs[..n], t);
      PackedLast(xs, t);
      UnpackedAppend(Packed(xs[..n], t), BytesOf(ToWord(xs[n], t), SizeOf(t)), t);
      ReadBack(xs[n], t);
      ReducedLast(xs, t);
    }
  }

  lemma NothingReduced(t: Prim)
    ensures Unpacked(Packed([], t), t) == AllReduced([], t)
  {
  }

  lemma PackedLast(xs: seq<int>, t: Prim)
    requires xs != []
    ensures Packed(xs, t) == Packed(xs[..|xs| - 1], t) + BytesOf(ToWord(xs[|xs| - 1], t), SizeOf(t))
  {
    hide ToWord, BytesOf, SizeOf;
  }

  lemma UnpackedAppend(b: seq<byte>, c: seq<byte>, t: Prim)
    requires |c| == SizeOf(t)
    ensures Unpacked(b + c, t) == Unpacked(b, t) + [FromWord(WordOf(c), t)]
  {
    hide FromWord, WordOf, SizeOf;
    assert (b + c)[..|b|] == b && (b + c)[|b|..] == c;
  }

  lemma ReadBack(v: int, t: Prim)
    ensures FromWord(WordOf(BytesOf(ToWord(v, t), SizeOf(t))), t) == Reduced(v, t)
  {
    hide FromWord, WordOf, BytesOf, ToWord, SizeOf, Range, Limit;
    RangeIsLimit(t);
    WordOfBytes(ToWord(v, t), SizeOf(t));
  }

  lemma ReducedLast(xs: seq<int>, t: Prim)
    requires xs != []
    ensures AllReduced(xs, t) == AllReduced(xs[..|xs| - 1], t) + [Reduced(xs[|xs| - 1], t)]
  {
    hide Reduced;
  }

  lemma WordRoundTrip(b: seq<byte>, t: Prim)
    requires |b| == SizeOf(t)
    ensures BytesOf(ToWord(FromWord(WordOf(b), t), t), SizeOf(t)) == b
  {
    RangeIsLimit(t);
    BytesOfWord(b);
    WordBack(WordOf(b), t);
  }

  lemma WordBack(w: nat, t: Prim)
    requires w < Range(t)
    ensures ToWord(FromWord(w, t), t) == w
  {
    match t {
      case CHAR | UCHAR => assert w % 0x100 == w && (w - 0x100) % 0x100 == w;
      case SHORT | USHORT => assert w % 0x1_0000 == w && (w - 0x1_0000) % 0x1_0000 == w;
      case INT | UINT => assert w % 0x1_0000_0000 == w && (w - 0x1_0000_0000) % 0x1_0000_0000 == w;
      case LONG | ULONG => OneTurn(w);
    }
  }

  lemma OneTurn(w: nat)
    requires w < 0x1_0000_0000_0000_0000
    ensures w % 0x1_0000_0000_0000_0000 == w && (w - 0x1_0000_0000_0000_0000) % 0x1_0000_0000_0000_0000 == w
  {
  }

  lemma ShortIsPartial(b: seq<byte>, t: Prim)
    requires b != []
    ensures |b| < SizeOf(t) ==> !Whole(b, t)
  {
  }

  /** Packing what was unpacked gives the bytes back. */
  lemma {:induction false} PackUnpacked(b: seq<byte>, t: Prim)
    requires Whole(b, t)
    ensures Packed(Unpacked(b, t), t) == b
    decreases |b|
  {
    hide ToWord, FromWord, BytesOf, WordOf, SizeOf, WholeLength;
    if |b| >= SizeOf(t) {
      var n := |b| - SizeOf(t);
      WholeStep(|b|, t);
      PackUnpacked(b[..n], t);
      WordRoundTrip(b[n..], t);
      var xs := Unpacked(b[..n], t);
      var all := xs + [FromWord(WordOf(b[n..]), t)];
      assert all[..|xs|] == xs;
      assert b == b[..n] + b[n..];
    } else if b != [] {
      ShortIsPartial(b, t);
    }
  }

  lemma {:induction false} PackedLength(xs: seq<int>, t: Prim)
    ensures |Packed(xs, t)| == Size(|xs|, t)
  {
    if xs != [] {
      var n := |xs| - 1;
      PackedLength(xs[..n], t);
    }
  }

  lemma WholeSize(n: nat, t: Prim)
    ensures WholeLength(Size(n, t), t) && (n > 0 ==> Size(n, t) >= SizeOf(t))
  {
  }

  lemma PackedWhole(xs: seq<int>, t: Prim)
    ensures Whole(Packed(xs, t), t) && (xs != [] ==> |Packed(xs, t)| >= SizeOf(t))
  {
    PackedLength(xs, t);
    WholeSize(|xs|, t);
    hide Packed;
  }

  /** How many elements precede the first one that is not an integer. */
  function Integers(items: seq<Value>): (n: nat)
    ensures n <= |items| && (forall i :: 0 <= i < n ==> items[i].Num?) && (n < |items| ==> !items[n].Num?)
  {
    if items == [] || !items[0].Num? then 0 else 1 + Integers(items[1..])
  }

  /** The integers that packing stores: those before the first faulty element, and 0 in its place. */
  function Stored(items: seq<Value>): (xs: seq<int>)
    ensures |xs| == if Integers(items) < |items| then Integers(items) + 1 else |items|
    ensures forall i :: 0 <= i < |xs| ==> xs[i] == if items[i].Num? then items[i].n else 0
  {
    var n := Integers(items);
    seq(n, i requires 0 <= i < n => items[i].n) + if n < |items| then [0] else []
  }

  /** `s` with `b` in the place of the bytes from `at` on. */
  function Overwritten(s: seq<byte>, at: nat, b: seq<byte>): (r: seq<byte>)
    requires at + |b| <= |s|
    ensures |r| == |s|
    ensures forall k :: 0 <= k < |s| ==> r[k] == if at <= k < at + |b| then b[k - at] else s[k]
  {
    s[..at] + b + s[at + |b|..]
  }

  lemma OverwrittenTwice(s: seq<byte>, at: nat, b: seq<byte>, c: seq<byte>)
    requires at + |b| + |c| <= |s|
    ensures Overwritten(Overwritten(s, at, b), at + |b|, c) == Overwritten(s, at, b + c)
  {
  }

  lemma NothingOverwritten(s: seq<byte>, at: nat)
    requires at <= |s|
    ensures Overwritten(s, at, []) == s
  {
  }

  /** Storing one object. */
  method Store(dst: array<byte>, at: nat, b: seq<byte>)
    requires at + |b| <= dst.Length
    modifies dst
    ensures dst[..] == Overwritten(old(dst[..]), at, b)
  {
    forall j | 0 <= j < |b| {
      dst[at + j] := b[j];
    }
  }

  /** PACK (datahandling.c:141-162), into the `dstsize` bytes of `dst` from `offset` on. An element that is not an
      integer is stored as 0 before it is rejected. */
  method Pack(dst: array<byte>, offset: nat, dstsize: nat, t: Prim, items: seq<Value>) returns (r: Result<()>)
    requires offset + dstsize <= dst.Length
    modifies dst
    ensures dstsize < Size(|items|, t) ==> r == LengthError && dst[..] == old(dst[..])
    ensures dstsize >= Size(|items|, t) ==>
      var b := Packed(Stored(items), t);
      && r == (if Integers(items) == |items| then Ok(()) else TypeError(Integers(items) + 1))
      && |b| <= dstsize && dst[..] == Overwritten(old(dst[..]), offset, b)
  {
    hide Packed, Stored, BytesOf, ToWord, Overwritten, Range, Size, Integers;
    ghost var xs := Stored(items);
    NothingOverwritten(dst[..], offset);
    if dstsize < Size(|items|, t) {
      return LengthError;
    }
    StoredFits(items, t);
    NothingPacked(xs, t);
    var at := offset;
    for i := 0 to |items|
      invariant i <= Integers(items) && i <= |xs| && at == offset + |Packed(xs[..i], t)| <= offset + dstsize
      invariant dst[..] == Overwritten(old(dst[..]), offset, Packed(xs[..i], t))
    {
      var isnum := items[i].Num?;
      var v := if isnum then items[i].n else 0;
      StoredAt(items, i);
      PackedPrefix(xs, i + 1, t);
      PackedStep(xs, i, t);
      OverwrittenTwice(old(dst[..]), offset, Packed(xs[..i], t), BytesOf(ToWord(v, t), SizeOf(t)));
      Store(dst, at, BytesOf(ToWord(v, t), SizeOf(t)));
      at := at + SizeOf(t);
      if !isnum {
        assert xs[..i + 1] == xs;
        return TypeError(i + 1);
      }
    }
    assert xs[..|items|] == xs;
    r := Ok(());
  }

  lemma StoredAt(items: seq<Value>, i: nat)
    requires i < |items| && i <= Integers(items)
    ensures i < |Stored(items)| && Stored(items)[i] == if items[i].Num? then items[i].n else 0
    ensures !items[i].Num? ==> |Stored(items)| == i + 1
    ensures items[i].Num? ==> i + 1 <= Integers(items)
  {
  }

  lemma StoredFits(items: seq<Value>, t: Prim)
    ensures |Packed(Stored(items), t)| <= Size(|items|, t)
    ensures Integers(items) == |items| ==> |Stored(items)| == |items|
  {
    PackedLength(Stored(items), t);
  }

  lemma PackedStep(xs: seq<int>, i: nat, t: Prim)
    requires i < |xs|
    ensures Packed(xs[..i + 1], t) == Packed(xs[..i], t) + BytesOf(ToWord(xs[i], t), SizeOf(t))
  {
    assert xs[..i + 1][..i] == xs[..i];
  }

  lemma NothingPacked(xs: seq<int>, t: Prim)
    ensures Packed(xs[..0], t) == []
  {
  }

  lemma {:induction false} PackedPrefix(xs: seq<int>, i: nat, t: Prim)
    requires i <= |xs|
    ensures |Packed(xs[..i], t)| <= |Packed(xs, t)|
    decreases |xs| - i
  {
    if i < |xs| {
      PackedPrefix(xs, i + 1, t);
      PackedStep(xs, i, t);
    } else {
      assert xs[..i] == xs;
    }
  }

  /** UNPACK (datahandling.c:219-234) */
  method Unpack(data: seq<byte>, t: Prim) returns (r: Result<seq<int>>)
    ensures r == if |data| < SizeOf(t) || !Whole(data, t) then LengthError else Ok(Unpacked(data, t))
    ensures r.Ok? <==> match t
      case CHAR | UCHAR => |data| >= 1
      case SHORT | USHORT => |data| >= 2 && |data| % 2 == 0
      case INT | UINT => |data| >= 4 && |data| % 4 == 0
      case LONG | ULONG => |data| >= 8 && |data| % 8 == 0
    ensures r.Ok? ==> forall x <- r.value :: InRange(x, t)
  {
    hide WordOf, FromWord, Unpacked, Size, SizeOf, Count, WholeLength, InRange;
    UnpackedInRange(data, t);
    UnpackAccepts(|data|, t);
    if |data| < SizeOf(t) || !WholeLength(|data|, t) {
      return LengthError;
    }
    var n := Count(|data|, t);
    var xs, at := [], 0;
    CountWhole(|data|, t);
    NothingUnpacked(data, t);
    for i := 0 to n
      invariant at == Size(i, t) <= |data| && xs == Unpacked(data[..at], t)
    {
      CountStep(i, n, t);
      UnpackedStep(data, at, t);
      xs := xs + [FromWord(WordOf(data[at..at + SizeOf(t)]), t)];
      at := at + SizeOf(t);
    }
    assert data[..|data|] == data;
    r := Ok(xs);
  }

  lemma UnpackAccepts(len: nat, t: Prim)
    ensures len >= SizeOf(t) && WholeLength(len, t) <==> match t
      case CHAR | UCHAR => len >= 1
      case SHORT | USHORT => len >= 2 && len % 2 == 0
      case INT | UINT => len >= 4 && len % 4 == 0
      case LONG | ULONG => len >= 8 && len % 8 == 0
  {
  }

  lemma UnpackedInRange(b: seq<byte>, t: Prim)
    ensures Whole(b, t) ==> forall x <- Unpacked(b, t) :: InRange(x, t)
  {
    hide Unpacked, WholeLength;
    if Whole(b, t) {
      forall x | x in Unpacked(b, t)
        ensures InRange(x, t)
      {
        var i :| 0 <= i < |Unpacked(b, t)| && Unpacked(b, t)[i] == x;
        UnpackedExact(b, t, i);
      }
    }
  }

  lemma NothingUnpacked(data: seq<byte>, t: Prim)
    ensures Size(0, t) == 0 && Unpacked(data[..0], t) == []
  {
  }

  lemma UnpackedStep(data: seq<byte>, at: nat, t: Prim)
    requires at + SizeOf(t) <= |data|
    ensures Unpacked(data[..at + SizeOf(t)], t) ==
      Unpacked(data[..at], t) + [FromWord(WordOf(data[at..at + SizeOf(t)]), t)]
  {
    var b := data[..at + SizeOf(t)];
    hide WordOf, FromWord, SizeOf;
    assert b[..at] == data[..at] && b[at..] == data[at..at + SizeOf(t)];
  }

  lemma CountWhole(len: nat, t: Prim)
    requires WholeLength(len, t)
    ensures Size(Count(len, t), t) == len
  {
  }

  lemma CountStep(i: nat, n: nat, t: Prim)
    requires i < n
    ensures Size(i, t) + SizeOf(t) == Size(i + 1, t) <= Size(n, t)
  {
  }

  function Numbers(xs: seq<int>): (items: seq<Value>)
    ensures |items| == |xs| && forall i :: 0 <= i < |xs| ==> items[i] == Num(xs[i])
  {
    seq(|xs|, i requires 0 <= i < |xs| => Num(xs[i]))
  }

  lemma NumbersStored(xs: seq<int>)
    ensures Integers(Numbers(xs)) == |xs| && Stored(Numbers(xs)) == xs
  {
    assert forall i :: 0 <= i < |xs| ==> Numbers(xs)[i].Num?;
  }

  /** Bytes that make up whole objects come back from unpacking and packing; others are refused at once. */
  method UnpackThenPack(data: seq<byte>, t: Prim, dst: array<byte>, offset: nat, dstsize: nat) returns (r: Result<()>)
    requires offset + dstsize <= dst.Length
    modifies dst
    ensures r == if |data| >= SizeOf(t) && Whole(data, t) && |data| <= dstsize then Ok(()) else LengthError
    ensures dst[..] == if r.Ok? then Overwritten(old(dst[..]), offset, data) else old(dst[..])
  {
    hide Unpacked, Packed, Stored, Integers, Whole, Overwritten, Size, SizeOf;
    var xs := Unpack(data, t);
    if !xs.Ok? {
      return LengthError;
    }
    PackUnpacked(data, t);
    PackedLength(xs.value, t);
    NumbersStored(xs.value);
    r := Pack(dst, offset, dstsize, t, Numbers(xs.value));
  }
}
