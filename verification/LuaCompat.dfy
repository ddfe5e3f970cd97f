/** Two algorithms of src/compat-5.3.c: rotation by reversals, and the growing string buffer. */
module LuaCompat {
  import opened Common

  // ---------- rotation ----------

  lemma Turned(k: int, m: int)
    requires m > 0 && -m <= k < 2 * m
    ensures k % m == if k >= m then k - m else if k < 0 then k + m else k
  {
    var q := k / m;
    assert k == q * m + k % m;
    assert q >= 2 ==> q * m >= 2 * m;
    assert q <= -2 ==> q * m <= -2 * m;
  }

  /** Where slot `k` of `m` goes when the slots are rotated `n` positions towards the top. */
  function Place(k: int, n: int, m: int): (p: int)
    requires 0 <= k < m && -m <= n <= m
    ensures 0 <= p < m && p == (k + n) % m
  {
    Turned(k + n, m);
    if k + n >= m then k + n - m else if k + n < 0 then k + n + m else k + n
  }

  /** lua_rotate's meaning (section 4.8 of the Lua 5.3 Reference Manual). */
  ghost predicate IsRotation<V>(s: seq<V>, n: int, r: seq<V>)
    requires -|s| <= n <= |s|
  {
    |r| == |s| && forall k :: 0 <= k < |s| ==> r[Place(k, n, |s|)] == s[k]
  }

  lemma RotationUnique<V>(s: seq<V>, n: int, r: seq<V>, r': seq<V>)
    requires -|s| <= n <= |s| && IsRotation(s, n, r) && IsRotation(s, n, r')
    ensures r == r'
  {
    forall k | 0 <= k < |s|
      ensures r[k] == r'[k]
    {
      assert Place(Place(k, -n, |s|), n, |s|) == k;
    }
  }

  /** Rotating by `n` and then by `-n` is the identity. */
  lemma RotateBack<V>(s: seq<V>, n: int, r: seq<V>, q: seq<V>)
    requires -|s| <= n <= |s| && IsRotation(s, n, r) && IsRotation(r, -n, q)
    ensures q == s
  {
    forall k | 0 <= k < |s|
      ensures q[k] == s[k]
    {
      assert Place(Place(k, n, |s|), -n, |s|) == k;
    }
  }

  /** A rotation exchanges the two halves of the segment. */
  lemma RotationHalves<V>(s: seq<V>, n: int)
    requires -|s| <= n <= |s|
    ensures var cut := if n < 0 then -n else |s| - n;
      0 <= cut <= |s| && IsRotation(s, n, s[cut..] + s[..cut])
  {
  }

  lemma RotationPermutes<V>(s: seq<V>, n: int, r: seq<V>)
    requires -|s| <= n <= |s| && IsRotation(s, n, r)
    ensures multiset(r) == multiset(s)
  {
    hide IsRotation;
    var cut := if n < 0 then -n else |s| - n;
    RotationHalves(s, n);
    RotationUnique(s, n, r, s[cut..] + s[..cut]);
    assert s == s[..cut] + s[cut..];
    ExchangePermutes(s[..cut], s[cut..]);
  }

  lemma ExchangePermutes<V>(x: seq<V>, y: seq<V>)
    ensures multiset(x + y) == multiset(y + x)
  {
  }

  function Reversed<V>(s: seq<V>): (r: seq<V>)
    ensures |r| == |s| && forall k :: 0 <= k < |s| ==> r[k] == s[|s| - 1 - k]
  {
    if s == [] then [] else Reversed(s[1..]) + [s[0]]
  }

  /** Reversing the two parts and then the whole exchanges the parts. */
  lemma ThreeReversals<V>(x: seq<V>, y: seq<V>)
    ensures Reversed(Reversed(x) + Reversed(y)) == y + x
  {
  }

  /** Of the slots `lo` to `hi` those outside `i` to `j` have changed places with their mirror images. */
  ghost predicate Mirrored<V>(s: seq<V>, r: seq<V>, lo: int, hi: int, i: int, j: int) {
    && |r| == |s| && 0 <= lo <= i && j <= hi <= |s| && i - lo == hi - j && i <= j + 1
    && (forall k :: 0 <= k < |s| && !(lo <= k < i) && !(j <= k < hi) ==> r[k] == s[k])
    && (forall k :: lo <= k < i ==> r[k] == s[lo + hi - 1 - k])
    && (forall k :: j <= k < hi ==> r[k] == s[lo + hi - 1 - k])
  }

  lemma MirroredNone<V>(s: seq<V>, lo: int, hi: int)
    requires 0 <= lo <= hi <= |s|
    ensures Mirrored(s, s, lo, hi, lo, hi)
  {
  }

  lemma MirroredOneMore<V>(s: seq<V>, r: seq<V>, r': seq<V>, lo: int, hi: int, i: int, j: int)
    requires Mirrored(s, r, lo, hi, i, j) && i + 1 < j && |r'| == |r| && r'[i] == r[j - 1] && r'[j - 1] == r[i]
    requires forall k :: 0 <= k < |r| && k != i && k != j - 1 ==> r'[k] == r[k]
    ensures Mirrored(s, r', lo, hi, i + 1, j - 1)
  {
  }

  lemma MirroredAll<V>(s: seq<V>, r: seq<V>, lo: int, hi: int, i: int, j: int)
    requires Mirrored(s, r, lo, hi, i, j) && i + 1 >= j && lo <= hi
    ensures r == s[..lo] + Reversed(s[lo..hi]) + s[hi..]
  {
  }

  lemma SwappedIsRotated<V>(s: seq<V>, lo: nat, n: int)
    requires lo <= |s| && -(|s| - lo) <= n <= |s| - lo
    ensures var cut := if n < 0 then -n else |s| - lo - n;
      var r := s[..lo] + s[lo + cut..] + s[lo..lo + cut];
      && r[..lo] == s[..lo] && IsRotation(s[lo..], n, r[lo..]) && (cut in {0, |s| - lo} ==> r == s)
  {
    var cut := if n < 0 then -n else |s| - lo - n;
    hide IsRotation;
    RotationHalves(s[lo..], n);
    Slices(s[..lo], s[lo + cut..], s[lo..lo + cut]);
    assert s[lo..][cut..] == s[lo + cut..] && s[lo..][..cut] == s[lo..lo + cut];
  }

  /** The Lua stack; index 1 is the bottom. */
  class Stack<V> {
    var slots: seq<V>

    /** lua_pushvalue */
    method PushValue(idx: nat)
      requires 1 <= idx <= |slots|
      modifies this
      ensures slots == old(slots) + [old(slots)[idx - 1]]
    {
      slots := slots + [slots[idx - 1]];
    }

    /** lua_replace: the top goes to `idx`. */
    method Replace(idx: nat)
      requires 1 <= idx < |slots|
      modifies this
      ensures slots == old(slots)[..|old(slots)| - 1][idx - 1 := old(slots)[|old(slots)| - 1]]
    {
      var top := slots[|slots| - 1];
      slots := slots[..|slots| - 1];
      slots := slots[idx - 1 := top];
    }

    /** One turn of the loop below: slots `a` and `b` change places. */
    method Exchange(a: nat, b: nat)
      requires 1 <= a < b <= |slots|
      modifies this
      ensures |slots| == |old(slots)| && slots[a - 1] == old(slots)[b - 1] && slots[b - 1] == old(slots)[a - 1]
      ensures forall j :: 0 <= j < |slots| && j != a - 1 && j != b - 1 ==> slots[j] == old(slots)[j]
    {
      PushValue(a);
      PushValue(b);
      Replace(a);
      Replace(b);
    }

    /** compat53_reverse (compat-5.3.c:810-817) */
    method Reverse(a0: nat, b0: nat)
      requires 1 <= a0 <= b0 + 1 && b0 <= |slots|
      modifies this
      ensures slots == old(slots)[..a0 - 1] + Reversed(old(slots)[a0 - 1..b0]) + old(slots)[b0..]
    {
      hide Mirrored, Reversed;
      ghost var s := slots;
      var a, b := a0, b0;
      MirroredNone(s, a0 - 1, b0);
      while a < b
        invariant a0 <= a <= b + 1 && b <= b0 && a - a0 == b0 - b && |slots| == |s|
        invariant Mirrored(s, slots, a0 - 1, b0, a - 1, b)
      {
        ghost var r := slots;
        Exchange(a, b);
        MirroredOneMore(s, r, slots, a0 - 1, b0, a - 1, b);
        a, b := a + 1, b - 1;
      }
      MirroredAll(s, slots, a0 - 1, b0, a - 1, b);
    }

    /** lua_rotate (compat-5.3.c:820-833). With more than one turn, which the manual excludes,
        the source does nothing. */
    method Rotate(idx0: int, n0: int)
      requires 1 <= idx0 <= |slots| || -|slots| <= idx0 <= -1
      modifies this
      ensures |slots| == |old(slots)|
      ensures var lo := if idx0 < 0 then |slots| + idx0 else idx0 - 1;
        && slots[..lo] == old(slots)[..lo]
        && if -(|slots| - lo) <= n0 <= |slots| - lo then IsRotation(old(slots)[lo..], n0, slots[lo..])
           else slots == old(slots)
    {
      hide IsRotation;
      var idx := if idx0 < 0 then |slots| + idx0 + 1 else idx0;
      var m := |slots| - idx + 1;
      var n := if n0 < 0 then n0 + m else n0;
      if -m <= n0 <= m {
        SwappedIsRotated(slots, idx - 1, n0);
      }
      if 0 < n < m {
        n := m - n;
        SwapParts(idx, n, m);
      }
    }

    /** Rotating by `n` and then by `-n` leaves the stack as it was, whatever `n` is. */
    method RotateThereAndBack(idx: int, n: int)
      requires 1 <= idx <= |slots| || -|slots| <= idx <= -1
      modifies this
      ensures slots == old(slots)
    {
      hide IsRotation;
      Rotate(idx, n);
      ghost var between := slots;
      Rotate(idx, -n);
      ghost var lo := if idx < 0 then |slots| + idx else idx - 1;
      if -(|slots| - lo) <= n <= |slots| - lo {
        SegmentBack(old(slots), between, slots, lo, n);
      }
    }

    /** The three reversals (compat-5.3.c:829-831): the first `n` of the `m` slots from `idx` on go to the top. */
    method SwapParts(idx: nat, n: nat, m: nat)
      requires 1 <= idx && 0 < n < m && |slots| == idx + m - 1
      modifies this
      ensures var lo := idx - 1;
        slots == old(slots)[..lo] + old(slots)[lo + n..] + old(slots)[lo..lo + n]
    {
      hide Reversed;
      ghost var s, lo := slots, idx - 1;
      ghost var p, x, y := s[..lo], s[lo..lo + n], s[lo + n..];
      ReversePart(idx, idx + n - 1, p, x, y);
      Regroup(p, Reversed(x), y);
      ReversePart(idx + n, idx + m - 1, p + Reversed(x), y, []);
      Regroup(p, Reversed(x), Reversed(y));
      ReversePart(idx, idx + m - 1, p, Reversed(x) + Reversed(y), []);
      ThreeReversals(x, y);
      Regroup(p, y, x);
    }

    /** `Reverse`, for a stack given in three parts. */
    method ReversePart(a: nat, b: nat, ghost p: seq<V>, ghost x: seq<V>, ghost y: seq<V>)
      requires slots == p + x + y && |p| == a - 1 && |x| == b - a + 1
      modifies this
      ensures slots == p + Reversed(x) + y
    {
      hide Reversed;
      Slices(p, x, y);
      Reverse(a, b);
    }
  }

  lemma SegmentBack<V>(s: seq<V>, r: seq<V>, q: seq<V>, lo: nat, n: int)
    requires |s| == |r| == |q| && lo <= |s| && -(|s| - lo) <= n <= |s| - lo
    requires s[..lo] == r[..lo] == q[..lo] && IsRotation(s[lo..], n, r[lo..]) && IsRotation(r[lo..], -n, q[lo..])
    ensures q == s
  {
    hide IsRotation;
    RotateBack(s[lo..], n, r[lo..], q[lo..]);
    assert s == s[..lo] + s[lo..] && q == q[..lo] + q[lo..];
  }

  lemma Regroup<V>(p: seq<V>, x: seq<V>, y: seq<V>)
    ensures p + x + y == (p + x) + y + [] == p + (x + y) + []
  {
  }

  lemma Slices<V>(p: seq<V>, x: seq<V>, y: seq<V>)
    ensures var s, i, j := p + x + y, |p|, |p| + |x|;
      s[..i] == p && s[i..] == x + y && s[i..j] == x && s[..j] == p + x && s[j..] == y && s[i..|s|] == x + y
  {
  }

  // ---------- the string buffer ----------

  /** Half of what a size_t can count. */
  const HALF: nat := 0x8000_0000_0000_0000

  /** The capacity luaL_prepbuffsize asks for (compat-5.3.c:669-671). */
  function NewCapacity(capacity: nat, nelems: nat, s: nat): (r: nat)
    ensures r < WORD_LIMIT
  {
    var doubled := Wrap64(capacity * 2);
    if Wrap64(doubled - nelems) < s then Wrap64(nelems + s) else doubled
  }

  /** Room for `s` more elements can be had: without growing, or because the total fits a size_t and
      doubling the capacity does not wrap to less than what is stored. */
  predicate CanHold(capacity: nat, nelems: nat, s: nat) {
    capacity - nelems >= s
    || (nelems + s < WORD_LIMIT && (capacity < HALF || nelems <= 2 * capacity - WORD_LIMIT))
  }

  /** Without wrap-around: twice the capacity, or what is needed if that is more or cannot be counted. */
  function Enlarged(capacity: nat, nelems: nat, s: nat): nat {
    if capacity < HALF && nelems + s <= 2 * capacity then 2 * capacity else nelems + s
  }

  /** The overflow test of line 672 catches every wrapped capacity; a capacity that passes it has room. */
  lemma GrowthSound(capacity: nat, nelems: nat, s: nat)
    requires nelems <= capacity < WORD_LIMIT && s < WORD_LIMIT && capacity - nelems < s
    ensures NewCapacity(capacity, nelems, s) >= capacity <==> CanHold(capacity, nelems, s)
    ensures CanHold(capacity, nelems, s) ==>
      NewCapacity(capacity, nelems, s) == Enlarged(capacity, nelems, s) >= nelems + s
  {
    var doubled := Wrap64(capacity * 2);
    assert doubled == if capacity < HALF then 2 * capacity else 2 * capacity - WORD_LIMIT;
    assert Wrap64(doubled - nelems) == if nelems <= doubled then doubled - nelems else doubled - nelems + WORD_LIMIT;
    assert Wrap64(nelems + s) == if nelems + s < WORD_LIMIT then nelems + s else nelems + s - WORD_LIMIT;
  }

  /** What is refused for certain, and what is granted; the capacity after a growth, in numbers. */
  lemma RoomExact(capacity: nat, nelems: nat, s: nat)
    requires nelems <= capacity < WORD_LIMIT
    ensures capacity - nelems >= s ==> CanHold(capacity, nelems, s)
    ensures CanHold(capacity, nelems, s) ==> nelems + s < WORD_LIMIT
    ensures nelems + s <= HALF ==> CanHold(capacity, nelems, s)
    ensures capacity - nelems < s && CanHold(capacity, nelems, s) ==>
      Enlarged(capacity, nelems, s) == if nelems + s <= 2 * capacity < WORD_LIMIT then 2 * capacity else nelems + s
  {
  }

  /** A growth copies no more elements than it adds capacity, unless the capacity is already half of
      what a size_t can count: then exactly when `s` is at least the capacity. */
  lemma GrowthPays(capacity: nat, nelems: nat, s: nat)
    requires nelems <= capacity < WORD_LIMIT && s < WORD_LIMIT && capacity - nelems < s && CanHold(capacity, nelems, s)
    ensures nelems <= NewCapacity(capacity, nelems, s) - capacity <==> capacity < HALF || s >= capacity
  {
    GrowthSound(capacity, nelems, s);
  }

  // ---------- whole runs of luaL_addlstring, by the lengths of the pieces ----------

  /** A buffer's sizes, and the elements that all its growths have copied. */
  datatype Gauge = Gauge(capacity: nat, nelems: nat, copied: nat)

  ghost predicate Sound(g: Gauge) {
    g.nelems <= g.capacity < WORD_LIMIT
  }

  /** After luaL_buffinit. */
  function Fresh(initial: nat): Gauge {
    Gauge(initial, 0, 0)
  }

  /** After luaL_prepbuffsize has made room for `s`. */
  function Prepared(g: Gauge, s: nat): Gauge {
    if g.capacity - g.nelems >= s then g
    else Gauge(Enlarged(g.capacity, g.nelems, s), g.nelems, g.copied + g.nelems)
  }

  /** After a piece of length `s` has been added. */
  function Added(g: Gauge, s: nat): Gauge {
    var p := Prepared(g, s);
    Gauge(p.capacity, p.nelems + s, p.copied)
  }

  /** How many pieces are added before one is refused. */
  function Accepted(g: Gauge, lens: seq<nat>): (n: nat)
    ensures n <= |lens|
    decreases lens
  {
    if lens == [] || !CanHold(g.capacity, g.nelems, lens[0]) then 0 else 1 + Accepted(Added(g, lens[0]), lens[1..])
  }

  /** The gauge after these pieces. */
  function AfterAll(g: Gauge, lens: seq<nat>): Gauge
    decreases lens
  {
    if lens == [] || !CanHold(g.capacity, g.nelems, lens[0]) then g else AfterAll(Added(g, lens[0]), lens[1..])
  }

  function Total(lens: seq<nat>): nat {
    if lens == [] then 0 else lens[0] + Total(lens[1..])
  }

  ghost predicate Sizes(lens: seq<nat>) {
    forall i :: 0 <= i < |lens| ==> lens[i] < WORD_LIMIT
  }

  /** The growths have copied no more than the capacity they added. */
  predicate Paid(g: Gauge, initial: nat) {
    g.copied <= g.capacity - initial
  }

  /** The smallest capacity past half of what a size_t counts that a run can reach; beyond it the next growth
      may be refused. */
  function Most(initial: nat): nat {
    if initial >= HALF then initial else if 2 * initial > HALF then 2 * initial else HALF
  }

  lemma {:induction false} AcceptedBelow(g: Gauge, start: nat, initial: nat, lens: seq<nat>)
    requires Sound(g) && start <= g.capacity && (g.capacity >= HALF ==> g.capacity >= Most(start))
    requires g.nelems + Total(lens) <= Most(start) < WORD_LIMIT
    ensures Accepted(g, lens) == |lens|
    ensures Paid(g, initial) ==> Paid(AfterAll(g, lens), initial)
    decreases lens
  {
    if lens != [] {
      AcceptedBelow(Added(g, lens[0]), start, initial, lens[1..]);
    }
  }

  /** Every run from a new buffer whose pieces total at most `total` is accepted exactly up to that bound. */
  lemma AcceptanceExact(initial: nat, total: nat)
    requires initial < WORD_LIMIT
    ensures (forall lens | Sizes(lens) && Total(lens) <= total :: Accepted(Fresh(initial), lens) == |lens|)
      <==> total <= Most(initial)
  {
    forall lens | Sizes(lens) && Total(lens) <= total && total <= Most(initial)
      ensures Accepted(Fresh(initial), lens) == |lens|
    {
      AcceptedBelow(Fresh(initial), initial, initial, lens);
    }
    OneTooMany(initial);
  }

  /** One piece that fills the buffer exactly, and one more element. */
  lemma OneTooMany(initial: nat)
    requires initial < WORD_LIMIT
    ensures var lens := [Most(initial), 1];
      Sizes(lens) && Total(lens) == Most(initial) + 1 && Accepted(Fresh(initial), lens) == 1
  {
    var m := Most(initial);
    assert [m, 1][1..] == [1] && [1][1..] == [];
    assert Added(Fresh(initial), m) == Gauge(m, m, 0);
  }

  /** A third of what a size_t counts, rounded up. Doubling a smaller capacity leaves it more than half full
      only where the next doubling would wrap below what is stored. */
  const THIRD: nat := 0x5555_5555_5555_5556

  /** The smallest capacity from a third on that a run can reach before it has gone past half. */
  function Start(initial: nat): nat {
    if initial >= THIRD then initial else if 2 * initial >= THIRD then 2 * initial else THIRD
  }

  /** Some run whose pieces total at most `total` copies more than it adds. */
  predicate CanOverpay(initial: nat, total: nat) {
    if HALF < initial < WORD_LIMIT - 1 then total > initial else Start(initial) < HALF && total > 2 * Start(initial)
  }

  /** What the gauges of all other runs have in common: a capacity past half is the initial one, or full, or
      comes from a doubling and is more than half full. */
  ghost predicate Steady(g: Gauge, initial: nat) {
    && Sound(g) && Paid(g, initial) && (g.capacity >= HALF || Unused(g, initial) || g.capacity >= 2 * initial)
    && (g.capacity < HALF || Unused(g, initial) || g.nelems == g.capacity || Redoubled(g, initial))
  }

  ghost predicate Unused(g: Gauge, initial: nat) {
    g.capacity == initial && g.copied == 0
  }

  ghost predicate Redoubled(g: Gauge, initial: nat) {
    var half := g.capacity / 2;
    g.capacity == 2 * half && g.nelems > half && (half == initial || half >= 2 * initial)
  }

  lemma SteadyStep(g: Gauge, initial: nat, s: nat)
    requires initial < WORD_LIMIT && Steady(g, initial) && CanHold(g.capacity, g.nelems, s)
    requires !CanOverpay(initial, g.nelems + s)
    ensures Steady(Added(g, s), initial)
  {
    if g.capacity - g.nelems < s && g.capacity < HALF && g.nelems + s <= 2 * g.capacity {
      assert 2 * g.capacity / 2 == g.capacity;
    }
  }

  lemma {:induction false} PaidOtherwise(g: Gauge, initial: nat, lens: seq<nat>)
    requires initial < WORD_LIMIT && Steady(g, initial) && !CanOverpay(initial, g.nelems + Total(lens))
    ensures Paid(AfterAll(g, lens), initial)
    decreases lens
  {
    if lens != [] && CanHold(g.capacity, g.nelems, lens[0]) {
      SteadyStep(g, initial, lens[0]);
      PaidOtherwise(Added(g, lens[0]), initial, lens[1..]);
    }
  }

  /** Three pieces: one fills the capacity, two elements double it past half, and one piece needs one more. */
  lemma GrowthCanCostMore(initial: nat)
    requires Start(initial) < HALF
    ensures var c := Start(initial);
      var lens := [c, 2, c - 1];
      && Total(lens) == 2 * c + 1 && Accepted(Fresh(initial), lens) == 3
      && AfterAll(Fresh(initial), lens) == Gauge(2 * c + 1, 2 * c + 1, 2 * c + 2)
      && !Paid(AfterAll(Fresh(initial), lens), initial)
  {
    var c := Start(initial);
    assert [c, 2, c - 1][1..] == [2, c - 1] && [2, c - 1][1..] == [c - 1] && [c - 1][1..] == [];
    assert Total([c - 1]) == c - 1 && Total([2, c - 1]) == c + 1;
    assert Added(Fresh(initial), c) == Gauge(c, c, 0);
    LastPieces(c);
  }

  lemma LastPieces(c: nat)
    requires THIRD <= c < HALF
    ensures Accepted(Gauge(c, c, 0), [2, c - 1]) == 2
    ensures AfterAll(Gauge(c, c, 0), [2, c - 1]) == Gauge(2 * c + 1, 2 * c + 1, 2 * c + 2)
  {
    assert [2, c - 1][1..] == [c - 1] && [c - 1][1..] == [];
    assert Added(Gauge(c, c, 0), 2) == Gauge(2 * c, c + 2, c);
    assert Added(Gauge(2 * c, c + 2, c), c - 1) == Gauge(2 * c + 1, 2 * c + 1, 2 * c + 2);
    assert AfterAll(Gauge(2 * c, c + 2, c), [c - 1]) == Gauge(2 * c + 1, 2 * c + 1, 2 * c + 2);
  }

  /** When the initial capacity is past half already, two pieces do. */
  lemma LargeBufferCanCostMore(initial: nat)
    requires HALF < initial < WORD_LIMIT - 1
    ensures var lens := [2, initial - 1];
      && Total(lens) == initial + 1 && Accepted(Fresh(initial), lens) == 2
      && AfterAll(Fresh(initial), lens) == Gauge(initial + 1, initial + 1, 2)
      && !Paid(AfterAll(Fresh(initial), lens), initial)
  {
    assert [2, initial - 1][1..] == [initial - 1] && [initial - 1][1..] == [];
    assert Total([initial - 1]) == initial - 1;
    assert Added(Fresh(initial), 2) == Gauge(initial, 2, 0);
    assert Added(Gauge(initial, 2, 0), initial - 1) == Gauge(initial + 1, initial + 1, 2);
    assert AfterAll(Gauge(initial, 2, 0), [initial - 1]) == Gauge(initial + 1, initial + 1, 2);
  }

  /** With a buffer of 8192 elements: all three pieces are accepted, and the growths copy one element more than
      the capacity, where the bound would be the capacity less 8192. */
  lemma OverpaidInstance()
    ensures var lens := [0x5555_5555_5555_5556, 2, 0x5555_5555_5555_5555];
      && Sizes(lens) && Accepted(Fresh(8192), lens) == 3
      && AfterAll(Fresh(8192), lens) == Gauge(0xAAAA_AAAA_AAAA_AAAD, 0xAAAA_AAAA_AAAA_AAAD, 0xAAAA_AAAA_AAAA_AAAE)
  {
    hide Accepted, AfterAll, CanHold, Added, Total, Paid;
    GrowthCanCostMore(8192);
  }

  /** Every run from a new buffer whose pieces total at most `total` copies no more than it adds, exactly when
      `total` stays within the bound that the initial capacity sets. */
  lemma PaymentExact(initial: nat, total: nat)
    requires initial < WORD_LIMIT
    ensures (forall lens | Sizes(lens) && Total(lens) <= total :: Paid(AfterAll(Fresh(initial), lens), initial))
      <==> !CanOverpay(initial, total)
  {
    forall lens | Sizes(lens) && Total(lens) <= total && !CanOverpay(initial, total)
      ensures Paid(AfterAll(Fresh(initial), lens), initial)
    {
      PaidOtherwise(Fresh(initial), initial, lens);
    }
    if CanOverpay(initial, total) {
      if HALF < initial {
        LargeBufferCanCostMore(initial);
        assert Sizes([2, initial - 1]);
      } else {
        var c := Start(initial);
        GrowthCanCostMore(initial);
        assert Sizes([c, 2, c - 1]);
      }
    }
  }

  /** luaL_Buffer_53 (compat-5.3.h:105-111) */
  class Buffer {
    var ptr: array<char>
    var nelems: nat
    var capacity: nat
    const initial: nat
    ghost var copied: nat // elements copied by all growths so far

    ghost predicate Valid()
      reads this
    {
      ptr.Length == capacity && nelems <= capacity < WORD_LIMIT
    }

    ghost function Contents(): string
      requires Valid()
      reads this, ptr
    {
      ptr[..nelems]
    }

    ghost function Measure(): Gauge
      reads this
    {
      Gauge(capacity, nelems, copied)
    }

    /** luaL_buffinit (compat-5.3.c:653-663); `size` is LUAL_BUFFERSIZE. */
    constructor (size: nat)
      requires size < WORD_LIMIT
      ensures Valid() && Contents() == "" && Measure() == Fresh(size) && initial == size && fresh(ptr)
    {
      ptr := new char[size];
      nelems, capacity, initial, copied := 0, size, size, 0;
    }

    /** luaL_prepbuffsize (compat-5.3.c:666-682); `ok` is false where the source raises an error. */
    method PrepBuffSize(s: nat) returns (ok: bool)
      requires Valid() && s < WORD_LIMIT
      modifies this
      ensures Valid() && Contents() == old(Contents())
      ensures ok == CanHold(old(capacity), nelems, s)
      ensures Measure() == if ok then Prepared(old(Measure()), s) else old(Measure())
      ensures ok ==> capacity - nelems >= s && nelems + s < 0x1_0000_0000_0000_0000
      ensures nelems + s <= 0x8000_0000_0000_0000 ==> ok
      ensures ok && old(capacity) >= nelems + s ==> capacity == old(capacity)
      ensures ok && old(capacity) < nelems + s ==>
        capacity == if nelems + s <= 2 * old(capacity) < 0x1_0000_0000_0000_0000 then 2 * old(capacity) else nelems + s
      ensures if Measure() == old(Measure()) then ptr == old(ptr) else fresh(ptr)
      ensures ok && old(Paid(Measure(), initial)) && (old(capacity) < HALF || s >= old(capacity)) ==>
        Paid(Measure(), initial)
    {
      hide Enlarged, CanHold, Wrap64;
      RoomExact(capacity, nelems, s);
      if capacity - nelems < s {
        var newcap := Wrap64(capacity * 2);
        if Wrap64(newcap - nelems) < s {
          newcap := Wrap64(nelems + s);
        }
        GrowthSound(capacity, nelems, s);
        if newcap < capacity {
          return false;
        }
        GrowthPays(capacity, nelems, s);
        MoveTo(newcap);
      }
      ok := true;
    }

    /** The new block takes the elements over (compat-5.3.c:674-680). */
    method MoveTo(newcap: nat)
      requires Valid() && capacity <= newcap < WORD_LIMIT
      modifies this
      ensures Valid() && fresh(ptr) && Contents() == old(Contents())
      ensures capacity == newcap && nelems == old(nelems) && copied == old(copied) + nelems
    {
      var newptr := new char[newcap];
      forall i | 0 <= i < nelems {
        newptr[i] := ptr[i];
      }
      copied := copied + nelems;
      ptr := newptr;
      capacity := newcap;
    }

    /** luaL_addlstring (compat-5.3.c:685-688) */
    method AddLString(s: string) returns (ok: bool)
      requires Valid() && |s| < WORD_LIMIT
      modifies this, ptr
      ensures Valid() && (ptr == old(ptr) || fresh(ptr))
      ensures ok == CanHold(old(capacity), old(nelems), |s|)
      ensures Contents() == if ok then old(Contents()) + s else old(Contents())
      ensures Measure() == if ok then Added(old(Measure()), |s|) else old(Measure())
    {
      ok := PrepBuffSize(|s|);
      if ok {
        forall i | 0 <= i < |s| {
          ptr[nelems + i] := s[i];
        }
        nelems := nelems + |s|;
      }
    }

    /** luaL_pushresult (compat-5.3.c:703-707): the string that is pushed. */
    method PushResult() returns (r: string)
      requires Valid()
      ensures r == Contents()
    {
      r := ptr[..nelems];
    }

    /** Any run of luaL_addlstring: the buffer holds the pieces in order, up to the first one refused; none is
        refused, and the copying is paid for, as long as the total is at most half of what a size_t counts. */
    method AddAll(pieces: seq<string>) returns (ok: bool)
      requires Valid() && Sizes(Lengths(pieces))
      modifies this, ptr
      ensures var lens := Lengths(pieces);
        var n := Accepted(old(Measure()), lens);
        && Valid() && ok == (n == |pieces|) && Measure() == AfterAll(old(Measure()), lens)
        && Contents() == old(Contents()) + Joined(pieces[..n])
      ensures old(nelems) + Total(Lengths(pieces)) <= HALF ==>
        ok && (old(Paid(Measure(), initial)) ==> Paid(Measure(), initial))
      ensures old(Measure()) == Fresh(initial) ==>
        && (Total(Lengths(pieces)) <= Most(initial) ==> ok)
        && (!CanOverpay(initial, Total(Lengths(pieces))) ==> Paid(Measure(), initial))
    {
      hide CanHold, Added, Paid, Total, Most, CanOverpay, Sizes, Accepted, AfterAll, Lengths, Joined;
      ghost var g, lens := Measure(), Lengths(pieces);
      RunBounds(g, initial, lens);
      ok := true;
      assert lens[0..] == lens;
      NothingJoined(pieces);
      for i := 0 to |pieces|
        invariant ok && Valid() && (ptr == old(ptr) || fresh(ptr))
        invariant Accepted(g, lens) == i + Accepted(Measure(), lens[i..])
        invariant AfterAll(g, lens) == AfterAll(Measure(), lens[i..])
        invariant Contents() == old(Contents()) + Joined(pieces[..i])
      {
        RunStep(Measure(), lens, i);
        assert lens[i] == |pieces[i]|;
        JoinedOneMore(pieces, i);
        ok := AddLString(pieces[i]);
        if !ok {
          return;
        }
      }
      NothingLeft(Measure(), lens);
    }
  }

  lemma RunStep(g: Gauge, lens: seq<nat>, i: nat)
    requires Sizes(lens) && i < |lens|
    ensures lens[i] < WORD_LIMIT
    ensures Accepted(g, lens[i..]) ==
      if CanHold(g.capacity, g.nelems, lens[i]) then 1 + Accepted(Added(g, lens[i]), lens[i + 1..]) else 0
    ensures AfterAll(g, lens[i..]) ==
      if CanHold(g.capacity, g.nelems, lens[i]) then AfterAll(Added(g, lens[i]), lens[i + 1..]) else g
  {
    assert lens[i..][0] == lens[i] && lens[i..][1..] == lens[i + 1..];
  }

  lemma FreshFacts(initial: nat)
    ensures Fresh(initial).capacity == initial && Fresh(initial).nelems == 0
    ensures initial < WORD_LIMIT ==> Steady(Fresh(initial), initial)
  {
  }

  lemma MostBounds(capacity: nat)
    requires capacity < WORD_LIMIT
    ensures HALF <= Most(capacity) < WORD_LIMIT && capacity <= Most(capacity)
    ensures capacity >= HALF ==> capacity == Most(capacity)
  {
  }

  lemma RunBounds(g: Gauge, initial: nat, lens: seq<nat>)
    requires Sound(g)
    ensures g.nelems + Total(lens) <= HALF ==>
      Accepted(g, lens) == |lens| && (Paid(g, initial) ==> Paid(AfterAll(g, lens), initial))
    ensures g == Fresh(initial) ==>
      && (Total(lens) <= Most(initial) ==> Accepted(g, lens) == |lens|)
      && (!CanOverpay(initial, Total(lens)) ==> Paid(AfterAll(g, lens), initial))
  {
    FreshFacts(initial);
    hide Accepted, AfterAll, Total, Paid, Most, CanOverpay, Steady, Fresh;
    MostBounds(g.capacity);
    if g.nelems + Total(lens) <= HALF {
      AcceptedBelow(g, g.capacity, initial, lens);
    }
    if g == Fresh(initial) && Total(lens) <= Most(initial) {
      AcceptedBelow(g, initial, initial, lens);
    }
    if g == Fresh(initial) && !CanOverpay(initial, Total(lens)) {
      PaidOtherwise(g, initial, lens);
    }
  }

  lemma NothingLeft(g: Gauge, lens: seq<nat>)
    ensures Accepted(g, lens[|lens|..]) == 0 && AfterAll(g, lens[|lens|..]) == g
  {
  }

  function Lengths(pieces: seq<string>): (lens: seq<nat>)
    ensures |lens| == |pieces| && forall i :: 0 <= i < |pieces| ==> lens[i] == |pieces[i]|
  {
    seq(|pieces|, i requires 0 <= i < |pieces| => |pieces[i]|)
  }

  function Joined(pieces: seq<string>): string {
    if pieces == [] then "" else Joined(pieces[..|pieces| - 1]) + pieces[|pieces| - 1]
  }

  lemma NothingJoined(pieces: seq<string>)
    ensures Joined(pieces[..0]) == ""
  {
  }

  lemma JoinedOneMore(pieces: seq<string>, i: nat)
    requires i < |pieces|
    ensures Joined(pieces[..i + 1]) == Joined(pieces[..i]) + pieces[i]
    ensures i + 1 == |pieces| ==> pieces[..i + 1] == pieces
  {
    assert pieces[..i + 1][..i] == pieces[..i];
  }
}
