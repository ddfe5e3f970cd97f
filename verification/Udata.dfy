/** The object registry of src/udata.c: a red-black tree of records keyed by a 64-bit identifier. */
module UdataRegistry {
  import opened TreeOrder
  import RbTree
  import opened Common

  /** A record: its search key, the memory Lua gave it, and its metatable's name (udata.c:34-41). */
  datatype Udata = Udata(id: nat, mem: nat, mt: nat)

  datatype Result<+T> = Ok(value: T) | Duplicated | Invalid

  /** udata.c:45-46 */
  function ById(x: Udata, y: Udata): int {
    if x.id < y.id then -1 else if x.id > y.id then 1 else 0
  }

  lemma ByIdLawful()
    ensures Lawful(ById)
  {
    forall x, y, z
      ensures LawfulAt(ById, x, y, z)
    {
    }
  }

  /** The identifier after `id`, in 64-bit arithmetic (udata.c:191). */
  function NextId(id: nat): nat
    requires id < WORD_LIMIT
  {
    Wrap64(id + 1)
  }

  // ---------- what a tree of records means ----------

  type Table = map<nat, Udata>

  ghost function TableOf(s: seq<Elem<Udata>>): (t: Table)
    requires Sorted(ById, s)
    ensures forall e <- s :: e.key.id in t && t[e.key.id] == e.key
    ensures forall id <- t :: exists e <- s :: e.key == t[id] && e.key.id == id
  {
    map e | e in s :: e.key.id := e.key
  }

  lemma SomethingListed(s: seq<Elem<Udata>>)
    requires Sorted(ById, s) && s != []
    ensures TableOf(s) != map[]
  {
    assert s[0].key.id in TableOf(s);
  }

  lemma TableInserted(s: seq<Elem<Udata>>, e: Elem<Udata>, s': seq<Elem<Udata>>)
    requires Sorted(ById, s) && Sorted(ById, s') && InsertedInto(s, e, s') && e.key.id !in TableOf(s)
    ensures TableOf(s') == TableOf(s)[e.key.id := e.key]
  {
    InsertedMembers(s, e, s');
    TableWith(s, e, s');
  }

  lemma TableWith(s: seq<Elem<Udata>>, e: Elem<Udata>, s': seq<Elem<Udata>>)
    requires Sorted(ById, s) && Sorted(ById, s') && forall x :: x in s' <==> x in s || x == e
    requires e.key.id !in TableOf(s)
    ensures TableOf(s') == TableOf(s)[e.key.id := e.key]
  {
    hide Sorted, TableOf;
    var t, t' := TableOf(s), TableOf(s');
    forall id | id in t'
      ensures id in t || id == e.key.id
    {
      var x :| x in s' && x.key.id == id;
    }
    forall id | id in t
      ensures id in t' && t'[id] == t[id]
    {
      var x :| x in s && x.key.id == id;
    }
  }

  lemma TableRemoved(s: seq<Elem<Udata>>, e: Elem<Udata>, s': seq<Elem<Udata>>)
    requires Sorted(ById, s) && Sorted(ById, s') && RemovedFrom(s, e, s')
    ensures TableOf(s') == TableOf(s) - {e.key.id} && e.key.id in TableOf(s)
  {
    ByIdLawful();
    RemovedMembers(ById, s, e, s');
    SameId(s, e);
    TableWithout(s, e, s');
  }

  lemma TableWithout(s: seq<Elem<Udata>>, e: Elem<Udata>, s': seq<Elem<Udata>>)
    requires Sorted(ById, s) && Sorted(ById, s') && e in s && forall x :: x in s' <==> x in s && x != e
    requires forall x <- s :: x.key.id == e.key.id ==> x == e
    ensures TableOf(s') == TableOf(s) - {e.key.id} && e.key.id in TableOf(s)
  {
    hide Sorted, TableOf;
    var t, t' := TableOf(s), TableOf(s');
    forall id | id in t'
      ensures id in t && id != e.key.id && t[id] == t'[id]
    {
      var x :| x in s' && x.key.id == id;
    }
    forall id | id in t && id != e.key.id
      ensures id in t'
    {
      var x :| x in s && x.key.id == id;
    }
  }

  lemma SameId(s: seq<Elem<Udata>>, e: Elem<Udata>)
    requires Sorted(ById, s) && e in s
    ensures forall x <- s :: x.key.id == e.key.id ==> x == e
  {
    ByIdLawful();
    hide Sorted, Lawful;
    forall x | x in s && x.key.id == e.key.id
      ensures x == e
    {
      SameKey(ById, s, x, e);
    }
  }

  /** `r` is the object of `t` with the identifier `id`, if there is one. */
  ghost predicate ObjectAt(t: Table, id: nat, r: Elem?<Udata>) {
    if r == null then id !in t else id in t && r.key == t[id] && r.key.id == id
  }

  /** `r` is the object of `t` with the least identifier from `id` on, if there is one. */
  ghost predicate FirstObject(t: Table, id: nat, r: Elem?<Udata>) {
    IsFirst(t, id, if r == null then None else Some(r.key.id)) && (r != null ==> t[r.key.id] == r.key)
  }

  lemma FirstOf(s: seq<Elem<Udata>>, at: nat, id: nat, r: Elem?<Udata>)
    requires Sorted(ById, s) && Below(ById, s, at, Udata(id, 0, 0))
    requires r == (if at < |s| then s[at] else null) && (r != null ==> id <= r.key.id)
    ensures FirstObject(TableOf(s), id, r)
  {
    hide Sorted, Below, TableOf;
    var t := TableOf(s);
    forall k | k in t
      ensures k < id || (r != null && r.key.id <= k)
    {
      var e :| e in s && e.key.id == k;
      var i :| 0 <= i < |s| && s[i] == e;
      FirstBySearch(s, at, id, i);
    }
    if r != null {
      assert r in s;
    }
  }

  lemma FirstBySearch(s: seq<Elem<Udata>>, at: nat, id: nat, i: nat)
    requires Sorted(ById, s) && Below(ById, s, at, Udata(id, 0, 0)) && i < |s|
    ensures if i < at then s[i].key.id < id else s[at].key.id <= s[i].key.id
  {
    assert i < at ==> ById(Udata(id, 0, 0), s[i].key) > 0;
    assert at < i ==> ById(s[at].key, s[i].key) < 0;
  }

  // ---------- a scan ----------

  /** What a callback does: the identifiers it frees, and whether it interrupts the scan. It may
      depend on anything, so it is given the number of the call as well as the object. */
  type Callback = (nat, Udata) -> (seq<nat>, bool)

  /** One of the first `n` calls frees `id`. */
  ghost predicate Freed(func: Callback, calls: seq<Udata>, n: nat, id: nat) {
    n <= |calls| && exists i :: 0 <= i < n && id in func(i, calls[i]).0
  }

  ghost predicate Ascending(calls: seq<Udata>) {
    forall i, j :: 0 <= i < j < |calls| ==> calls[i].id < calls[j].id
  }

  /** Every call is made on a matching object that is still registered at that moment. */
  ghost predicate CallsAreDue(t: Table, mt: nat, func: Callback, calls: seq<Udata>) {
    forall j :: 0 <= j < |calls| ==>
      var u := calls[j]; u.mt == mt && u.id in t && t[u.id] == u && !Freed(func, calls, j, u.id)
  }

  /** A call on a smaller identifier frees `id`: since the calls ascend, it is gone before its turn. */
  ghost predicate FreedBefore(func: Callback, calls: seq<Udata>, id: nat) {
    exists i :: 0 <= i < |calls| && calls[i].id < id && id in func(i, calls[i]).0
  }

  /** Every matching object with an identifier below `bound` was called, or freed before its turn. */
  ghost predicate AllReached(t: Table, mt: nat, func: Callback, calls: seq<Udata>, bound: nat) {
    forall id <- t | id < bound && t[id].mt == mt :: t[id] in calls || FreedBefore(func, calls, id)
  }

  ghost predicate CallsBelow(calls: seq<Udata>, bound: nat) {
    forall u <- calls :: u.id < bound
  }

  /** What is left of the table after the calls. */
  ghost predicate LeftBy(t: Table, t': Table, func: Callback, calls: seq<Udata>) {
    && (forall id <- t' :: id in t && t'[id] == t[id])
    && (forall id <- t :: id in t' <==> !Freed(func, calls, |calls|, id))
  }

  /** What a scan has established when it is about to look for identifiers from `bound` on. */
  ghost predicate Scanned(t: Table, t1: Table, mt: nat, func: Callback, calls: seq<Udata>, bound: nat) {
    && Ascending(calls) && CallsAreDue(t, mt, func, calls) && LeftBy(t, t1, func, calls)
    && AllReached(t, mt, func, calls, bound) && CallsBelow(calls, bound)
  }

  lemma FreedOneMore(func: Callback, calls: seq<Udata>, u: Udata)
    ensures forall n: nat, id :: n <= |calls| ==> Freed(func, calls + [u], n, id) == Freed(func, calls, n, id)
    ensures forall id ::
      Freed(func, calls + [u], |calls| + 1, id) <==> Freed(func, calls, |calls|, id) || id in func(|calls|, u).0
  {
    var c := calls + [u];
    assert forall i :: 0 <= i < |calls| ==> c[i] == calls[i];
    forall id | Freed(func, calls, |calls|, id) || id in func(|calls|, u).0
      ensures Freed(func, c, |calls| + 1, id)
    {
      assert c[|calls|] == u;
      if Freed(func, calls, |calls|, id) {
        var i :| 0 <= i < |calls| && id in func(i, calls[i]).0;
        assert id in func(i, c[i]).0;
      }
    }
    forall n: nat, id | n <= |calls| && Freed(func, calls, n, id)
      ensures Freed(func, c, n, id)
    {
      var i :| 0 <= i < n && id in func(i, calls[i]).0;
      assert id in func(i, c[i]).0;
    }
  }

  lemma CallIsDue(t: Table, t1: Table, mt: nat, func: Callback, calls: seq<Udata>, u: Udata)
    requires CallsAreDue(t, mt, func, calls) && LeftBy(t, t1, func, calls)
    requires u.id in t1 && t1[u.id] == u && u.mt == mt
    ensures CallsAreDue(t, mt, func, calls + [u])
  {
    FreedOneMore(func, calls, u);
    hide Freed;
  }

  lemma CallLeaves(t: Table, t1: Table, t2: Table, func: Callback, calls: seq<Udata>, u: Udata)
    requires LeftBy(t, t1, func, calls) && t2 == t1 - (set id | id in func(|calls|, u).0)
    ensures LeftBy(t, t2, func, calls + [u])
  {
    FreedOneMore(func, calls, u);
    hide Freed;
  }

  /** Whatever the calls so far freed at or beyond the cursor was freed before its turn. */
  lemma Reached(t: Table, t1: Table, mt: nat, func: Callback, calls: seq<Udata>, bound: nat, id: nat)
    requires AllReached(t, mt, func, calls, bound) && LeftBy(t, t1, func, calls) && CallsBelow(calls, bound)
    requires id in t && t[id].mt == mt && (id in t1 ==> id < bound)
    ensures t[id] in calls || FreedBefore(func, calls, id)
  {
    if id >= bound {
      assert Freed(func, calls, |calls|, id);
      var i :| 0 <= i < |calls| && id in func(i, calls[i]).0;
      assert calls[i] in calls;
    }
  }

  lemma FreedBeforeGrows(func: Callback, calls: seq<Udata>, u: Udata, id: nat)
    requires FreedBefore(func, calls, id)
    ensures FreedBefore(func, calls + [u], id)
  {
    var i :| 0 <= i < |calls| && calls[i].id < id && id in func(i, calls[i]).0;
    assert (calls + [u])[i] == calls[i];
  }

  lemma CallReaches(t: Table, t1: Table, mt: nat, func: Callback, calls: seq<Udata>, bound: nat, u: Udata)
    requires AllReached(t, mt, func, calls, bound) && LeftBy(t, t1, func, calls) && CallsBelow(calls, bound)
    requires u.id in t1 && t1[u.id] == u && forall k <- t1 :: k < bound || u.id <= k
    ensures AllReached(t, mt, func, calls + [u], u.id + 1)
  {
    forall id | id in t && id < u.id + 1 && t[id].mt == mt
      ensures t[id] in calls + [u] || FreedBefore(func, calls + [u], id)
    {
      if id == u.id {
        assert t[id] == u;
      } else {
        Reached(t, t1, mt, func, calls, bound, id);
        if t[id] !in calls {
          FreedBeforeGrows(func, calls, u, id);
        }
      }
    }
  }

  lemma SkipReaches(t: Table, t1: Table, mt: nat, func: Callback, calls: seq<Udata>, bound: nat, u: Udata)
    requires AllReached(t, mt, func, calls, bound) && LeftBy(t, t1, func, calls) && CallsBelow(calls, bound)
    requires u.id in t1 && t1[u.id] == u && u.mt != mt && forall k <- t1 :: k < bound || u.id <= k
    ensures AllReached(t, mt, func, calls, u.id + 1)
  {
    forall id | id in t && id < u.id + 1 && t[id].mt == mt
      ensures t[id] in calls || FreedBefore(func, calls, id)
    {
      Reached(t, t1, mt, func, calls, bound, id);
    }
  }

  /** A turn of the scan with a call. */
  lemma Called(t: Table, t1: Table, t2: Table, mt: nat, func: Callback, calls: seq<Udata>, bound: nat, r: Elem<Udata>)
    requires Scanned(t, t1, mt, func, calls, bound) && FirstObject(t1, bound, r) && r.key.mt == mt
    requires t2 == t1 - (set id | id in func(|calls|, r.key).0)
    ensures Scanned(t, t2, mt, func, calls + [r.key], r.key.id + 1)
  {
    hide CallsAreDue, LeftBy, AllReached;
    CallIsDue(t, t1, mt, func, calls, r.key);
    CallLeaves(t, t1, t2, func, calls, r.key);
    CallReaches(t, t1, mt, func, calls, bound, r.key);
  }

  /** A turn of the scan past an object of another type. */
  lemma Skipped(t: Table, t1: Table, mt: nat, func: Callback, calls: seq<Udata>, bound: nat, r: Elem<Udata>)
    requires Scanned(t, t1, mt, func, calls, bound) && FirstObject(t1, bound, r) && r.key.mt != mt
    ensures Scanned(t, t1, mt, func, calls, r.key.id + 1)
  {
    hide CallsAreDue, LeftBy, AllReached;
    SkipReaches(t, t1, mt, func, calls, bound, r.key);
  }

  lemma ScanStarts(t: Table, mt: nat, func: Callback)
    ensures Scanned(t, t, mt, func, [], 0)
  {
  }

  lemma ScanResult(t: Table, t1: Table, mt: nat, func: Callback, calls: seq<Udata>, bound: nat)
    requires Scanned(t, t1, mt, func, calls, bound)
    ensures Ascending(calls) && CallsAreDue(t, mt, func, calls) && LeftBy(t, t1, func, calls)
    ensures AllReached(t, mt, func, calls, bound)
    ensures FirstObject(t1, bound, null) ==> AllReached(t, mt, func, calls, WORD_LIMIT)
  {
    hide CallsAreDue, LeftBy, FreedBefore, Ascending;
    if FirstObject(t1, bound, null) {
      forall id | id in t && t[id].mt == mt
        ensures t[id] in calls || FreedBefore(func, calls, id)
      {
        Reached(t, t1, mt, func, calls, bound, id);
      }
    }
  }

  ghost predicate Bounded(t: Table) {
    forall id <- t :: id < WORD_LIMIT
  }

  /** What a scan does: `calls` are made, in this order, and the last of them interrupts it if any does. */
  ghost predicate IsScan(t: Table, mt: nat, func: Callback, calls: seq<Udata>, interrupted: bool) {
    && Ascending(calls) && CallsAreDue(t, mt, func, calls)
    && (forall i :: 0 <= i < |calls| ==> (func(i, calls[i]).1 <==> interrupted && i == |calls| - 1))
    && (interrupted ==> calls != [])
    && AllReached(t, mt, func, calls, if interrupted then calls[|calls| - 1].id + 1 else WORD_LIMIT)
  }

  /** An object called as number `n` was not called, and not freed, by an earlier call. */
  lemma NotBefore(t: Table, mt: nat, func: Callback, calls: seq<Udata>, n: nat, i: nat)
    requires Ascending(calls) && CallsAreDue(t, mt, func, calls) && i < n < |calls|
    ensures calls[i] != calls[n] && calls[n].id !in func(i, calls[i]).0
  {
    assert !Freed(func, calls, n, calls[n].id);
  }

  /** A matching object within reach that the first `n` calls neither visited nor freed is due by call `n`. */
  lemma DueByNow(t: Table, mt: nat, func: Callback, d: seq<Udata>, bound: nat, n: nat, u: Udata)
    requires Ascending(d) && AllReached(t, mt, func, d, bound) && n <= |d|
    requires u.id in t && t[u.id] == u && u.mt == mt && u.id < bound
    requires forall i :: 0 <= i < n ==> d[i] != u && u.id !in func(i, d[i]).0
    ensures n < |d| && d[n].id <= u.id
  {
    if u in d {
      var j :| 0 <= j < |d| && d[j] == u;
      assert n <= j;
    } else {
      var j :| 0 <= j < |d| && d[j].id < u.id && u.id in func(j, d[j]).0;
      assert n <= j;
    }
  }

  /** Where one scan goes on after `n` calls, the other has not been interrupted by them. */
  lemma GoesOn(t: Table, mt: nat, func: Callback, c: seq<Udata>, stop: bool, d: seq<Udata>, stop': bool, n: nat)
    requires IsScan(t, mt, func, c, stop) && IsScan(t, mt, func, d, stop')
    requires n < |c| && n <= |d| && forall i :: 0 <= i < n ==> c[i] == d[i]
    ensures stop' ==> n < |d| && d[n].id <= d[|d| - 1].id
  {
    hide CallsAreDue, AllReached;
    if n > 0 {
      assert !func(n - 1, c[n - 1]).1;
    }
  }

  lemma SameNext(t: Table, mt: nat, func: Callback, c: seq<Udata>, stop: bool, d: seq<Udata>, stop': bool, n: nat)
    requires Bounded(t) && IsScan(t, mt, func, c, stop) && IsScan(t, mt, func, d, stop')
    requires n < |c| && n <= |d| && forall i :: 0 <= i < n ==> c[i] == d[i]
    ensures n < |d| && d[n].id <= c[n].id
  {
    var bound := if stop' then d[|d| - 1].id + 1 else WORD_LIMIT;
    forall i | 0 <= i < n
      ensures d[i] != c[n] && c[n].id !in func(i, d[i]).0
    {
      NotBefore(t, mt, func, c, n, i);
    }
    GoesOn(t, mt, func, c, stop, d, stop', n);
    CalledObject(t, mt, func, c, n);
    hide Ascending, CallsAreDue, AllReached;
    if c[n].id < bound {
      DueByNow(t, mt, func, d, bound, n, c[n]);
    }
  }

  lemma CalledObject(t: Table, mt: nat, func: Callback, c: seq<Udata>, n: nat)
    requires CallsAreDue(t, mt, func, c) && n < |c|
    ensures c[n].id in t && t[c[n].id] == c[n] && c[n].mt == mt
  {
  }

  lemma {:induction false} SamePrefix(
      t: Table, mt: nat, func: Callback, c: seq<Udata>, stop: bool, d: seq<Udata>, stop': bool, n: nat)
    requires Bounded(t) && IsScan(t, mt, func, c, stop) && IsScan(t, mt, func, d, stop') && n <= |c|
    ensures n <= |d| && forall i :: 0 <= i < n ==> c[i] == d[i]
  {
    hide Bounded, Ascending, CallsAreDue, AllReached;
    if n > 0 {
      SamePrefix(t, mt, func, c, stop, d, stop', n - 1);
      SameNext(t, mt, func, c, stop, d, stop', n - 1);
      SameNext(t, mt, func, d, stop', c, stop, n - 1);
      CalledObject(t, mt, func, c, n - 1);
      CalledObject(t, mt, func, d, n - 1);
    }
  }

  /** The contract of a scan leaves nothing open: table and callback determine the calls, whether the scan is
      interrupted, and what is left. */
  lemma ScanDetermined(
      t: Table, mt: nat, func: Callback,
      c: seq<Udata>, stop: bool, left: Table, d: seq<Udata>, stop': bool, left': Table)
    requires Bounded(t) && IsScan(t, mt, func, c, stop) && IsScan(t, mt, func, d, stop')
    requires LeftBy(t, left, func, c) && LeftBy(t, left', func, d)
    ensures c == d && stop == stop' && left == left'
  {
    SamePrefix(t, mt, func, c, stop, d, stop', |c|);
    SamePrefix(t, mt, func, d, stop', c, stop, |d|);
    assert c == d;
    hide Freed, Ascending, CallsAreDue, AllReached;
  }

  // ---------- the one identifier a scan cannot get past ----------

  ghost function LeastFrom(t: Table, id: nat): (least: nat)
    requires Bounded(t) && exists k <- t :: id <= k
    ensures least in t && id <= least && forall k <- t :: k < id || least <= k
    decreases WORD_LIMIT - id
  {
    if id in t then id else LeastFrom(t, id + 1)
  }

  /** Where a scan that frees nothing and is never interrupted looks after `n` turns; -1 once it has ended. */
  ghost function StartAfter(t: Table, n: nat): (id: int)
    requires Bounded(t)
    ensures -1 <= id < WORD_LIMIT
  {
    if n == 0 then 0 else
    var id := StartAfter(t, n - 1);
    if id >= 0 && exists k <- t :: id <= k then NextId(LeastFrom(t, id)) else -1
  }

  lemma NextIdWraps(id: nat)
    requires id < WORD_LIMIT
    ensures NextId(id) == if id == WORD_LIMIT - 1 then 0 else id + 1
  {
  }

  /** With the identifier 2^64-1 registered such a scan never ends, because its successor wraps to 0;
      without it, every turn moves on, so that no more turns follow than there are identifiers. */
  lemma {:induction false} ScanEnds(t: Table, n: nat)
    requires Bounded(t)
    ensures WORD_LIMIT - 1 in t ==> StartAfter(t, n) >= 0
    ensures WORD_LIMIT - 1 !in t ==> StartAfter(t, n) == -1 || StartAfter(t, n) >= n
    ensures WORD_LIMIT - 1 !in t && n >= WORD_LIMIT ==> StartAfter(t, n) == -1
  {
    hide LeastFrom, NextId;
    if n > 0 {
      ScanEnds(t, n - 1);
      var id := StartAfter(t, n - 1);
      if id >= 0 && exists k <- t :: id <= k {
        NextIdWraps(LeastFrom(t, id));
      }
    }
  }

  class Registry {
    const tree: RbTree.Head<Udata>

    ghost function Repr(): set<object>
      reads tree
    {
      {tree} + tree.nodes
    }

    ghost predicate Valid()
      reads tree, tree.nodes
    {
      && tree.Valid() && tree.cmp == ById && Sorted(ById, tree.Contents())
      && forall e <- tree.Contents() :: e.key.id < WORD_LIMIT
    }

    ghost function Entries(): Table
      requires Valid()
      reads tree, tree.nodes
    {
      TableOf(tree.Contents())
    }

    lemma InOrderOfIds()
      requires tree.Valid() && tree.cmp == ById
      ensures Sorted(ById, tree.Contents())
    {
    }

    constructor ()
      ensures Valid() && Entries() == map[] && fresh(tree)
    {
      ByIdLawful();
      tree := new RbTree.Head(ById);
    }

    /** udata_search (udata.c:57-58) */
    method Search(id: nat) returns (r: Elem?<Udata>)
      requires Valid()
      ensures ObjectAt(Entries(), id, r) && (r != null ==> r in tree.nodes && r in tree.Contents())
    {
      hide RbTree.Head.Valid, RbTree.Head.Contents, TableOf, Sorted, InsertedInto, RemovedFrom;
      ghost var steps;
      r, steps := tree.Find(Udata(id, 0, 0));
    }

    /** udata_first (udata.c:59-60): the registered object with the least identifier from `id` on. */
    method First(id: nat) returns (r: Elem?<Udata>)
      requires Valid()
      ensures FirstObject(Entries(), id, r) && (r != null ==> r in tree.nodes && r.key.id < WORD_LIMIT)
    {
      hide RbTree.Head.Valid, RbTree.Head.Contents, TableOf, Sorted, Below, InsertedInto, RemovedFrom;
      ghost var at, steps;
      r, at, steps := tree.NFind(Udata(id, 0, 0));
      FirstOf(tree.Contents(), at, id, r);
    }

    /** udata_new (udata.c:74-114): `mem` is the address Lua returned, used as identifier when `id0` is 0. */
    method New(id0: nat, mem: nat, mt: nat) returns (r: Result<nat>)
      requires Valid() && id0 < WORD_LIMIT && mem < WORD_LIMIT
      modifies tree, tree.nodes
      ensures Valid() && fresh(Repr() - old(Repr()))
      ensures var id := if id0 != 0 then id0 else mem;
        if id in old(Entries()) then r == Duplicated && Entries() == old(Entries())
        else r == Ok(mem) && Entries() == old(Entries())[id := Udata(id, mem, mt)]
    {
      hide RbTree.Head.Valid, RbTree.Head.Contents, TableOf, Sorted, InsertedInto, RemovedFrom;
      var id := if id0 != 0 then id0 else mem;
      var found := Search(id);
      if found != null {
        return Duplicated;
      }
      ghost var s := tree.Contents();
      var elm := new Elem(Udata(id, mem, mt));
      var hit := tree.Insert(elm);
      InOrderOfIds();
      InsertedMembers(s, elm, tree.Contents());
      TableInserted(s, elm, tree.Contents());
      r := Ok(mem);
    }

    /** udata_free (udata.c:137-152) */
    method Free(id: nat) returns (r: Result<()>)
      requires Valid()
      modifies tree, tree.nodes
      ensures Valid() && Repr() <= old(Repr())
      ensures Entries() == old(Entries()) - {id}
      ensures r == if id in old(Entries()) then Ok(()) else Invalid
    {
      hide RbTree.Head.Valid, RbTree.Head.Contents, TableOf, Sorted, InsertedInto, RemovedFrom;
      var elm := Search(id);
      if elm == null {
        return Invalid;
      }
      Drop(elm);
      r := Ok(());
    }

    /** RB_REMOVE on a record that is in the tree. */
    method Drop(elm: Elem<Udata>)
      requires Valid() && elm in tree.nodes
      modifies tree, tree.nodes
      ensures Valid() && Repr() <= old(Repr()) && tree.nodes == old(tree.nodes) - {elm}
      ensures elm.key.id in old(Entries()) && Entries() == old(Entries()) - {elm.key.id}
    {
      hide RbTree.Head.Valid, RbTree.Head.Contents, TableOf, Sorted, InsertedInto, RemovedFrom;
      ghost var s := tree.Contents();
      var _ := tree.Remove(elm);
      InOrderOfIds();
      ByIdLawful();
      RemovedMembers(ById, s, elm, tree.Contents());
      TableRemoved(s, elm, tree.Contents());
    }

    /** udata_mem (udata.c:116-120) and, without the Lua side, udata_push (udata.c:155-165). */
    method Mem(id: nat) returns (r: Result<nat>)
      requires Valid()
      ensures id in Entries() ==> r == Ok(Entries()[id].mem)
      ensures id !in Entries() ==> r == Invalid
    {
      hide RbTree.Head.Valid, RbTree.Head.Contents, TableOf, Sorted, InsertedInto, RemovedFrom;
      var elm := Search(id);
      r := if elm == null then Invalid else Ok(elm.key.mem);
    }

    /** udata_free_all (udata.c:167-176) */
    method FreeAll()
      requires Valid()
      modifies tree, tree.nodes
      ensures Valid() && Entries() == map[] && tree.Contents() == []
    {
      hide RbTree.Head.Valid, RbTree.Head.Contents, TableOf, Sorted, InsertedInto, RemovedFrom;
      var elm := First(0);
      while elm != null
        invariant Valid() && Repr() <= old(Repr())
        invariant elm != null ==> elm in tree.nodes
        invariant elm == null ==> Entries() == map[]
        decreases tree.nodes
      {
        Drop(elm);
        elm := First(0);
      }
      if tree.Contents() != [] {
        SomethingListed(tree.Contents());
      }
    }

    /** The callback's own part: it frees objects one after the other; freeing an object twice, or one
        that is not registered, changes nothing. */
    method FreeEach(ids: seq<nat>)
      requires Valid()
      modifies tree, tree.nodes
      ensures Valid() && Repr() <= old(Repr())
      ensures Entries() == old(Entries()) - (set id | id in ids)
    {
      hide RbTree.Head.Valid, RbTree.Head.Contents, TableOf, Sorted, InsertedInto, RemovedFrom;
      for i := 0 to |ids|
        invariant Valid() && Repr() <= old(Repr())
        invariant Entries() == old(Entries()) - (set id | id in ids[..i])
      {
        var _ := Free(ids[i]);
        assert ids[..i + 1] == ids[..i] + [ids[i]];
      }
      assert ids[..|ids|] == ids;
    }

    /** udata_scan (udata.c:178-199). `calls` records the objects `func` was called on. */
    method Scan(mt: nat, func: Callback) returns (interrupted: bool, ghost calls: seq<Udata>)
      requires Valid() && forall id <- Entries() :: id < WORD_LIMIT - 1
      modifies tree, tree.nodes
      ensures Valid() && Repr() <= old(Repr())
      ensures IsScan(old(Entries()), mt, func, calls, interrupted)
      ensures LeftBy(old(Entries()), Entries(), func, calls)
    {
      hide RbTree.Head.Valid, RbTree.Head.Contents, TableOf, Sorted, InsertedInto, RemovedFrom;
      hide Scanned, CallsAreDue, LeftBy, AllReached, Ascending, Freed;
      ghost var t := Entries();
      calls := [];
      var n, id := 0, 0;
      var elm := First(id);
      ScanStarts(t, mt, func);
      while elm != null
        invariant Valid() && Repr() <= old(Repr()) && n == |calls| && id < WORD_LIMIT
        invariant Scanned(t, Entries(), mt, func, calls, id) && FirstObject(Entries(), id, elm)
        invariant forall i :: 0 <= i < |calls| ==> !func(i, calls[i]).1
        invariant forall k <- Entries() :: k < WORD_LIMIT - 1
        decreases WORD_LIMIT - id
      {
        ghost var t1, bound := Entries(), id;
        id := NextId(elm.key.id);
        if elm.key.mt == mt {
          var (ids, stop) := func(n, elm.key);
          FreeEach(ids);
          Called(t, t1, Entries(), mt, func, calls, bound, elm);
          n, calls := n + 1, calls + [elm.key];
          if stop {
            ScanResult(t, Entries(), mt, func, calls, elm.key.id + 1);
            return true, calls;
          }
        } else {
          Skipped(t, t1, mt, func, calls, bound, elm);
        }
        elm := First(id);
      }
      ScanResult(t, Entries(), mt, func, calls, id);
      interrupted := false;
    }
  }
}
