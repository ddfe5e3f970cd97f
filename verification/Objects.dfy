/** The objects of src/objects.c and the per-type destructors: a forest of userdata
    records with a Valid mark, the registry of src/udata.c keyed by driver handle, and
    the driver's reference counts with its re-entrant destructor callback. */
module Objects {
  import opened Common

  datatype Kind =
    | Platform | Device | Context | Queue | Buffer | Image | Pipe | Program | Kernel | Event | Sampler | Svm | Hostmem

  type Id = nat      // a userdata block; blocks are numbered in order of creation
  type Handle = nat  // a driver handle, the search key of the registry

  /** The fields of struct mooncl_ud_s that never change (objects.h:84-95). */
  datatype Ud = Ud(handle: Handle, kind: Kind, parent: Option<Id>)

  type Uds = map<Id, Ud>

  /** Which kinds of object are given which kinds of parent by the new... functions. */
  predicate CanParent(child: Kind, parent: Kind) {
    match child
    case Device => parent == Platform || parent == Device
    case Context => parent == Platform
    case Queue | Image | Pipe | Program | Event | Sampler | Svm => parent == Context
    case Buffer => parent == Context || parent == Buffer
    case Kernel => parent == Program
    case Platform | Hostmem => false
  }

  /** The kinds a destructor frees before its own object, in order: context.c:37-44,
      platform.c:30-31, device.c:31-32, program.c:31, buffer.c:56. */
  function ChildKinds(k: Kind): seq<Kind> {
    match k
    case Platform => [Context, Device]
    case Context => [Queue, Program, Event, Pipe, Image, Buffer, Sampler, Svm]
    case Device => [Device]
    case Program => [Kernel]
    case Buffer => [Buffer]
    case _ => []
  }

  /** A destructor goes through exactly the kinds that can be created below its object; the pairs are those of
      the new... functions (device.c:38-63, context.c:51-60, queue.c:37-48, image.c:45-58, pipe.c:46-59,
      program.c:37-47, event.c:46-61, sampler.c:36-46, svm.c:41-50, buffer.c:71-97, kernel.c:37-50). */
  lemma ParentageExact()
    ensures forall c, p :: CanParent(c, p) <==> c in ChildKinds(p)
    ensures forall c, p :: CanParent(c, p) <==> (c, p) in {
      (Device, Platform), (Context, Platform), (Device, Device), (Queue, Context), (Program, Context),
      (Event, Context), (Pipe, Context), (Image, Context), (Buffer, Context), (Sampler, Context), (Svm, Context),
      (Kernel, Program), (Buffer, Buffer)}
  {
  }

  lemma ListedKinds(k: Kind)
    ensures NoRepeats(ChildKinds(k))
    ensures ChildKinds(k) == match k
      case Platform => [Context, Device]
      case Context => [Queue, Program, Event, Pipe, Image, Buffer, Sampler, Svm]
      case Device => [Device]
      case Program => [Kernel]
      case Buffer => [Buffer]
      case _ => []
  {
  }

  /** The kinds whose destructors end with ReleaseAll. */
  predicate Counted(k: Kind) {
    k != Platform && k != Svm && k != Hostmem
  }

  /** The kinds for which SetMemObjectDestructorCallback is called. */
  predicate HasCallback(k: Kind) {
    k == Buffer || k == Image || k == Pipe
  }

  // ---------- the forest ----------

  ghost predicate Forest(uds: Uds) {
    forall u <- uds ::
      match uds[u].parent
      case None => uds[u].kind == Platform || uds[u].kind == Hostmem
      case Some(p) => p < u && p in uds && CanParent(uds[u].kind, uds[p].kind)
  }

  /** `v` is `u` or a descendant of `u`. */
  ghost predicate Under(uds: Uds, v: Id, u: Id)
    requires Forest(uds) && v in uds
    decreases v
  {
    v == u || (uds[v].parent.Some? && Under(uds, uds[v].parent.value, u))
  }

  /** The members of `s` at or below a member of `tops`. */
  ghost function Covered(uds: Uds, s: set<Id>, tops: set<Id>): set<Id>
    requires Forest(uds) && s <= uds.Keys
  {
    set v | v in s && exists c :: c in tops && Under(uds, v, c)
  }

  /** The members of `s` that are children of `u` of a kind in `ks`. */
  ghost function Children(uds: Uds, s: set<Id>, u: Id, ks: seq<Kind>): set<Id>
    requires s <= uds.Keys
  {
    set c | c in s && uds[c].parent == Some(u) && uds[c].kind in ks
  }

  lemma CoveredTwice(uds: Uds, s: set<Id>, a: set<Id>, b: set<Id>)
    requires Forest(uds) && s <= uds.Keys
    ensures s - Covered(uds, s, a + b) == (s - Covered(uds, s, a)) - Covered(uds, s - Covered(uds, s, a), b)
  {
    forall v | v in s
      ensures v in Covered(uds, s, a + b) <==> v in Covered(uds, s, a) || v in Covered(uds, s, b)
    {
      if c :| c in a && Under(uds, v, c) { assert c in a + b; }
      if c :| c in b && Under(uds, v, c) { assert c in a + b; }
    }
  }

  lemma {:induction false} UnderIsLater(uds: Uds, v: Id, u: Id)
    requires Forest(uds) && v in uds && Under(uds, v, u)
    ensures u <= v && u in uds
    decreases v
  {
    if v != u { UnderIsLater(uds, uds[v].parent.value, u); }
  }

  /** A strict descendant is below exactly one child. */
  lemma {:induction false} BranchOf(uds: Uds, v: Id, u: Id) returns (c: Id)
    requires Forest(uds) && v in uds && Under(uds, v, u) && v != u
    ensures c in uds && uds[c].parent == Some(u) && Under(uds, v, c)
    decreases v
  {
    if uds[v].parent.value == u { c := v; } else { c := BranchOf(uds, uds[v].parent.value, u); }
  }

  lemma {:induction false} OneBranch(uds: Uds, v: Id, u: Id, c: Id, c': Id)
    requires Forest(uds) && v in uds && c in uds && c' in uds
    requires uds[c].parent == uds[c'].parent == Some(u) && Under(uds, v, c) && Under(uds, v, c')
    ensures c == c'
    decreases v
  {
    if v == c {
      if v != c' { UnderIsLater(uds, u, c'); }
    } else if v == c' {
      UnderIsLater(uds, u, c);
    } else {
      OneBranch(uds, uds[v].parent.value, u, c, c');
    }
  }

  lemma {:induction false} UnderChild(uds: Uds, v: Id, u: Id, c: Id)
    requires Forest(uds) && v in uds && c in uds && uds[c].parent == Some(u) && Under(uds, v, c)
    ensures Under(uds, v, u) && v != u
    decreases v
  {
    UnderIsLater(uds, v, c);
    if v != c { UnderChild(uds, uds[v].parent.value, u, c); }
  }

  // ---------- consistent states ----------

  datatype State = State(uds: Uds, valid: set<Id>, hasSub: set<Id>, registry: map<Handle, Id>)

  ghost predicate Consistent(s: State) {
    && Forest(s.uds) && s.valid <= s.uds.Keys
    && (forall u <- s.valid :: s.uds[u].handle in s.registry && s.registry[s.uds[u].handle] == u)
    && (forall h <- s.registry :: s.registry[h] in s.valid && s.uds[s.registry[h]].handle == h)
    && (forall u <- s.valid | s.uds[u].parent.Some? :: s.uds[u].parent.value in s.valid)
    && (forall u <- s.valid | s.uds[u].parent.Some? && s.uds[u].kind == s.uds[s.uds[u].parent.value].kind == Device ::
          s.uds[u].parent.value in s.hasSub)
  }

  lemma {:induction false} AncestorsValid(s: State, v: Id, u: Id)
    requires Consistent(s) && v in s.valid && Under(s.uds, v, u)
    ensures u in s.valid
    decreases v
  {
    if v != u { AncestorsValid(s, s.uds[v].parent.value, u); }
  }

  /** Every valid child has one of the kinds its parent's destructor goes through, so
      freeing these children leaves of `u`'s family only `u`. */
  lemma ChildrenComplete(s: State, u: Id)
    requires Consistent(s) && u in s.valid
    ensures Covered(s.uds, s.valid, Children(s.uds, s.valid, u, ChildKinds(s.uds[u].kind)))
         == Covered(s.uds, s.valid, {u}) - {u}
  {
    var cs := Children(s.uds, s.valid, u, ChildKinds(s.uds[u].kind));
    forall v | v in s.valid
      ensures v in Covered(s.uds, s.valid, cs) <==> v in Covered(s.uds, s.valid, {u}) && v != u
    {
      InAFamily(s, u, v);
    }
    hide Consistent, Children, Under;
  }

  /** A strict descendant of `u` is in the family of one of these children. */
  lemma InAFamily(s: State, u: Id, v: Id)
    requires Consistent(s) && u in s.valid && v in s.valid
    ensures v in Covered(s.uds, s.valid, Children(s.uds, s.valid, u, ChildKinds(s.uds[u].kind)))
      <==> v in Covered(s.uds, s.valid, {u}) && v != u
  {
    var cs := Children(s.uds, s.valid, u, ChildKinds(s.uds[u].kind));
    if Under(s.uds, v, u) && v != u {
      var c := BranchOf(s.uds, v, u);
      AncestorsValid(s, v, c);
      assert c in cs;
    } else if v in Covered(s.uds, s.valid, cs) {
      var c :| c in cs && Under(s.uds, v, c);
      UnderChild(s.uds, v, u, c);
    }
  }

  /** Freeing some children of `u` does not touch the other children. */
  lemma OtherChildrenStay(uds: Uds, s: set<Id>, u: Id, cs: set<Id>, c: Id)
    requires Forest(uds) && s <= uds.Keys && c in s && uds[c].parent == Some(u) && c !in cs
    requires forall d <- cs :: d in uds && uds[d].parent == Some(u)
    ensures c !in Covered(uds, s, cs)
  {
    if d :| d in cs && Under(uds, c, d) {
      OneBranch(uds, c, u, c, d);
    }
  }

  // ---------- the order of the last releases ----------

  /** No object's last release comes twice, or before that of one of its descendants. */
  ghost predicate LogOk(uds: Uds, valid: set<Id>, log: seq<Id>)
    requires Forest(uds)
  {
    && (forall i :: 0 <= i < |log| ==> log[i] in uds && log[i] !in valid)
    && (forall i, j :: 0 <= i < j < |log| ==> !Under(uds, log[j], log[i]))
  }

  lemma LogAppend(s: State, log: seq<Id>, u: Id)
    requires Consistent(s) && LogOk(s.uds, s.valid, log) && u in s.uds && u !in s.valid && u !in log
    requires s.uds[u].parent.Some? ==> s.uds[u].parent.value in s.valid
    ensures LogOk(s.uds, s.valid, log + [u])
  {
    forall i | 0 <= i < |log|
      ensures !Under(s.uds, u, log[i])
    {
      if Under(s.uds, u, log[i]) {
        AncestorsValid(s, s.uds[u].parent.value, log[i]);
      }
    }
  }

  lemma {:induction false} LeastKey(keys: set<Handle>, from: Handle) returns (h: Handle)
    requires exists k :: k in keys && k >= from
    ensures h in keys && h >= from && forall k <- keys | k >= from :: h <= k
    decreases keys
  {
    h :| h in keys && h >= from;
    if k :| k in keys && from <= k < h {
      var rest := keys - {h};
      assert k in rest;
      var least := LeastKey(rest, from);
      assert forall j <- keys :: j == h || j in rest;
      h := least;
    }
  }

  /** The rest of the world: driver counts, the next block, last releases, past states. */
  datatype Books = Books(counts: map<Handle, nat>, nextId: Id, log: seq<Id>, history: seq<State>)

  /** Counted handles are registered exactly while the driver's count is positive (apart from
      `busy` ones); last releases are in order; every past state was consistent. */
  ghost predicate BooksOk(s: State, b: Books, busy: set<Handle>)
    requires Consistent(s)
  {
    && (forall u <- s.valid | Counted(s.uds[u].kind) :: s.uds[u].handle in b.counts)
    && (forall h <- b.counts ::
          b.counts[h] >= 1 && (h in busy || (h in s.registry && Counted(s.uds[s.registry[h]].kind))))
    && LogOk(s.uds, s.valid, b.log)
    && (forall u <- s.uds :: u in s.valid || u in b.log || s.uds[u].handle in busy)
    && (forall u <- s.uds :: u < b.nextId)
    && (forall p <- b.history :: Consistent(p))
  }

  // ---------- the states on the way ----------

  /** The state `s` without the object `u`. */
  ghost function Without(s: State, u: Id): State
    requires u in s.uds
  {
    s.(valid := s.valid - {u}, registry := s.registry - {s.uds[u].handle})
  }

  /** From `s` to `s'` one object goes: `u`, which is valid and has no valid child any more. */
  ghost predicate Frees(s: State, s': State, u: Id) {
    && u in s.valid && s.valid <= s.uds.Keys && (forall v <- s.valid :: s.uds[v].parent != Some(u))
    && s' == Without(s, u)
  }

  /** From `s` to `s'` one object comes. */
  ghost predicate Grows(s: State, s': State, u: Id, ud: Ud) {
    u !in s.uds && ud.handle !in s.registry && s' == Grown(s, u, ud)
  }

  /** `trail` leads from `s` to `s'`: each state follows from the one before by one object that goes or, if
      `create` allows it, one that comes. */
  ghost predicate Trail(s: State, trail: seq<State>, s': State, create: bool)
    decreases trail
  {
    if trail == [] then s' == s
    else && ((exists u :: Frees(s, trail[0], u)) || (create && exists u, ud :: Grows(s, trail[0], u, ud)))
         && Trail(trail[0], trail[1..], s', create)
  }

  lemma {:induction false} TrailAppend(s: State, a: seq<State>, t: State, b: seq<State>, u: State, create: bool)
    requires Trail(s, a, t, create) && Trail(t, b, u, create)
    ensures Trail(s, a + b, u, create)
    decreases a
  {
    if a == [] {
      assert a + b == b;
    } else {
      TrailAppend(a[0], a[1..], t, b, u, create);
      assert (a + b)[0] == a[0] && (a + b)[1..] == a[1..] + b;
    }
  }

  lemma {:induction false} TrailAllows(s: State, a: seq<State>, t: State)
    requires Trail(s, a, t, false)
    ensures Trail(s, a, t, true)
    decreases a
  {
    if a != [] {
      TrailAllows(a[0], a[1..], t);
    }
  }

  /** A trail without creations has one state for every object that goes, and ends with the last one. */
  lemma {:induction false} TrailLength(s: State, a: seq<State>, t: State)
    requires Trail(s, a, t, false)
    ensures t.valid <= s.valid && |a| == |s.valid - t.valid| && (a != [] ==> a[|a| - 1] == t)
    decreases a
  {
    if a == [] {
      assert s.valid - t.valid == {};
    } else {
      var u :| Frees(s, a[0], u);
      TrailLength(a[0], a[1..], t);
      assert s.valid - t.valid == (a[0].valid - t.valid) + {u};
    }
  }

  /** The states of a trail without creations lie between its ends. */
  lemma {:induction false} TrailWithin(s: State, a: seq<State>, t: State)
    requires Trail(s, a, t, false)
    ensures t.valid <= s.valid && forall x <- a :: x.uds == s.uds && t.valid <= x.valid <= s.valid
    decreases a
  {
    if a != [] {
      TrailWithin(a[0], a[1..], t);
      assert a == [a[0]] + a[1..];
    }
  }

  lemma OneStep(s: State, s': State, create: bool)
    requires (exists u :: Frees(s, s', u)) || (create && exists u, ud :: Grows(s, s', u, ud))
    ensures Trail(s, [s'], s', create)
  {
    assert [s'][1..] == [];
  }

  lemma OneGrown(s: State, u: Id, ud: Ud, before: seq<State>, history: seq<State>)
    requires Grows(s, Grown(s, u, ud), u, ud) && history == before + [Grown(s, u, ud)]
    ensures Trail(s, Since(history, before), Grown(s, u, ud), true)
  {
    OneStep(s, Grown(s, u, ud), true);
    assert Since(history, before) == [Grown(s, u, ud)];
  }

  lemma NoTrail(s: State, history: seq<State>)
    ensures Trail(s, Since(history, history), s, true) && Trail(s, Since(history, history), s, false)
  {
  }

  lemma OneFreed(s: State, u: Id, before: seq<State>, history: seq<State>)
    requires u in s.uds && Frees(s, Without(s, u), u) && history == before + [Without(s, u)]
    ensures Trail(s, Since(history, before), Without(s, u), false)
  {
    OneStep(s, Without(s, u), false);
    assert Since(history, before) == [Without(s, u)];
  }

  /** What was added to a history. */
  ghost function Since(history: seq<State>, before: seq<State>): seq<State>
    requires before <= history
  {
    history[|before|..]
  }

  lemma SinceTwice(a: seq<State>, b: seq<State>, c: seq<State>)
    requires a <= b <= c
    ensures a <= c && Since(c, a) == Since(b, a) + Since(c, b)
  {
  }

  /** A destructor only ever clears Valid marks, registry entries and counts of whole objects,
      and records every state on the way. */
  ghost predicate Progress(s: State, b: Books, s': State, b': Books) {
    && s'.uds == s.uds && s'.hasSub == s.hasSub && s'.valid <= s.valid && b'.nextId == b.nextId
    && (forall h <- s'.registry :: h in s.registry && s'.registry[h] == s.registry[h])
    && (forall h <- b'.counts :: h in b.counts && b'.counts[h] == b.counts[h])
    && b.log <= b'.log && b.history <= b'.history && Trail(s, Since(b'.history, b.history), s', false)
  }

  // ---------- the order of the children ----------

  /** In the state `x`, on the way from `s`, the children of `u` of the kinds before number `m` are gone, and those
      of the later kinds are all still there. */
  ghost predicate Between(s: State, x: State, u: Id, ks: seq<Kind>, m: nat)
    requires s.valid <= s.uds.Keys && m < |ks|
  {
    && (forall i :: 0 <= i < m ==> Children(s.uds, s.valid, u, [ks[i]]) !! x.valid)
    && (forall i :: m < i < |ks| ==> Children(s.uds, s.valid, u, [ks[i]]) <= x.valid)
  }

  /** The children of `u` go kind by kind: every state on the way is between two of the first `n` kinds. */
  ghost predicate KindByKind(s: State, u: Id, ks: seq<Kind>, n: nat, way: seq<State>)
    requires s.valid <= s.uds.Keys && n <= |ks|
  {
    forall x <- way :: exists m :: 0 <= m < n && Between(s, x, u, ks, m)
  }

  ghost predicate NoRepeats(ks: seq<Kind>) {
    forall i, j :: 0 <= i < j < |ks| ==> ks[i] != ks[j]
  }

  lemma KindsBetween(s: State, x: State, u: Id, ks: seq<Kind>, m: nat)
    requires Consistent(s) && u in s.uds && NoRepeats(ks) && m < |ks|
    requires x.valid <= s.valid - Covered(s.uds, s.valid, Children(s.uds, s.valid, u, ks[..m]))
    requires s.valid - Covered(s.uds, s.valid, Children(s.uds, s.valid, u, ks[..m + 1])) <= x.valid
    ensures Between(s, x, u, ks, m)
  {
    forall i, c | 0 <= i < m && c in Children(s.uds, s.valid, u, [ks[i]])
      ensures c !in x.valid
    {
      assert ks[..m][i] == ks[i] && Under(s.uds, c, c);
    }
    forall i, c | m < i < |ks| && c in Children(s.uds, s.valid, u, [ks[i]])
      ensures c in x.valid
    {
      OtherChildrenStay(s.uds, s.valid, u, Children(s.uds, s.valid, u, ks[..m + 1]), c);
    }
  }

  lemma NoWay(s: State, u: Id, ks: seq<Kind>, n: nat, history: seq<State>)
    requires s.valid <= s.uds.Keys && n <= |ks|
    ensures KindByKind(s, u, ks, n, Since(history, history))
  {
  }

  lemma WayGrows(s: State, u: Id, ks: seq<Kind>, n: nat, way: seq<State>, t: State, more: seq<State>, t': State)
    requires Consistent(s) && u in s.uds && NoRepeats(ks) && n < |ks| && KindByKind(s, u, ks, n, way)
    requires t.valid == s.valid - Covered(s.uds, s.valid, Children(s.uds, s.valid, u, ks[..n]))
    requires t'.valid == s.valid - Covered(s.uds, s.valid, Children(s.uds, s.valid, u, ks[..n + 1]))
    requires Trail(t, more, t', false)
    ensures KindByKind(s, u, ks, n + 1, way + more)
  {
    TrailWithin(t, more, t');
    hide Between, Consistent, Covered, Children, Trail, Forest, NoRepeats;
    forall x | x in way + more
      ensures exists m :: 0 <= m < n + 1 && Between(s, x, u, ks, m)
    {
      if x in way {
        var m :| 0 <= m < n && Between(s, x, u, ks, m);
      } else {
        KindsBetween(s, x, u, ks, n);
      }
    }
  }

  // ---------- what one operation does ----------

  /** What operations can tell apart, besides the order of releases and the states on the way. */
  datatype Moment = Moment(s: State, counts: map<Handle, nat>, nextId: Id)

  /** `u` and its descendants are gone, with their registry entries and driver objects. */
  ghost function Destroyed(m: Moment, u: Id): Moment
    requires Consistent(m.s)
  {
    var gone := Covered(m.s.uds, m.s.valid, {u});
    var registry := map h | h in m.s.registry && m.s.registry[h] !in gone :: m.s.registry[h];
    Moment(State(m.s.uds, m.s.valid - gone, m.s.hasSub, registry),
           map h | h in m.counts && h in registry :: m.counts[h], m.nextId)
  }

  /** Between the two states exactly `u` and its descendants went, one after the other, each when it had no
      valid child left, and the history records every state on the way. */
  ghost predicate FamilyGone(s0: State, b0: Books, s: State, b: Books, u: Id) {
    && Progress(s0, b0, s, b) && Consistent(s0) && u in s0.valid
    && s.valid == s0.valid - Covered(s0.uds, s0.valid, {u})
    && Moment(s, b.counts, b.nextId) == Destroyed(Moment(s0, b0.counts, b0.nextId), u)
    && |Since(b.history, b0.history)| == |s0.valid - s.valid| && b.history != [] && b.history[|b.history| - 1] == s
  }

  lemma DestroyedExactly(s0: State, b0: Books, s: State, b: Books, u: Id)
    requires Consistent(s0) && BooksOk(s0, b0, {}) && Consistent(s) && BooksOk(s, b, {}) && Progress(s0, b0, s, b)
    requires u in s0.valid && s.valid == s0.valid - Covered(s0.uds, s0.valid, {u})
    ensures FamilyGone(s0, b0, s, b, u)
  {
    OwnFamily(s0, u);
    hide Consistent, BooksOk, Covered, Forest, Trail, Destroyed, Progress, Since;
    DestroyedMoment(s0, b0, s, b, u);
    DestroyedTrail(s0, b0, s, b);
  }

  lemma DestroyedMoment(s0: State, b0: Books, s: State, b: Books, u: Id)
    requires Consistent(s0) && BooksOk(s0, b0, {}) && Consistent(s) && BooksOk(s, b, {}) && Progress(s0, b0, s, b)
    requires s.valid == s0.valid - Covered(s0.uds, s0.valid, {u})
    ensures Moment(s, b.counts, b.nextId) == Destroyed(Moment(s0, b0.counts, b0.nextId), u)
  {
    hide Consistent, BooksOk, Covered, Forest, Trail, Since, Destroyed;
    DestroyedState(s0, s, u, Moment(s0, b0.counts, b0.nextId));
    DestroyedCounts(s0, b0, s, b);
    DestroyedParts(Moment(s0, b0.counts, b0.nextId), u, s, b.counts);
  }

  lemma DestroyedTrail(s0: State, b0: Books, s: State, b: Books)
    requires Progress(s0, b0, s, b) && s.valid != s0.valid
    ensures |Since(b.history, b0.history)| == |s0.valid - s.valid| && b.history != [] && b.history[|b.history| - 1] == s
  {
    TrailLength(s0, Since(b.history, b0.history), s);
    hide Trail;
  }

  /** What callers need of it. */
  lemma GoneResult(s0: State, b0: Books, s: State, b: Books, u: Id)
    requires FamilyGone(s0, b0, s, b, u)
    ensures Consistent(s0) && Moment(s, b.counts, b.nextId) == Destroyed(Moment(s0, b0.counts, b0.nextId), u)
    ensures b0.log <= b.log && b0.history <= b.history && Trail(s0, Since(b.history, b0.history), s, false)
  {
  }

  lemma OwnFamily(s: State, u: Id)
    requires Consistent(s) && u in s.valid
    ensures u in Covered(s.uds, s.valid, {u})
  {
    assert Under(s.uds, u, u);
  }

  lemma DestroyedParts(m: Moment, u: Id, s: State, counts: map<Handle, nat>)
    requires Consistent(m.s) && Destroyed(m, u).s == s
    requires counts == map h | h in m.counts && h in s.registry :: m.counts[h]
    ensures Destroyed(m, u) == Moment(s, counts, m.nextId)
  {
    hide Consistent, Covered;
  }

  lemma DestroyedState(s0: State, s: State, u: Id, m: Moment)
    requires m.s == s0 && Consistent(s0) && Consistent(s) && s.uds == s0.uds && s.hasSub == s0.hasSub
    requires s.valid == s0.valid - Covered(s0.uds, s0.valid, {u})
    requires forall h <- s.registry :: h in s0.registry && s.registry[h] == s0.registry[h]
    ensures Destroyed(m, u).s == s
  {
    hide Forest, Under, Covered;
    var gone := Covered(s0.uds, s0.valid, {u});
    assert s.registry == map h | h in s0.registry && s0.registry[h] !in gone :: s0.registry[h];
  }

  lemma DestroyedCounts(s0: State, b0: Books, s: State, b: Books)
    requires Consistent(s0) && BooksOk(s0, b0, {}) && Consistent(s) && BooksOk(s, b, {}) && Progress(s0, b0, s, b)
    ensures b.counts == map h | h in b0.counts && h in s.registry :: b0.counts[h]
  {
    hide Forest, Under, LogOk, Trail;
  }

  /** The effect of one request; one that the argument checks reject has none. */
  ghost function Effect(m: Moment, op: Op): Moment
    requires Consistent(m.s)
  {
    match op
    case Create(kind, parent, h) =>
      if Creatable(m.s.uds, m.s.valid, m.counts, kind, parent, h) && h !in m.s.registry then
        var counts := if Counted(kind) then m.counts[h := 1] else m.counts;
        Moment(Grown(m.s, m.nextId, Ud(h, kind, parent)), counts, m.nextId + 1)
      else m
    case Keep(u) =>
      if Known(m, u) then Moment(m.s, m.counts[m.s.uds[u].handle := m.counts[m.s.uds[u].handle] + 1], m.nextId) else m
    case Drop(u) =>
      if !Known(m, u) then m
      else if m.counts[m.s.uds[u].handle] == 1 then Destroyed(m, u)
      else Moment(m.s, m.counts[m.s.uds[u].handle := m.counts[m.s.uds[u].handle] - 1], m.nextId)
    case Kill(u) => if u in m.s.valid then Destroyed(m, u) else m
  }

  lemma KillEffect(m: Moment, u: Id)
    requires Consistent(m.s)
    ensures Effect(m, Kill(u)) == if u in m.s.valid then Destroyed(m, u) else m
  {
  }

  lemma RetainBooks(s: State, b: Books, u: Id)
    requires Consistent(s) && BooksOk(s, b, {}) && u in s.valid && u in s.uds && Counted(s.uds[u].kind)
    ensures var h := s.uds[u].handle;
      && h in b.counts && b.counts[h] >= 1
      && BooksOk(s, b.(counts := b.counts[h := b.counts[h] + 1]), {})
      && Effect(Moment(s, b.counts, b.nextId), Keep(u)) == Moment(s, b.counts[h := b.counts[h] + 1], b.nextId)
  {
    hide Consistent, BooksOk, Effect;
    var h := s.uds[u].handle;
    ValidHasCount(s, b, u);
    KeepEffect(Moment(s, b.counts, b.nextId), u);
    CountChanged(s, b, {}, h, b.counts[h] + 1);
  }

  lemma KeepEffect(m: Moment, u: Id)
    requires Consistent(m.s) && Known(m, u)
    ensures var h := m.s.uds[u].handle;
      Effect(m, Keep(u)) == Moment(m.s, m.counts[h := m.counts[h] + 1], m.nextId)
  {
    hide Consistent, Grown, Creatable, Destroyed;
  }

  lemma ValidHasCount(s: State, b: Books, u: Id)
    requires Consistent(s) && BooksOk(s, b, {}) && u in s.valid && u in s.uds && Counted(s.uds[u].kind)
    ensures s.uds[u].handle in b.counts && b.counts[s.uds[u].handle] >= 1
  {
    hide Consistent, LogOk;
  }

  lemma KeepExact(s: State, b: Books, u: Id)
    requires Consistent(s) && BooksOk(s, b, {}) && u in s.valid && u in s.uds
    ensures var h, m := s.uds[u].handle, Effect(Moment(s, b.counts, b.nextId), Keep(u));
      && m.s == s && (s.uds[u].kind in {Platform, Svm, Hostmem} ==> m.counts == b.counts)
      && (s.uds[u].kind !in {Platform, Svm, Hostmem} ==> h in b.counts && m.counts == b.counts[h := b.counts[h] + 1])
  {
    hide Consistent, BooksOk, Destroyed, Grown, Creatable;
    if Counted(s.uds[u].kind) {
      ValidHasCount(s, b, u);
    }
  }

  /** What a creation that goes through adds. */
  lemma CreateEffect(m: Moment, kind: Kind, parent: Option<Id>, h: Handle)
    requires Consistent(m.s) && h !in m.s.registry && h !in m.counts
    requires parent.None? ==> kind in {Platform, Hostmem}
    requires parent.Some? ==> parent.value in m.s.valid && parent.value in m.s.uds
    requires parent.Some? ==> CanParent(kind, m.s.uds[parent.value].kind)
    requires m.nextId !in m.s.uds
    ensures var sub := if kind == Device && parent.Some? && m.s.uds[parent.value].kind == Device then {parent.value}
                       else {};
      Effect(m, Create(kind, parent, h)) == Moment(
        State(m.s.uds[m.nextId := Ud(h, kind, parent)], m.s.valid + {m.nextId}, m.s.hasSub + sub,
              m.s.registry[h := m.nextId]),
        if kind in {Platform, Svm, Hostmem} then m.counts else m.counts[h := 1], m.nextId + 1)
  {
    hide Consistent, CanParent, Known, Destroyed;
  }

  /** A creation that the argument checks or the registry refuse changes nothing. */
  lemma CreateRefused(m: Moment, kind: Kind, parent: Option<Id>, h: Handle)
    requires Consistent(m.s)
    requires h in m.s.registry || (kind !in {Platform, Svm, Hostmem} && h in m.counts)
      || (parent.None? && kind !in {Platform, Hostmem})
      || (parent.Some? && (parent.value !in m.s.valid || parent.value !in m.s.uds
      || (kind, m.s.uds[parent.value].kind) !in {
        (Device, Platform), (Context, Platform), (Device, Device), (Queue, Context), (Program, Context),
        (Event, Context), (Pipe, Context), (Image, Context), (Buffer, Context), (Sampler, Context), (Svm, Context),
        (Kernel, Program), (Buffer, Buffer)}))
    ensures Effect(m, Create(kind, parent, h)) == m
  {
    ParentageExact();
    hide Consistent, CanParent, Known, Destroyed, Grown;
  }

  lemma DropEffect(m: Moment, u: Id)
    requires Consistent(m.s) && Known(m, u)
    ensures var h := m.s.uds[u].handle;
      && (m.counts[h] == 1 ==> Effect(m, Drop(u)) == Destroyed(m, u))
      && (m.counts[h] != 1 ==> Effect(m, Drop(u)) == Moment(m.s, m.counts[h := m.counts[h] - 1], m.nextId))
  {
    hide Consistent, Destroyed;
  }

  /** A valid object that the driver counts. */
  ghost predicate Known(m: Moment, u: Id) {
    u in m.s.valid && u in m.s.uds && Counted(m.s.uds[u].kind)
    && m.s.uds[u].handle in m.counts && m.counts[m.s.uds[u].handle] >= 1
  }

  /** The parent is a valid object of a fitting kind, and the driver's handle is a new one. */
  predicate Creatable(uds: Uds, valid: set<Id>, counts: map<Handle, nat>, kind: Kind, parent: Option<Id>, h: Handle) {
    && (match parent
        case None => kind == Platform || kind == Hostmem
        case Some(p) => p in valid && p in uds && CanParent(kind, uds[p].kind))
    && (Counted(kind) ==> h !in counts)
  }

  lemma ProgressRefl(s: State, b: Books)
    ensures Progress(s, b, s, b)
  {
  }

  lemma ProgressKeeps(s: State, b: Books, s': State, b': Books)
    requires Progress(s, b, s', b')
    ensures s'.uds == s.uds && b'.nextId == b.nextId && s'.valid <= s.valid && b.history <= b'.history
  {
    hide Trail;
  }

  lemma ProgressTrans(s: State, b: Books, s': State, b': Books, s'': State, b'': Books)
    requires Progress(s, b, s', b') && Progress(s', b', s'', b'')
    ensures Progress(s, b, s'', b'')
  {
    SinceTwice(b.history, b'.history, b''.history);
    TrailAppend(s, Since(b'.history, b.history), s', Since(b''.history, b'.history), s'', false);
    hide Trail, Since;
  }

  // ---------- single steps on the books ----------

  lemma WithoutConsistent(s: State, u: Id)
    requires Consistent(s) && u in s.valid
    requires forall v <- s.valid :: s.uds[v].parent != Some(u)
    ensures Consistent(Without(s, u))
  {
  }

  lemma WithoutBooks(s: State, b: Books, u: Id)
    requires Consistent(s) && BooksOk(s, b, {}) && u in s.valid && Consistent(Without(s, u))
    ensures BooksOk(Without(s, u), b.(history := b.history + [Without(s, u)]), {s.uds[u].handle})
    ensures ReleasingIn(Without(s, u), b.(history := b.history + [Without(s, u)]), s.uds[u].handle, u)
  {
  }

  /** `u` has passed the guard of its destructor and its handle is not released yet. */
  ghost predicate ReleasingIn(s: State, b: Books, h: Handle, u: Id) {
    && Consistent(s) && BooksOk(s, b, {h})
    && h !in s.registry && u in s.uds && s.uds[u].handle == h && u !in s.valid && u !in b.log
    && (forall v <- s.uds :: v in s.valid || v in b.log || v == u)
    && (s.uds[u].parent.Some? ==> s.uds[u].parent.value in s.valid)
  }

  lemma CountChanged(s: State, b: Books, busy: set<Handle>, h: Handle, n: nat)
    requires Consistent(s) && BooksOk(s, b, busy) && h in b.counts && n >= 1
    ensures BooksOk(s, b.(counts := b.counts[h := n]), busy)
  {
  }

  lemma LastRelease(s: State, b: Books, h: Handle, u: Id, counts: map<Handle, nat>)
    requires ReleasingIn(s, b, h, u) && counts == b.counts - {h}
    ensures BooksOk(s, b.(counts := counts, log := b.log + [u]), {})
  {
    LogAppend(s, b.log, u);
  }

  /** The count of `h` becomes `n`, and no other count changes. */
  predicate Changed(before: map<Handle, nat>, after: map<Handle, nat>, h: Handle, n: nat) {
    after.Keys == before.Keys + {h} && after[h] == n && forall k <- before | k != h :: after[k] == before[k]
  }

  lemma ChangedTo(counts: map<Handle, nat>, h: Handle, n: nat)
    ensures Changed(counts, counts[h := n], h, n)
  {
  }

  class World {
    var uds: Uds
    var valid: set<Id>              // the blocks whose Valid mark is set
    var hasSub: set<Id>             // the blocks whose HasSubDevices mark is set
    var registry: map<Handle, Id>   // src/udata.c's tree: search key to block
    var counts: map<Handle, nat>    // the driver's reference counts of live handles
    var nextId: Id
    ghost var log: seq<Id>          // the objects in the order of their last releases
    ghost var history: seq<State>   // every state passed through

    ghost function Now(): State
      reads this
    {
      State(uds, valid, hasSub, registry)
    }

    ghost function Rest(): Books
      reads this
    {
      Books(counts, nextId, log, history)
    }

    ghost function Current(): Moment
      reads this
    {
      Moment(Now(), counts, nextId)
    }

    /** What holds at every step, also in the middle of a destructor; `busy` are handles in
        the middle of ReleaseAll. */
    ghost predicate Always(busy: set<Handle>)
      reads this
    {
      Consistent(Now()) && BooksOk(Now(), Rest(), busy)
    }

    ghost predicate Inv()
      reads this
    {
      Always({})
    }

    constructor ()
      ensures Inv() && uds == map[] && history == [] && log == [] && counts == map[]
    {
      uds, valid, hasSub, registry, counts, nextId := map[], {}, {}, map[], map[], 0;
      log, history := [], [];
    }

    lemma InvFacts()
      requires Inv()
      ensures Consistent(Now()) && BooksOk(Now(), Rest(), {}) && Forest(uds) && valid <= uds.Keys
      ensures forall u <- uds :: u < nextId
    {
    }

    /** freeuserdata (objects.c:41-55): the Valid mark lets the rest of a destructor run only once. */
    method FreeUserdata(u: Id) returns (go: bool)
      requires Inv() && u in uds
      requires forall v <- valid :: uds[v].parent != Some(u)
      modifies `valid, `registry, `history
      ensures go == (u in old(valid))
      ensures go ==> Releasing(uds[u].handle, u) && Now() == Without(old(Now()), u) && history == old(history) + [Now()]
      ensures !go ==> Now() == old(Now()) && Rest() == old(Rest())
    {
      hide Consistent, BooksOk;
      if u !in valid {
        return false;
      }
      WithoutConsistent(Now(), u);
      WithoutBooks(Now(), Rest(), u);
      valid := valid - {u};
      registry := registry - {uds[u].handle};
      history := history + [Now()];
      return true;
    }

    ghost predicate Releasing(h: Handle, u: Id)
      reads this
    {
      ReleasingIn(Now(), Rest(), h, u)
    }

    /** The driver's clRelease...: the last release destroys the driver's object and, for
        memory objects, calls DestructorCallback before it returns. */
    method Release(h: Handle, u: Id)
      requires h in counts && (Releasing(h, u) || (Inv() && u in valid && uds[u].handle == h && counts[h] >= 2))
      modifies this
      ensures Now() == old(Now()) && nextId == old(nextId) && history == old(history)
      ensures if old(counts[h]) >= 2
        then counts == old(counts)[h := old(counts[h]) - 1] && log == old(log)
             && (if old(Releasing(h, u)) then Releasing(h, u) else Inv())
        else counts == old(counts) - {h} && log == old(log) + [u] && Inv()
      decreases valid, nextId + 1, 0
    {
      hide Consistent, BooksOk;
      if counts[h] >= 2 {
        CountChanged(Now(), Rest(), if Releasing(h, u) then {h} else {}, h, counts[h] - 1);
        counts := counts[h := counts[h] - 1];
        return;
      }
      LastRelease(Now(), Rest(), h, u, counts - {h});
      counts := counts - {h};
      log := log + [u];
      if HasCallback(uds[u].kind) {
        DestructorCallback(h);
      }
    }

    /** buffer.c:62-69: the driver calls back when it destroys a memory object. */
    method DestructorCallback(h: Handle)
      requires Inv()
      modifies this
      ensures Inv() && Progress(old(Now()), old(Rest()), Now(), Rest())
      ensures if h in old(registry) then FamilyGone(old(Now()), old(Rest()), Now(), Rest(), old(registry)[h])
              else Now() == old(Now()) && Rest() == old(Rest())
      decreases valid, nextId, 6
    {
      if h !in registry {
        return;
      }
      Destroy(registry[h]);
    }

    lemma CountPositive(h: Handle, u: Id)
      requires Releasing(h, u) && h in counts
      ensures counts[h] >= 1
    {
    }

    /** objects.h:377-383: as many releases as the count says at the start. */
    method ReleaseAll(h: Handle, u: Id)
      requires Releasing(h, u) && h in counts
      modifies this
      ensures Inv() && Now() == old(Now()) && Rest() == old(Rest()).(counts := counts, log := log)
      ensures counts == old(counts) - {h} && log == old(log) + [u]
      decreases valid, nextId + 1, 1
    {
      hide Always, Inv, Releasing;
      var refcnt := counts[h];
      CountPositive(h, u);
      while refcnt > 0
        invariant Now() == old(Now()) && nextId == old(nextId) && history == old(history)
        invariant refcnt > 0 ==> Releasing(h, u) && counts == old(counts)[h := refcnt] && log == old(log)
        invariant refcnt == 0 ==> Inv() && counts == old(counts) - {h} && log == old(log) + [u]
      {
        Release(h, u);
        refcnt := refcnt - 1;
      }
    }

    /** udata_first (udata.c:59-60): RB_NFIND on the registry. */
    method First(id: Handle) returns (r: Option<Handle>)
      ensures IsFirst(registry, id, r)
    {
      if exists h <- registry :: h >= id {
        ghost var least := LeastKey(registry.Keys, id);
        var h :| h in registry && h >= id && forall k <- registry | k >= id :: h <= k;
        r := Some(h);
      } else {
        r := None;
      }
    }

    /** freechildren (objects.c:68-72): udata_scan (udata.c:178-199) with freeifchild
        (objects.c:58-66) as its callback, which removes entries while the scan is going on. */
    method FreeChildren(k: Kind, u: Id)
      requires Inv() && u in uds
      modifies this
      ensures Inv() && Progress(old(Now()), old(Rest()), Now(), Rest())
      ensures valid == old(valid) - Covered(uds, old(valid), Children(uds, old(valid), u, [k]))
      decreases valid, nextId - u, 2
    {
      hide Inv, BooksOk, Consistent, Forest, Children, Covered, Remaining, IsFirst, Ahead, Progress, Always;
      ghost var s0, b0 := Now(), Rest();
      InvFacts();
      ProgressRefl(s0, b0);
      NothingPassed(s0, u, k);
      var id := 0;
      var next := First(id);
      while next.Some?
        invariant Inv() && Progress(s0, b0, Now(), Rest()) && uds == s0.uds && nextId == b0.nextId && valid <= s0.valid
        invariant valid == Remaining(s0, u, k, id)
        invariant IsFirst(registry, id, next)
        decreases Ahead(registry, id)
      {
        ghost var registry0, from := registry, id;
        ScanOne(next.value, k, u, id, s0, b0);
        id := next.value + 1;
        FewerAhead(registry0, registry, from, next.value);
        next := First(id);
      }
      InvFacts();
      ScanEnd(s0, Now(), u, k, id);
    }

    /** One turn of the scan's loop. */
    method ScanOne(h: Handle, k: Kind, u: Id, ghost id: Handle, ghost s0: State, ghost b0: Books)
      requires Inv() && u in uds && Consistent(s0) && Progress(s0, b0, Now(), Rest()) && IsFirst(registry, id, Some(h))
      requires valid == Remaining(s0, u, k, id)
      modifies this
      ensures Inv() && Progress(s0, b0, Now(), Rest()) && registry.Keys <= old(registry.Keys)
      ensures uds == s0.uds && nextId == b0.nextId
      ensures valid == Remaining(s0, u, k, h + 1)
      decreases valid, nextId - u, 1
    {
      var c := registry[h];
      ScanStep(s0, Now(), u, k, id, h);
      ghost var s, b := Now(), Rest();
      if uds[c].kind == k {
        FreeIfChild(c, u);
        ProgressTrans(s0, b0, s, b, Now(), Rest());
      }
    }

    /** freeifchild (objects.c:58-66) */
    method FreeIfChild(c: Id, u: Id)
      requires Inv() && c in uds
      modifies this
      ensures Inv() && Progress(old(Now()), old(Rest()), Now(), Rest())
      ensures c in old(valid) && uds[c].parent == Some(u) ==> valid == old(valid) - Covered(uds, old(valid), {c})
      ensures !(c in old(valid) && uds[c].parent == Some(u)) ==> valid == old(valid)
      decreases valid, nextId - u, 0
    {
      if c in valid && uds[c].parent == Some(u) {
        Destroy(c);
      }
    }

    /** The calls of freechildren at the start of a destructor. */
    method FreeAllChildren(ks: seq<Kind>, u: Id)
      requires Inv() && u in uds
      modifies this
      ensures Inv() && Progress(old(Now()), old(Rest()), Now(), Rest())
      ensures valid == old(valid) - Covered(uds, old(valid), Children(uds, old(valid), u, ks))
      ensures NoRepeats(ks) ==> KindByKind(old(Now()), u, ks, |ks|, Since(history, old(history)))
      decreases valid, nextId - u, 3
    {
      ghost var s0, b0 := Now(), Rest();
      hide Inv, BooksOk, Consistent, Forest, Children, Covered, Trail, Since, KindByKind, NoRepeats;
      InvFacts();
      ProgressRefl(s0, b0);
      assert ks[..0] == [];
      NoKinds(s0, u);
      NoWay(s0, u, ks, 0, b0.history);
      for i := 0 to |ks|
        invariant Inv() && Progress(s0, b0, Now(), Rest())
        invariant valid == s0.valid - Covered(s0.uds, s0.valid, Children(s0.uds, s0.valid, u, ks[..i]))
        invariant NoRepeats(ks) ==> KindByKind(s0, u, ks, i, Since(history, b0.history))
      {
        OneMoreKind(s0, valid, u, ks[..i], ks[i]);
        assert ks[..i + 1] == ks[..i] + [ks[i]];
        ghost var s, b := Now(), Rest();
        FreeChildren(ks[i], u);
        ProgressTrans(s0, b0, s, b, Now(), Rest());
        SinceTwice(b0.history, b.history, history);
        if NoRepeats(ks) {
          WayGrows(s0, u, ks, i, Since(b.history, b0.history), s, Since(history, b.history), Now());
        }
      }
      assert ks[..|ks|] == ks;
    }

    /** The destructors: freecontext, freedevice, freeprogram, freebuffer, freeplatform and the
        childless ones differ in the kinds they free first and in whether they end with ReleaseAll. */
    method Destroy(u: Id)
      requires Inv() && u in valid
      modifies this
      ensures Inv() && FamilyGone(old(Now()), old(Rest()), Now(), Rest(), u)
      decreases valid, nextId - u, 5
    {
      hide Consistent, BooksOk, Trail, Since, Covered, Destroyed, Forest, Under, Progress, FamilyGone;
      ghost var s0, b0 := Now(), Rest();
      InvFacts();
      FreeDescendants(u);
      ghost var s, b := Now(), Rest();
      FreeSelf(u, uds[u].handle, uds[u].kind);
      ProgressTrans(s0, b0, s, b, Now(), Rest());
      DestroyedExactly(s0, b0, Now(), Rest(), u);
    }

    /** The start of every destructor: of the object's family only the object itself is left. */
    method FreeDescendants(u: Id)
      requires Inv() && u in valid
      modifies this
      ensures Inv() && Progress(old(Now()), old(Rest()), Now(), Rest())
      ensures u in valid && u in uds && uds == old(uds) && nextId == old(nextId)
      ensures valid <= old(valid) && valid - {u} == old(valid) - Covered(uds, old(valid), {u})
      ensures forall v <- valid :: v in uds && uds[v].parent != Some(u)
      ensures old(valid) <= old(uds).Keys
      ensures var ks := match old(uds)[u].kind
        case Platform => [Context, Device]
        case Context => [Queue, Program, Event, Pipe, Image, Buffer, Sampler, Svm]
        case Device => [Device]
        case Program => [Kernel]
        case Buffer => [Buffer]
        case _ => [];
        KindByKind(old(Now()), u, ks, |ks|, Since(history, old(history)))
      decreases valid, nextId - u, 4
    {
      hide KindByKind, NoRepeats, Trail, Since, Consistent, BooksOk, Forest, ChildKinds, Progress, Covered;
      InvFacts();
      var kind := uds[u].kind;
      ghost var s0, b0 := Now(), Rest();
      ListedKinds(kind);
      NoWay(s0, u, ChildKinds(kind), |ChildKinds(kind)|, history);
      if kind != Device || u in hasSub {
        FreeAllChildren(ChildKinds(kind), u);
      } else {
        ProgressRefl(Now(), Rest());
        NoSubDevices(s0, u);
      }
      ProgressKeeps(s0, b0, Now(), Rest());
      ChildrenFreed(s0, valid, u);
    }

    lemma CountedHasCount(u: Id)
      requires Inv() && u in valid
      ensures u in uds && valid <= uds.Keys && (Counted(uds[u].kind) ==> uds[u].handle in counts)
      ensures !Counted(uds[u].kind) ==> uds[u].handle !in counts
    {
    }

    /** The end of every destructor: the guard, and the releases behind it. */
    method FreeSelf(u: Id, h: Handle, k: Kind)
      requires Inv() && u in valid && uds[u].handle == h && uds[u].kind == k
      requires forall v <- valid :: uds[v].parent != Some(u)
      modifies this
      ensures Inv() && Progress(old(Now()), old(Rest()), Now(), Rest())
      ensures valid == old(valid) - {u}
      decreases valid, nextId - u, 0
    {
      hide Consistent, BooksOk, LogOk, Trail, Since;
      CountedHasCount(u);
      var go := FreeUserdata(u);
      OneFreed(old(Now()), u, old(history), history);
      if !go {
        return;
      }
      if Counted(k) {
        ReleaseAll(h, u);
      } else {
        assert counts - {h} == counts;
        LastRelease(Now(), Rest(), h, u, counts);
        log := log + [u];
      }
    }

    // ---------- what scripts, the collector and the driver can ask for ----------

    /** newuserdata and the new... functions (objects.c:26-37, context.c:51-60, device.c:38-63, ...).
        The driver's handle of a new counted object differs from those of all its live objects. */
    method New(kind: Kind, parent: Option<Id>, h: Handle) returns (r: Option<Id>)
      requires Inv()
      requires Creatable(uds, valid, counts, kind, parent, h)
      modifies this
      ensures Inv() && r.Some? == (h !in old(registry))
      ensures r == None ==> Now() == old(Now()) && Rest() == old(Rest())
      ensures r.Some? ==> r.value == old(nextId) && Now() == Grown(old(Now()), r.value, Ud(h, kind, parent))
      ensures Current() == Effect(old(Current()), Create(kind, parent, h))
      ensures log == old(log) && history == if r.Some? then old(history) + [Now()] else old(history)
    {
      hide Consistent, BooksOk, Grown, GrownBooks;
      if h in registry {
        return None;
      }
      var u := nextId;
      InvFacts();
      NewOk(Now(), Rest(), Ud(h, kind, parent));
      AddUd(u, Ud(h, kind, parent));
      r := Some(u);
    }

    /** Any object of any kind can be created below any valid object of one of that kind's parent kinds, and an
        object without parent when its kind has none. */
    method CreateListed(kind: Kind, parent: Option<Id>, h: Handle) returns (u: Id)
      requires Inv() && h !in registry && h !in counts
      requires parent == None ==> kind in {Platform, Hostmem}
      requires parent.Some? ==> parent.value in valid && parent.value in uds && (kind, uds[parent.value].kind) in {
        (Device, Platform), (Context, Platform), (Device, Device), (Queue, Context), (Program, Context),
        (Event, Context), (Pipe, Context), (Image, Context), (Buffer, Context), (Sampler, Context), (Svm, Context),
        (Kernel, Program), (Buffer, Buffer)}
      modifies this
      ensures Inv() && u !in old(uds) && uds == old(uds)[u := Ud(h, kind, parent)]
      ensures valid == old(valid) + {u} && registry == old(registry)[h := u]
      ensures counts == if kind in {Platform, Svm, Hostmem} then old(counts) else old(counts)[h := 1]
      ensures hasSub == old(hasSub) +
        if kind == Device && parent.Some? && old(uds)[parent.value].kind == Device then {parent.value} else {}
    {
      hide Consistent, BooksOk, CanParent, Trail, Since, Known;
      InvFacts();
      ParentageExact();
      u := nextId;
      CreateEffect(Current(), kind, parent, h);
      Perform(Create(kind, parent, h));
    }

    /** Retaining adds one to the count of a valid object of a counted kind, and changes nothing otherwise. */
    method KeepListed(u: Id)
      requires Inv() && u in valid && u in uds
      modifies this
      ensures Inv() && Now() == old(Now())
      ensures if uds[u].kind in {Platform, Svm, Hostmem} then counts == old(counts)
              else var h := uds[u].handle; h in old(counts) && counts == old(counts)[h := old(counts)[h] + 1]
    {
      hide Consistent, BooksOk, Trail, Since, Effect, Forest, Counted;
      InvFacts();
      KeepExact(Now(), Rest(), u);
      Perform(Keep(u));
    }

    /** The driver counts exactly the valid objects of the counted kinds, from 1 up. */
    lemma CountsExact()
      requires Inv()
      ensures forall u <- valid :: u in uds && (uds[u].kind in {Platform, Svm, Hostmem} <==> uds[u].handle !in counts)
      ensures forall h <- counts :: h in registry && registry[h] in valid && counts[h] >= 1
    {
    }

    method AddUd(u: Id, ud: Ud)
      modifies this
      ensures Now() == Grown(old(Now()), u, ud) && Rest() == GrownBooks(old(Now()), old(Rest()), u, ud)
      ensures log == old(log) && history == old(history) + [Now()]
      ensures uds == old(uds)[u := ud] && valid == old(valid) + {u} && nextId == u + 1
      ensures counts == if Counted(ud.kind) then old(counts)[ud.handle := 1] else old(counts)
    {
      uds := uds[u := ud];
      valid := valid + {u};
      registry := registry[ud.handle := u];
      nextId := u + 1;
      if Counted(ud.kind) {
        counts := counts[ud.handle := 1];
      }
      if ud.kind == Device && ud.parent.Some? && ud.parent.value in uds && uds[ud.parent.value].kind == Device {
        hasSub := hasSub + {ud.parent.value};
      }
      history := history + [Now()];
    }

    /** RETAIN_FUNC (objects.h:353-360) */
    method Retain(u: Id)
      requires Inv() && u in valid && Counted(uds[u].kind)
      modifies this
      ensures Inv() && Current() == Effect(old(Current()), Keep(u)) && log == old(log) && history == old(history)
      ensures var h := uds[u].handle;
        Now() == old(Now()) && h in old(counts) && counts == old(counts)[h := old(counts)[h] + 1]
    {
      hide Consistent, BooksOk, Effect, Forest, Counted;
      InvFacts();
      RetainBooks(Now(), Rest(), u);
      counts := counts[uds[u].handle := counts[uds[u].handle] + 1];
    }

    lemma ReleasableFacts(u: Id)
      requires Inv() && u in valid && Counted(uds[u].kind)
      ensures Consistent(Now()) && Forest(uds) && valid <= uds.Keys && uds[u].handle in registry
      ensures uds[u].handle in counts && counts[uds[u].handle] >= 1 && !Releasing(uds[u].handle, u)
      ensures Known(Current(), u)
    {
    }

    /** RELEASE_FUNC (objects.h:362-375): the last release goes through the destructor. */
    method ReleaseOne(u: Id)
      requires Inv() && u in valid && Counted(uds[u].kind)
      modifies this
      ensures Inv() && Current() == Effect(old(Current()), Drop(u)) && old(log) <= log
      ensures old(history) <= history && Trail(old(Now()), Since(history, old(history)), Now(), false)
      ensures var h := old(uds)[u].handle;
        h in old(counts) && if old(counts)[h] == 1 then FamilyGone(old(Now()), old(Rest()), Now(), Rest(), u)
                            else Now() == old(Now()) && Changed(old(counts), counts, h, old(counts)[h] - 1)
    {
      hide Consistent, BooksOk, Trail, Since, Destroyed, Forest, Effect, FamilyGone, Known;
      ReleasableFacts(u);
      if counts[uds[u].handle] == 1 {
        DropEffect(Current(), u);
        DestroyFamily(u);
      } else {
        LowerCount(u);
      }
    }

    /** A call of the destructor from outside. */
    method DestroyFamily(u: Id)
      requires Inv() && u in valid
      modifies this
      ensures Inv() && FamilyGone(old(Now()), old(Rest()), Now(), Rest(), u)
      ensures Consistent(old(Now())) && Current() == Destroyed(old(Current()), u) && old(log) <= log
      ensures old(history) <= history && Trail(old(Now()), Since(history, old(history)), Now(), false)
    {
      hide Consistent, BooksOk, Trail, Since, Destroyed, FamilyGone;
      ghost var s0, b0 := Now(), Rest();
      Destroy(u);
      GoneResult(s0, b0, Now(), Rest(), u);
    }

    method LowerCount(u: Id)
      requires Inv() && u in valid && Counted(uds[u].kind)
      requires uds[u].handle in counts && counts[uds[u].handle] != 1
      modifies this
      ensures Inv() && Now() == old(Now()) && Rest() == old(Rest()).(counts := counts)
      ensures Consistent(old(Now())) && Current() == Effect(old(Current()), Drop(u))
      ensures var h := old(uds)[u].handle;
        h in old(counts) && Changed(old(counts), counts, h, old(counts)[h] - 1)
      ensures Trail(old(Now()), Since(history, old(history)), Now(), false)
    {
      hide Consistent, BooksOk, Forest, Trail, Since, Effect, Changed;
      ghost var s, before := Now(), history;
      NoTrail(s, before);
      ReleasableFacts(u);
      ChangedTo(counts, uds[u].handle, counts[uds[u].handle] - 1);
      DropEffect(Current(), u);
      Release(uds[u].handle, u);
      assert Now() == s && history == before;
    }

    /** DELETE_FUNC (objects.h:299-306), called by scripts and by the garbage collector. */
    method Delete(u: Id)
      requires Inv() && u in uds
      modifies this
      ensures Inv() && Current() == Effect(old(Current()), Kill(u)) && old(log) <= log
      ensures old(history) <= history && Trail(old(Now()), Since(history, old(history)), Now(), false)
      ensures if u in old(valid) then FamilyGone(old(Now()), old(Rest()), Now(), Rest(), u)
              else Now() == old(Now()) && Rest() == old(Rest())
    {
      hide Consistent, BooksOk, Trail, Since, Destroyed, Forest, Effect, FamilyGone;
      InvFacts();
      NoTrail(Now(), history);
      KillEffect(Current(), u);
      if u !in valid {
        return;
      }
      DestroyFamily(u);
    }

    /** Any run: the state after each request is the one before with exactly that request's effect; the history
        leads from the first to the last state by single creations and removals; and `Inv` says that all its
        states were consistent and how counts and last releases stand at the end. */
    method Run(script: seq<Op>) returns (ghost moments: seq<Moment>)
      requires Inv()
      modifies this
      ensures Inv() && old(log) <= log
      ensures |moments| == |script| + 1 && moments[0] == old(Current()) && moments[|script|] == Current()
      ensures forall i :: 0 <= i < |script| ==>
        Consistent(moments[i].s) && moments[i + 1] == Effect(moments[i], script[i])
      ensures old(history) <= history && Trail(old(Now()), Since(history, old(history)), Now(), true)
    {
      hide Consistent, BooksOk, Trail, Since, Effect;
      moments := [Current()];
      NoTrail(Now(), history);
      for i := 0 to |script|
        invariant Inv() && old(log) <= log && old(history) <= history
        invariant Trail(old(Now()), Since(history, old(history)), Now(), true)
        invariant |moments| == i + 1 && moments[0] == old(Current()) && moments[i] == Current()
        invariant forall j :: 0 <= j < i ==> Consistent(moments[j].s) && moments[j + 1] == Effect(moments[j], script[j])
      {
        ghost var s, before := Now(), history;
        Perform(script[i]);
        SinceTwice(old(history), before, history);
        TrailAppend(old(Now()), Since(before, old(history)), s, Since(history, before), Now(), true);
        moments := moments + [Current()];
      }
    }

    /** One request, with its argument checks. */
    method Perform(op: Op)
      requires Inv()
      modifies this
      ensures Inv() && Current() == Effect(old(Current()), op) && old(log) <= log
      ensures old(history) <= history && Trail(old(Now()), Since(history, old(history)), Now(), true)
    {
      hide Consistent, BooksOk, Trail, Since;
      InvFacts();
      NoTrail(Now(), history);
      match op {
        case Create(kind, parent, h) =>
          if Creatable(uds, valid, counts, kind, parent, h) {
            var u := New(kind, parent, h);
            if u.Some? {
              OneGrown(old(Now()), u.value, Ud(h, kind, parent), old(history), history);
            }
          }
        case Keep(u) =>
          if u in valid && Counted(uds[u].kind) {
            Retain(u);
          }
        case Drop(u) =>
          if u in valid && Counted(uds[u].kind) {
            ReleaseOne(u);
            TrailAllows(old(Now()), Since(history, old(history)), Now());
          }
        case Kill(u) =>
          if u in uds {
            Delete(u);
            TrailAllows(old(Now()), Since(history, old(history)), Now());
          }
      }
    }
  }

  datatype Op = Create(kind: Kind, parent: Option<Id>, handle: Handle) | Keep(u: Id) | Drop(u: Id) | Kill(u: Id)

  lemma {:induction false} UnderExtended(uds: Uds, uds': Uds, v: Id, u: Id)
    requires Forest(uds) && Forest(uds') && v in uds
    requires forall w <- uds :: w in uds' && uds'[w] == uds[w]
    ensures Under(uds, v, u) == Under(uds', v, u)
    decreases v
  {
    if uds[v].parent.Some? { UnderExtended(uds, uds', uds[v].parent.value, u); }
  }

  /** The state after newuserdata and the assignments behind it (device.c:50-61 for the marks). */
  ghost function Grown(s: State, u: Id, ud: Ud): State {
    State(s.uds[u := ud], s.valid + {u},
          if ud.kind == Device && ud.parent.Some? && ud.parent.value in s.uds[u := ud]
             && s.uds[u := ud][ud.parent.value].kind == Device
          then s.hasSub + {ud.parent.value} else s.hasSub,
          s.registry[ud.handle := u])
  }

  ghost function GrownBooks(s: State, b: Books, u: Id, ud: Ud): Books {
    Books(if Counted(ud.kind) then b.counts[ud.handle := 1] else b.counts, u + 1, b.log, b.history + [Grown(s, u, ud)])
  }

  ghost predicate MayAdd(s: State, u: Id, ud: Ud)
    requires Consistent(s)
  {
    && u !in s.uds && ud.handle !in s.registry
    && (match ud.parent
        case None => ud.kind == Platform || ud.kind == Hostmem
        case Some(p) => p in s.valid && p < u && CanParent(ud.kind, s.uds[p].kind))
  }

  lemma GrownConsistent(s: State, u: Id, ud: Ud)
    requires Consistent(s) && MayAdd(s, u, ud)
    ensures Consistent(Grown(s, u, ud))
  {
  }

  lemma NewOk(s: State, b: Books, ud: Ud)
    requires Consistent(s) && BooksOk(s, b, {}) && MayAdd(s, b.nextId, ud)
    requires Counted(ud.kind) ==> ud.handle !in b.counts
    ensures Consistent(Grown(s, b.nextId, ud))
    ensures BooksOk(Grown(s, b.nextId, ud), GrownBooks(s, b, b.nextId, ud), {})
  {
    hide Consistent, LogOk, Forest;
    GrownConsistent(s, b.nextId, ud);
    NewLog(s, Grown(s, b.nextId, ud), b.log, b.nextId);
    GrownBooksOk(s, b, b.nextId, ud);
  }

  lemma GrownBooksOk(s: State, b: Books, u: Id, ud: Ud)
    requires Consistent(s) && BooksOk(s, b, {}) && MayAdd(s, u, ud) && u == b.nextId
    requires Counted(ud.kind) ==> ud.handle !in b.counts
    requires Consistent(Grown(s, u, ud)) && LogOk(Grown(s, u, ud).uds, Grown(s, u, ud).valid, b.log)
    ensures BooksOk(Grown(s, u, ud), GrownBooks(s, b, u, ud), {})
  {
    hide LogOk, Forest;
  }

  lemma NewLog(s: State, s': State, log: seq<Id>, u: Id)
    requires Consistent(s) && Consistent(s') && LogOk(s.uds, s.valid, log)
    requires u !in s.uds && s'.valid == s.valid + {u} && forall w <- s.uds :: w in s'.uds && s'.uds[w] == s.uds[w]
    ensures LogOk(s'.uds, s'.valid, log)
  {
    forall i, j | 0 <= i < j < |log|
      ensures !Under(s'.uds, log[j], log[i])
    {
      UnderExtended(s.uds, s'.uds, log[j], log[i]);
    }
  }

  /** The children a scan has passed when its cursor is at `id`. */
  ghost function Passed(s: State, u: Id, k: Kind, id: Handle): set<Id>
    requires s.valid <= s.uds.Keys
  {
    set c | c in Children(s.uds, s.valid, u, [k]) && s.uds[c].handle < id
  }

  /** The valid objects when the scan's cursor is at `id`. */
  ghost function Remaining(s: State, u: Id, k: Kind, id: Handle): set<Id>
    requires Consistent(s)
  {
    s.valid - Covered(s.uds, s.valid, Passed(s, u, k, id))
  }

  /** A child not passed yet is still registered. */
  lemma AheadIsRegistered(s0: State, s: State, u: Id, k: Kind, id: Handle, c: Id)
    requires Consistent(s0) && Consistent(s) && s.uds == s0.uds
    requires s.valid == Remaining(s0, u, k, id)
    requires c in Children(s0.uds, s0.valid, u, [k]) && s0.uds[c].handle >= id
    ensures c in s.valid && s.uds[c].handle in s.registry && s.registry[s.uds[c].handle] == c
  {
    OtherChildrenStay(s0.uds, s0.valid, u, Passed(s0, u, k, id), c);
  }

  lemma NothingPassed(s: State, u: Id, k: Kind)
    requires Consistent(s)
    ensures s.valid == Remaining(s, u, k, 0)
  {
    assert Passed(s, u, k, 0) == {};
  }

  lemma FewerAhead(r: map<Handle, Id>, r': map<Handle, Id>, from: Handle, h: Handle)
    requires IsFirst(r, from, Some(h)) && r'.Keys <= r.Keys
    ensures Ahead(r', h + 1) < Ahead(r, from)
  {
    assert h in Ahead(r, from) && h !in Ahead(r', h + 1);
  }

  ghost function Ahead(r: map<Handle, Id>, id: Handle): set<Handle> {
    set h | h in r.Keys && h >= id
  }

  lemma ScanStep(s0: State, s: State, u: Id, k: Kind, id: Handle, h: Handle)
    requires Consistent(s0) && Consistent(s) && s.uds == s0.uds
    requires s.valid == Remaining(s0, u, k, id)
    requires IsFirst(s.registry, id, Some(h))
    ensures var c := s.registry[h];
      Remaining(s0, u, k, h + 1)
      == if s.uds[c].kind == k && s.uds[c].parent == Some(u) then s.valid - Covered(s.uds, s.valid, {c}) else s.valid
  {
    PassedStep(s0, s, u, k, id, h);
    CoveredTwice(s0.uds, s0.valid, Passed(s0, u, k, id), Match(s, u, k, s.registry[h]));
    assert Covered(s.uds, s.valid, {}) == {};
  }

  /** The child the scan is about to pass, if it has one before it. */
  ghost function Match(s: State, u: Id, k: Kind, c: Id): set<Id>
    requires c in s.uds
  {
    if s.uds[c].kind == k && s.uds[c].parent == Some(u) then {c} else {}
  }

  lemma ValidKnown(s: State)
    requires Consistent(s)
    ensures s.valid <= s.uds.Keys
  {
  }

  /** A matching object that the scan reaches is one of the children it has to pass. */
  lemma MatchIsAhead(s0: State, s: State, u: Id, k: Kind, id: Handle, h: Handle)
    requires Consistent(s0) && Consistent(s) && s.uds == s0.uds
    requires s.valid == Remaining(s0, u, k, id) && h in s.registry
    ensures var c := s.registry[h];
      c in s0.valid && s0.uds[c].handle == h && Match(s, u, k, c) <= Children(s0.uds, s0.valid, u, [k])
  {
  }

  lemma PassedStep(s0: State, s: State, u: Id, k: Kind, id: Handle, h: Handle)
    requires Consistent(s0) && Consistent(s) && s.uds == s0.uds
    requires s.valid == Remaining(s0, u, k, id)
    requires h in s.registry && h >= id && forall j <- s.registry | j >= id :: h <= j
    ensures Passed(s0, u, k, h + 1) == Passed(s0, u, k, id) + Match(s, u, k, s.registry[h])
  {
    ValidKnown(s0);
    forall c
      ensures c in Passed(s0, u, k, h + 1) <==> c in Passed(s0, u, k, id) || c in Match(s, u, k, s.registry[h])
    {
      PassedOne(s0, s, u, k, id, h, c);
    }
    hide Passed, Match, Consistent, Remaining;
  }

  lemma PassedOne(s0: State, s: State, u: Id, k: Kind, id: Handle, h: Handle, c: Id)
    requires Consistent(s0) && Consistent(s) && s.uds == s0.uds
    requires s.valid == Remaining(s0, u, k, id)
    requires h in s.registry && h >= id && forall j <- s.registry | j >= id :: h <= j
    ensures c in Passed(s0, u, k, h + 1) <==> c in Passed(s0, u, k, id) || c in Match(s, u, k, s.registry[h])
  {
    hide Consistent, Remaining, Children, Match;
    ValidKnown(s0);
    MatchedIs(s0, s, u, k, id, h, c);
    NoneBetween(s0, s, u, k, id, h, c);
  }

  /** What matches at the cursor is the child with that handle. */
  lemma MatchedIs(s0: State, s: State, u: Id, k: Kind, id: Handle, h: Handle, c: Id)
    requires Consistent(s0) && Consistent(s) && s.uds == s0.uds
    requires s.valid == Remaining(s0, u, k, id) && h in s.registry && h >= id
    ensures s0.valid <= s0.uds.Keys && s.registry[h] in s.uds
    ensures c in Match(s, u, k, s.registry[h]) <==>
      c in Children(s0.uds, s0.valid, u, [k]) && s0.uds[c].handle == h
  {
    ValidKnown(s0);
    MatchIsAhead(s0, s, u, k, id, h);
    hide Consistent, Remaining;
    if c in Children(s0.uds, s0.valid, u, [k]) && s0.uds[c].handle == h {
      AheadIsRegistered(s0, s, u, k, id, c);
    }
  }

  /** No child's handle lies between the cursor and the first registered handle from there on. */
  lemma NoneBetween(s0: State, s: State, u: Id, k: Kind, id: Handle, h: Handle, c: Id)
    requires Consistent(s0) && Consistent(s) && s.uds == s0.uds
    requires s.valid == Remaining(s0, u, k, id)
    requires forall j <- s.registry | j >= id :: h <= j
    ensures s0.valid <= s0.uds.Keys
    ensures c in Children(s0.uds, s0.valid, u, [k]) ==> s0.uds[c].handle < id || h <= s0.uds[c].handle
  {
    ValidKnown(s0);
    hide Consistent, Remaining;
    if c in Children(s0.uds, s0.valid, u, [k]) && id <= s0.uds[c].handle {
      AheadIsRegistered(s0, s, u, k, id, c);
    }
  }

  lemma ScanEnd(s0: State, s: State, u: Id, k: Kind, id: Handle)
    requires Consistent(s0) && Consistent(s) && s.uds == s0.uds
    requires s.valid == Remaining(s0, u, k, id)
    requires IsFirst(s.registry, id, None)
    ensures s.valid == s0.valid - Covered(s0.uds, s0.valid, Children(s0.uds, s0.valid, u, [k]))
  {
    forall c | c in Children(s0.uds, s0.valid, u, [k])
      ensures s0.uds[c].handle < id
    {
      if s0.uds[c].handle >= id { AheadIsRegistered(s0, s, u, k, id, c); }
    }
    assert Passed(s0, u, k, id) == Children(s0.uds, s0.valid, u, [k]);
  }

  lemma OneMoreKind(s0: State, valid: set<Id>, u: Id, ks: seq<Kind>, k: Kind)
    requires Consistent(s0) && valid == s0.valid - Covered(s0.uds, s0.valid, Children(s0.uds, s0.valid, u, ks))
    ensures valid - Covered(s0.uds, valid, Children(s0.uds, valid, u, [k]))
         == s0.valid - Covered(s0.uds, s0.valid, Children(s0.uds, s0.valid, u, ks + [k]))
  {
    var a, b := Children(s0.uds, s0.valid, u, ks), Children(s0.uds, valid, u, [k]);
    CoveredTwice(s0.uds, s0.valid, a, b);
    forall c | c in Children(s0.uds, s0.valid, u, [k])
      ensures c in a + b
    {
      if c !in a { OtherChildrenStay(s0.uds, s0.valid, u, a, c); }
    }
    assert a + b == Children(s0.uds, s0.valid, u, ks + [k]);
  }

  lemma NoKinds(s: State, u: Id)
    requires Consistent(s)
    ensures s.valid == s.valid - Covered(s.uds, s.valid, Children(s.uds, s.valid, u, []))
  {
  }

  /** device.c:31: without the mark there is nothing to free. */
  lemma NoSubDevices(s: State, u: Id)
    requires Consistent(s) && u in s.valid && s.uds[u].kind == Device && u !in s.hasSub
    ensures Covered(s.uds, s.valid, Children(s.uds, s.valid, u, ChildKinds(Device))) == {}
  {
    assert Children(s.uds, s.valid, u, ChildKinds(Device)) == {};
  }

  lemma ChildrenFreed(s: State, valid: set<Id>, u: Id)
    requires Consistent(s) && u in s.valid
    requires valid == s.valid - Covered(s.uds, s.valid, Children(s.uds, s.valid, u, ChildKinds(s.uds[u].kind)))
    ensures u in valid && valid - {u} == s.valid - Covered(s.uds, s.valid, {u})
    ensures forall v <- valid :: s.uds[v].parent != Some(u)
  {
    ChildrenComplete(s, u);
    assert Under(s.uds, u, u);
    forall v | v in valid
      ensures s.uds[v].parent != Some(u)
    {
      if s.uds[v].parent == Some(u) { assert Under(s.uds, u, u) && Under(s.uds, v, u); }
    }
  }
}
