/** The code<->string map of src/enums.c: every record hangs in two red-black trees. */
module Enums {
  import opened TreeOrder
  import RbTree

  /** rec_t (enums.c:35-41), with the address that tells one record from another. */
  datatype Rec = Rec(addr: nat, domain: nat, code: nat, str: string)

  datatype Result<T> = Ok(value: T) | Duplicate | NotFound | NotPresent

  // ---------- the comparison functions ----------

  /** enums.c:44-49 */
  function CmpCode(x: Rec, y: Rec): int {
    if x.domain != y.domain then if x.domain < y.domain then -1 else 1
    else if x.code < y.code then -1 else if x.code > y.code then 1 else 0
  }

  /** strcmp of the C library, on strings without their terminator. */
  function StrCmp(s: string, t: string): int {
    if s == [] then (if t == [] then 0 else -1)
    else if t == [] then 1
    else if s[0] == t[0] then StrCmp(s[1..], t[1..])
    else if s[0] < t[0] then -1 else 1
  }

  /** enums.c:51-56 */
  function CmpStr(x: Rec, y: Rec): int {
    if x.domain != y.domain then if x.domain < y.domain then -1 else 1 else StrCmp(x.str, y.str)
  }

  lemma {:induction false} StrCmpEqual(s: string, t: string)
    ensures StrCmp(s, t) == 0 <==> s == t
    ensures StrCmp(s, t) < 0 <==> StrCmp(t, s) > 0
  {
    if s != [] && t != [] {
      StrCmpEqual(s[1..], t[1..]);
      assert s == [s[0]] + s[1..] && t == [t[0]] + t[1..];
    }
  }

  lemma {:induction false} StrCmpChain(s: string, t: string, u: string)
    requires StrCmp(s, t) <= 0 && StrCmp(t, u) <= 0
    ensures StrCmp(s, u) <= 0
  {
    if s != [] && t != [] && u != [] && s[0] == t[0] && t[0] == u[0] {
      StrCmpChain(s[1..], t[1..], u[1..]);
    }
  }

  lemma CodeLawful()
    ensures Lawful(CmpCode)
  {
    forall x, y, z
      ensures LawfulAt(CmpCode, x, y, z)
    {
    }
  }

  lemma StrLawful()
    ensures Lawful(CmpStr)
  {
    forall x, y, z
      ensures LawfulAt(CmpStr, x, y, z)
    {
      StrCmpEqual(x.str, y.str);
      if StrCmp(x.str, y.str) <= 0 && StrCmp(y.str, z.str) <= 0 {
        StrCmpChain(x.str, y.str, z.str);
      }
    }
  }

  // ---------- what a set of records means ----------

  ghost predicate Unambiguous(all: set<Rec>) {
    forall x <- all, y <- all | x.domain == y.domain && (x.code == y.code || x.str == y.str) :: x == y
  }

  ghost predicate Clashes(all: set<Rec>, domain: nat, code: nat, str: string) {
    exists x <- all :: x.domain == domain && (x.code == code || x.str == str)
  }

  ghost predicate Maps(all: set<Rec>, domain: nat, code: nat, str: string) {
    exists x <- all :: x.domain == domain && x.code == code && x.str == str
  }

  /** Within a domain, code<->string is a bijection. */
  lemma Bijection(all: set<Rec>, domain: nat, code: nat, str: string, code': nat, str': string)
    requires Unambiguous(all) && Maps(all, domain, code, str) && Maps(all, domain, code', str')
    ensures code == code' <==> str == str'
  {
  }

  lemma SortedUnambiguous(s: seq<Elem<Rec>>, s': seq<Elem<Rec>>)
    requires Sorted(CmpCode, s) && Sorted(CmpStr, s') && Keys(s) == Keys(s')
    ensures Unambiguous(Keys(s))
  {
    CodeLawful();
    StrLawful();
    hide Sorted, Lawful;
    forall x, y | x in Keys(s) && y in Keys(s) && x.domain == y.domain && (x.code == y.code || x.str == y.str)
      ensures x == y
    {
      if x.code == y.code {
        var e :| e in s && e.key == x;
        var f :| f in s && f.key == y;
        SameKey(CmpCode, s, e, f);
      } else {
        assert x in Keys(s') && y in Keys(s');
        var e :| e in s' && e.key == x;
        var f :| f in s' && f.key == y;
        StrCmpEqual(x.str, y.str);
        SameKey(CmpStr, s', e, f);
      }
    }
  }

  lemma TreeOrdered(h: RbTree.Head<Rec>)
    requires h.Valid()
    ensures Lawful(h.cmp) && Sorted(h.cmp, h.Contents())
  {
  }

  /** A record that compares equal to one in the tree either is it or is not in the tree. */
  lemma OnlyKey(cmp: (Rec, Rec) -> int, s: seq<Elem<Rec>>, found: Elem<Rec>, rec: Rec)
    requires Lawful(cmp) && Sorted(cmp, s) && found in s && cmp(found.key, rec) == 0
    ensures rec in Keys(s) ==> found.key == rec
  {
    if rec in Keys(s) {
      var e :| e in s && e.key == rec;
      SameKey(cmp, s, found, e);
    }
  }

  lemma SomeKey(s: seq<Elem<Rec>>)
    requires s != []
    ensures Keys(s) != {}
  {
    assert s[0].key in Keys(s);
  }

  /** No record comes before domain 0, code 0. */
  lemma LeastRecord(s: seq<Elem<Rec>>, at: nat)
    requires 0 < at <= |s|
    ensures !Below(CmpCode, s, at, Rec(0, 0, 0, ""))
  {
    assert CmpCode(Rec(0, 0, 0, ""), s[0].key) <= 0;
  }

  /** The records of one domain, in the order of `s`. */
  ghost function Listed(s: seq<Elem<Rec>>, domain: nat): seq<Rec> {
    if s == [] then [] else
    var last := s[|s| - 1].key;
    Listed(s[..|s| - 1], domain) + if last.domain == domain then [last] else []
  }

  ghost predicate CodesAscend(r: seq<Rec>) {
    forall i, j :: 0 <= i < j < |r| ==> r[i].code < r[j].code
  }

  lemma ListedOneMore(s: seq<Elem<Rec>>, i: nat, domain: nat)
    requires i < |s|
    ensures Listed(s[..i + 1], domain) == Listed(s[..i], domain) + if s[i].key.domain == domain then [s[i].key] else []
  {
    assert s[..i + 1][..i] == s[..i];
  }

  /** Nothing before the least place for the domain belongs to it. */
  lemma {:induction false} ListedNone(s: seq<Elem<Rec>>, i: nat, domain: nat)
    requires Below(CmpCode, s, i, Rec(0, domain, 0, ""))
    ensures Listed(s[..i], domain) == []
  {
    if i > 0 {
      ListedNone(s, i - 1, domain);
      ListedOneMore(s, i - 1, domain);
      assert CmpCode(Rec(0, domain, 0, ""), s[i - 1].key) > 0;
    }
  }

  lemma {:induction false} ListedMembers(s: seq<Elem<Rec>>, domain: nat)
    ensures forall x :: x in Listed(s, domain) <==> x in Keys(s) && x.domain == domain
  {
    if s != [] {
      var n := |s| - 1;
      ListedMembers(s[..n], domain);
      assert s == s[..n] + [s[n]];
      KeysAppended(s[..n], s[n]);
      hide Keys;
    }
  }

  lemma {:induction false} ListedOrder(s: seq<Elem<Rec>>, domain: nat)
    requires Sorted(CmpCode, s)
    ensures CodesAscend(Listed(s, domain))
  {
    if s != [] {
      var n := |s| - 1;
      ListedOrder(s[..n], domain);
      ListedMembers(s[..n], domain);
      var r := Listed(s[..n], domain);
      if s[n].key.domain == domain {
        forall x | x in r
          ensures x.code < s[n].key.code
        {
          Earlier(s, n, x);
        }
        OneMoreCode(r, s[n].key);
      }
    }
  }

  lemma OneMoreCode(r: seq<Rec>, last: Rec)
    requires CodesAscend(r) && forall x <- r :: x.code < last.code
    ensures CodesAscend(r + [last])
  {
  }

  lemma Earlier(s: seq<Elem<Rec>>, n: nat, x: Rec)
    requires Sorted(CmpCode, s) && n < |s| && x in Keys(s[..n]) && x.domain == s[n].key.domain
    ensures x.code < s[n].key.code
  {
    var e :| e in s[..n] && e.key == x;
    var i :| 0 <= i < n && s[i] == e;
    assert CmpCode(s[i].key, s[n].key) < 0;
  }

  lemma KeysAppended(s: seq<Elem<Rec>>, e: Elem<Rec>)
    ensures Keys(s + [e]) == Keys(s) + {e.key}
  {
    assert forall x :: x in s + [e] <==> x in s || x == e;
  }

  class EnumMap {
    const codes: RbTree.Head<Rec>
    const strings: RbTree.Head<Rec>

    ghost predicate Valid()
      reads codes, strings, codes.nodes, strings.nodes
    {
      && codes.Valid() && codes.cmp == CmpCode && strings.Valid() && strings.cmp == CmpStr
      && codes != strings && codes.nodes !! strings.nodes
      && Keys(codes.Contents()) == Keys(strings.Contents())
    }

    /** The records, the same in both trees. */
    ghost function All(): set<Rec>
      reads codes
    {
      Keys(codes.Contents())
    }

    lemma ValidUnambiguous()
      requires Valid()
      ensures Unambiguous(All())
    {
      SortedUnambiguous(codes.Contents(), strings.Contents());
    }

    constructor ()
      ensures Valid() && All() == {} && fresh(codes) && fresh(strings)
    {
      CodeLawful();
      StrLawful();
      codes := new RbTree.Head(CmpCode);
      strings := new RbTree.Head(CmpStr);
    }

    /** code_search (enums.c:70-71) */
    method CodeSearch(domain: nat, code: nat) returns (r: Elem?<Rec>)
      requires codes.Valid() && codes.cmp == CmpCode
      ensures r == null ==> forall x <- Keys(codes.Contents()) :: x.domain != domain || x.code != code
      ensures r != null ==> r in codes.nodes && r in codes.Contents()
      ensures r != null ==> r.key.domain == domain && r.key.code == code
    {
      hide RbTree.Head.Valid, RbTree.Head.Contents;
      ghost var steps;
      r, steps := codes.Find(Rec(0, domain, code, ""));
    }

    /** str_search (enums.c:91-92) */
    method StrSearch(domain: nat, str: string) returns (r: Elem?<Rec>)
      requires strings.Valid() && strings.cmp == CmpStr
      ensures r == null ==> forall x <- Keys(strings.Contents()) :: x.domain != domain || x.str != str
      ensures r != null ==> r in strings.nodes && r in strings.Contents()
      ensures r != null ==> r.key.domain == domain && r.key.str == str
    {
      hide RbTree.Head.Valid, RbTree.Head.Contents;
      ghost var steps;
      r, steps := strings.Find(Rec(0, domain, 0, str));
      forall x: Rec
        ensures StrCmp(str, x.str) == 0 <==> str == x.str
      {
        StrCmpEqual(str, x.str);
      }
    }

    /** enums_new (enums.c:109-128): `addr` is where the new record is. */
    method New(addr: nat, domain: nat, code: nat, str: string) returns (r: Result<()>)
      requires Valid()
      modifies codes, strings, codes.nodes, strings.nodes
      ensures Valid() && fresh(codes.nodes - old(codes.nodes)) && fresh(strings.nodes - old(strings.nodes))
      ensures r == if Clashes(old(All()), domain, code, str) then Duplicate else Ok(())
      ensures All() == if r.Ok? then old(All()) + {Rec(addr, domain, code, str)} else old(All())
    {
      hide RbTree.Head.Valid, RbTree.Head.Contents, InsertedInto;
      var rec := Rec(addr, domain, code, str);
      var byCode := CodeSearch(domain, code);
      var byString := StrSearch(domain, str);
      if byCode != null || byString != null {
        return Duplicate;
      }
      AddCode(rec);
      AddString(rec);
      r := Ok(());
    }

    /** code_insert (enums.c:68-69) of a new record. */
    method AddCode(rec: Rec)
      requires codes.Valid() && codes.cmp == CmpCode
      requires forall x <- Keys(codes.Contents()) :: x.domain != rec.domain || x.code != rec.code
      modifies codes, codes.nodes
      ensures codes.Valid() && fresh(codes.nodes - old(codes.nodes))
      ensures Keys(codes.Contents()) == old(Keys(codes.Contents())) + {rec}
    {
      hide RbTree.Head.Valid, RbTree.Head.Contents, InsertedInto;
      ghost var s := codes.Contents();
      var node := new Elem(rec);
      var hit := codes.Insert(node);
      KeysInserted(s, node, codes.Contents());
    }

    /** str_insert (enums.c:89-90) of a new record. */
    method AddString(rec: Rec)
      requires strings.Valid() && strings.cmp == CmpStr
      requires forall x <- Keys(strings.Contents()) :: x.domain != rec.domain || x.str != rec.str
      modifies strings, strings.nodes
      ensures strings.Valid() && fresh(strings.nodes - old(strings.nodes))
      ensures Keys(strings.Contents()) == old(Keys(strings.Contents())) + {rec}
    {
      hide RbTree.Head.Valid, RbTree.Head.Contents, InsertedInto;
      ghost var s := strings.Contents();
      var node := new Elem(rec);
      var hit := strings.Insert(node);
      if hit != null {
        StrCmpEqual(rec.str, hit.key.str);
      }
      KeysInserted(s, node, strings.Contents());
    }

    /** enums_free (enums.c:130-138) */
    method Free(rec: Rec)
      requires Valid()
      modifies codes, strings, codes.nodes, strings.nodes
      ensures Valid() && codes.nodes <= old(codes.nodes) && strings.nodes <= old(strings.nodes)
      ensures All() == old(All()) - {rec}
    {
      hide RbTree.Head.Valid, RbTree.Head.Contents, Keys;
      DropCode(rec);
      DropString(rec);
    }

    /** enums.c:132-133 */
    method DropCode(rec: Rec)
      requires codes.Valid() && codes.cmp == CmpCode
      modifies codes, codes.nodes
      ensures codes.Valid() && codes.nodes <= old(codes.nodes)
      ensures Keys(codes.Contents()) == old(Keys(codes.Contents())) - {rec}
    {
      hide RbTree.Head.Valid, RbTree.Head.Contents, RemovedFrom;
      ghost var s := codes.Contents();
      TreeOrdered(codes);
      var found := CodeSearch(rec.domain, rec.code);
      if found != null {
        OnlyKey(CmpCode, s, found, rec);
        if found.key == rec {
          var _ := codes.Remove(found);
          KeysRemoved(CmpCode, s, found, codes.Contents());
        }
      }
    }

    /** enums.c:134-135 */
    method DropString(rec: Rec)
      requires strings.Valid() && strings.cmp == CmpStr
      modifies strings, strings.nodes
      ensures strings.Valid() && strings.nodes <= old(strings.nodes)
      ensures Keys(strings.Contents()) == old(Keys(strings.Contents())) - {rec}
    {
      hide RbTree.Head.Valid, RbTree.Head.Contents, RemovedFrom;
      ghost var s := strings.Contents();
      TreeOrdered(strings);
      var found := StrSearch(rec.domain, rec.str);
      if found != null {
        StrCmpEqual(found.key.str, rec.str);
        OnlyKey(CmpStr, s, found, rec);
        if found.key == rec {
          var _ := strings.Remove(found);
          KeysRemoved(CmpStr, s, found, strings.Contents());
        }
      }
    }

    /** code_first (enums.c:72-73), with the place in the code order where the search ends. */
    method CodeFirst(domain: nat, code: nat) returns (r: Elem?<Rec>, ghost at: nat)
      requires Valid()
      ensures at <= |codes.Contents()| && Below(CmpCode, codes.Contents(), at, Rec(0, domain, code, ""))
      ensures r == if at < |codes.Contents()| then codes.Contents()[at] else null
      ensures r != null ==> r in codes.nodes && CmpCode(Rec(0, domain, code, ""), r.key) <= 0
    {
      hide RbTree.Head.Valid, RbTree.Head.Contents;
      ghost var steps;
      r, at, steps := codes.NFind(Rec(0, domain, code, ""));
    }

    /** enums_free_all (enums.c:140-145) */
    method FreeAll()
      requires Valid()
      modifies codes, strings, codes.nodes, strings.nodes
      ensures Valid() && All() == {} && codes.Contents() == [] && strings.Contents() == []
    {
      hide RbTree.Head.Valid, RbTree.Head.Contents;
      ghost var at: nat;
      var rec;
      rec, at := CodeFirst(0, 0);
      while rec != null
        invariant Valid() && codes.nodes <= old(codes.nodes) && strings.nodes <= old(strings.nodes)
        invariant at <= |codes.Contents()| && Below(CmpCode, codes.Contents(), at, Rec(0, 0, 0, ""))
        invariant rec == if at < |codes.Contents()| then codes.Contents()[at] else null
        decreases All()
      {
        assert codes.Contents()[at] in codes.Contents();
        assert rec.key in All();
        Free(rec.key);
        rec, at := CodeFirst(0, 0);
      }
      if codes.Contents() != [] {
        LeastRecord(codes.Contents(), at);
      }
      if strings.Contents() != [] {
        SomeKey(strings.Contents());
      }
    }

    /** enums_check (enums.c:184-194), given the string argument. */
    method Check(domain: nat, str: string) returns (r: Result<nat>)
      requires Valid()
      ensures r.Ok? ==> Maps(All(), domain, r.value, str)
      ensures !r.Ok? ==> r == NotFound && forall code :: !Maps(All(), domain, code, str)
    {
      hide RbTree.Head.Valid, RbTree.Head.Contents;
      var rec := StrSearch(domain, str);
      if rec == null {
        return NotFound;
      }
      assert rec.key in Keys(strings.Contents());
      r := Ok(rec.key.code);
    }

    /** enums_push (enums.c:196-205) */
    method Push(domain: nat, code: nat) returns (r: Result<string>)
      requires Valid()
      ensures r.Ok? ==> Maps(All(), domain, code, r.value)
      ensures !r.Ok? ==> r == NotFound && forall str :: !Maps(All(), domain, code, str)
    {
      hide RbTree.Head.Valid, RbTree.Head.Contents;
      var rec := CodeSearch(domain, code);
      if rec == null {
        return NotFound;
      }
      assert rec.key in All();
      r := Ok(rec.key.str);
    }

    /** enums_test (enums.c:168-182): the argument may be absent. */
    method Test(domain: nat, arg: Result<string>) returns (r: Result<nat>)
      requires Valid()
      ensures !arg.Ok? ==> r == NotPresent
      ensures arg.Ok? && r.Ok? ==> Maps(All(), domain, r.value, arg.value)
      ensures arg.Ok? && !r.Ok? ==> r == NotFound && forall code :: !Maps(All(), domain, code, arg.value)
    {
      if !arg.Ok? {
        return NotPresent;
      }
      r := Check(domain, arg.value);
    }

    /** A string that has a code gets back to itself through that code. */
    method CheckThenPush(domain: nat, str: string) returns (r: Result<string>)
      requires Valid()
      ensures r == if exists code :: Maps(All(), domain, code, str) then Ok(str) else NotFound
    {
      hide RbTree.Head.Valid, RbTree.Head.Contents, Keys;
      var code := Check(domain, str);
      if !code.Ok? {
        return NotFound;
      }
      r := Push(domain, code.value);
      ValidUnambiguous();
      if r.Ok? {
        Bijection(All(), domain, code.value, str, code.value, r.value);
      }
    }

    /** A code that has a string gets back to itself through that string. */
    method PushThenCheck(domain: nat, code: nat) returns (r: Result<nat>)
      requires Valid()
      ensures r == if exists str :: Maps(All(), domain, code, str) then Ok(code) else NotFound
    {
      hide RbTree.Head.Valid, RbTree.Head.Contents, Keys;
      var str := Push(domain, code);
      if !str.Ok? {
        return NotFound;
      }
      r := Check(domain, str.value);
      ValidUnambiguous();
      if r.Ok? {
        Bijection(All(), domain, code, str.value, r.value, str.value);
      }
    }

    /** enums_values (enums.c:207-226): the strings of one domain's records, by ascending code. */
    method Values(domain: nat) returns (vals: seq<string>)
      requires Valid()
      ensures var recs := Listed(codes.Contents(), domain);
        && |vals| == |recs| && (forall i :: 0 <= i < |vals| ==> vals[i] == recs[i].str)
        && CodesAscend(recs) && forall x :: x in recs <==> x in All() && x.domain == domain
    {
      hide RbTree.Head.Valid, RbTree.Head.Contents, Sorted, Listed, Below, Keys;
      ghost var s, i := codes.Contents(), 0;
      TreeOrdered(codes);
      vals := [];
      var rec;
      rec, i := CodeFirst(domain, 0);
      ListedNone(s, i, domain);
      while rec != null
        invariant Valid() && s == codes.Contents()
        invariant i <= |s| && rec == (if i < |s| then s[i] else null) && (rec != null ==> rec in codes.nodes)
        invariant |vals| == |Listed(s[..i], domain)|
        invariant forall j :: 0 <= j < |vals| ==> vals[j] == Listed(s[..i], domain)[j].str
        decreases |s| - i
      {
        ListedOneMore(s, i, domain);
        if rec.key.domain == domain {
          vals := vals + [rec.key.str];
        }
        ghost var at;
        rec, at := codes.Next(rec);
        i := i + 1;
      }
      assert s[..i] == s;
      ListedMembers(s, domain);
      ListedOrder(s, domain);
    }
  }
}
