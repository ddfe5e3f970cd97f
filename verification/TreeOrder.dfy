/** Nodes, keys and the order of keys, shared by both kinds of tree in src/tree.h. */
module TreeOrder {
  /** A tree node: the record's key and the links of RB_ENTRY (tree.h:305-311); SPLAY_ENTRY
      (tree.h:69-73) uses `left` and `right` only. */
  class Elem<K> {
    const key: K
    var left: Elem?<K>
    var right: Elem?<K>
    var parent: Elem?<K>
    var red: bool

    constructor (key: K)
      ensures this.key == key
    {
      this.key := key;
      left, right, parent, red := null, null, null, false;
    }
  }

  // ---------- search order ----------

  /** `cmp` orders keys: swapping the arguments swaps the sign, and "at most" is transitive. */
  ghost predicate Lawful<K(!new)>(cmp: (K, K) -> int) {
    forall x, y, z :: LawfulAt(cmp, x, y, z)
  }

  ghost predicate LawfulAt<K>(cmp: (K, K) -> int, x: K, y: K, z: K) {
    && (cmp(x, y) < 0 <==> cmp(y, x) > 0)
    && (cmp(x, y) <= 0 && cmp(y, z) <= 0 ==> cmp(x, z) <= 0)
  }

  ghost predicate Sorted<K>(cmp: (K, K) -> int, s: seq<Elem<K>>) {
    forall i, j :: 0 <= i < j < |s| ==> cmp(s[i].key, s[j].key) < 0
  }

  /** The first `n` elements of `s` come before key `k`. */
  ghost predicate Below<K>(cmp: (K, K) -> int, s: seq<Elem<K>>, n: nat, k: K) {
    n <= |s| && forall i :: 0 <= i < n ==> cmp(k, s[i].key) > 0
  }

  /** The elements of `s` from index `n` on come after key `k`. */
  ghost predicate Above<K>(cmp: (K, K) -> int, s: seq<Elem<K>>, n: nat, k: K) {
    n <= |s| && forall i :: n <= i < |s| ==> cmp(k, s[i].key) < 0
  }

  lemma StrictlyLess<K(!new)>(cmp: (K, K) -> int, x: K, y: K, z: K)
    requires Lawful(cmp)
    ensures cmp(x, y) < 0 && cmp(y, z) <= 0 ==> cmp(x, z) < 0
    ensures cmp(x, y) <= 0 && cmp(y, z) < 0 ==> cmp(x, z) < 0
  {
    assert LawfulAt(cmp, x, y, z) && LawfulAt(cmp, y, z, x) && LawfulAt(cmp, z, x, y);
    assert LawfulAt(cmp, y, x, z) && LawfulAt(cmp, z, y, x) && LawfulAt(cmp, x, z, y);
  }

  /** Comparing `k` with one element of a sorted sequence settles one side of it. */
  lemma SplitSearch<K(!new)>(cmp: (K, K) -> int, s: seq<Elem<K>>, at: nat, k: K)
    requires Lawful(cmp) && Sorted(cmp, s) && at < |s|
    ensures cmp(k, s[at].key) <= 0 ==> Above(cmp, s, at + 1, k)
    ensures cmp(k, s[at].key) >= 0 ==> Below(cmp, s, at, k)
    ensures cmp(k, s[at].key) < 0 ==> Above(cmp, s, at, k)
    ensures cmp(k, s[at].key) > 0 ==> Below(cmp, s, at + 1, k)
  {
    forall i | at < i < |s| && cmp(k, s[at].key) <= 0
      ensures cmp(k, s[i].key) < 0
    {
      StrictlyLess(cmp, k, s[at].key, s[i].key);
    }
    forall i | 0 <= i < at && cmp(k, s[at].key) >= 0
      ensures cmp(k, s[i].key) > 0
    {
      assert LawfulAt(cmp, s[at].key, k, k) && LawfulAt(cmp, k, s[at].key, k) && LawfulAt(cmp, s[i].key, k, k);
      StrictlyLess(cmp, s[i].key, s[at].key, k);
    }
  }

  lemma SortedInsert<K(!new)>(cmp: (K, K) -> int, s: seq<Elem<K>>, at: nat, e: Elem<K>)
    requires Lawful(cmp) && Sorted(cmp, s) && Below(cmp, s, at, e.key) && Above(cmp, s, at, e.key)
    ensures Sorted(cmp, s[..at] + [e] + s[at..])
  {
    forall i | 0 <= i < at
      ensures cmp(s[i].key, e.key) < 0
    {
      assert LawfulAt(cmp, s[i].key, e.key, e.key);
    }
  }

  /** No element occurs twice in a sorted sequence. */
  lemma OnlyPlace<K(!new)>(cmp: (K, K) -> int, s: seq<Elem<K>>, at: nat)
    requires Lawful(cmp) && Sorted(cmp, s) && at < |s|
    ensures forall i :: 0 <= i < |s| && s[i] == s[at] ==> i == at
  {
    assert LawfulAt(cmp, s[at].key, s[at].key, s[at].key);
  }

  lemma Absent<K>(cmp: (K, K) -> int, s: seq<Elem<K>>, at: nat, k: K)
    requires Below(cmp, s, at, k) && Above(cmp, s, at, k)
    ensures forall x <- s :: cmp(k, x.key) != 0
  {
    forall x | x in s
      ensures cmp(k, x.key) != 0
    {
      var i :| 0 <= i < |s| && s[i] == x;
    }
  }

  lemma SortedRemove<K>(cmp: (K, K) -> int, s: seq<Elem<K>>, at: nat)
    requires Sorted(cmp, s) && at < |s|
    ensures Sorted(cmp, s[..at] + s[at + 1..])
  {
  }

  /** `s'` is `s` with `e` put in somewhere. */
  ghost predicate InsertedInto<K>(s: seq<Elem<K>>, e: Elem<K>, s': seq<Elem<K>>) {
    exists i | 0 <= i <= |s| :: s' == s[..i] + [e] + s[i..]
  }

  /** `s'` is `s` without the element `e`. */
  ghost predicate RemovedFrom<K>(s: seq<Elem<K>>, e: Elem<K>, s': seq<Elem<K>>) {
    exists i | 0 <= i < |s| :: s[i] == e && s' == s[..i] + s[i + 1..]
  }

  lemma RemovedMiddle<K>(a: seq<Elem<K>>, l: seq<Elem<K>>, e: Elem<K>, r: seq<Elem<K>>, b: seq<Elem<K>>)
    ensures RemovedFrom(a + (l + [e] + r) + b, e, a + (l + r) + b)
  {
    var s, at := a + (l + [e] + r) + b, |a| + |l|;
    assert s[at] == e;
    assert s[..at] == a + l;
    assert s[at + 1..] == r + b;
    assert a + (l + r) + b == (a + l) + (r + b);
  }

  lemma SortedRemoved<K>(cmp: (K, K) -> int, s: seq<Elem<K>>, e: Elem<K>, s': seq<Elem<K>>)
    requires Sorted(cmp, s) && RemovedFrom(s, e, s')
    ensures Sorted(cmp, s')
  {
    var i :| 0 <= i < |s| && s[i] == e && s' == s[..i] + s[i + 1..];
    SortedRemove(cmp, s, i);
  }

  // ---------- the elements and the keys of a sequence ----------

  lemma InsertedMembers<K>(s: seq<Elem<K>>, e: Elem<K>, s': seq<Elem<K>>)
    requires InsertedInto(s, e, s')
    ensures forall x :: x in s' <==> x in s || x == e
  {
    var i :| 0 <= i <= |s| && s' == s[..i] + [e] + s[i..];
    assert s == s[..i] + s[i..];
  }

  lemma RemovedMembers<K(!new)>(cmp: (K, K) -> int, s: seq<Elem<K>>, e: Elem<K>, s': seq<Elem<K>>)
    requires Lawful(cmp) && Sorted(cmp, s) && RemovedFrom(s, e, s')
    ensures e in s && forall x :: x in s' <==> x in s && x != e
  {
    var i :| 0 <= i < |s| && s[i] == e && s' == s[..i] + s[i + 1..];
    OnlyPlace(cmp, s, i);
    WithoutPlace(s, i);
  }

  lemma WithoutPlace<K>(s: seq<Elem<K>>, at: nat)
    requires at < |s| && forall i :: 0 <= i < |s| && s[i] == s[at] ==> i == at
    ensures forall x :: x in s[..at] + s[at + 1..] <==> x in s && x != s[at]
  {
    forall x | x in s && x != s[at]
      ensures x in s[..at] + s[at + 1..]
    {
      var i :| 0 <= i < |s| && s[i] == x;
      assert if i < at then x in s[..at] else x in s[at + 1..];
    }
  }

  lemma DifferentKeys<K(!new)>(cmp: (K, K) -> int, s: seq<Elem<K>>, i: nat, j: nat)
    requires Lawful(cmp) && Sorted(cmp, s) && i < |s| && j < |s| && i != j
    ensures cmp(s[i].key, s[j].key) != 0
  {
    if i < j {
      assert cmp(s[i].key, s[j].key) < 0;
    } else {
      assert cmp(s[j].key, s[i].key) < 0;
      assert LawfulAt(cmp, s[j].key, s[i].key, s[i].key);
    }
  }

  /** Elements with equal keys are the same element. */
  lemma SameKey<K(!new)>(cmp: (K, K) -> int, s: seq<Elem<K>>, x: Elem<K>, y: Elem<K>)
    requires Lawful(cmp) && Sorted(cmp, s) && x in s && y in s && cmp(x.key, y.key) == 0
    ensures x == y
  {
    var i :| 0 <= i < |s| && s[i] == x;
    var j :| 0 <= j < |s| && s[j] == y;
    if i != j {
      DifferentKeys(cmp, s, i, j);
    }
  }

  ghost function Keys<K>(s: seq<Elem<K>>): set<K> {
    set e | e in s :: e.key
  }

  lemma KeysInserted<K>(s: seq<Elem<K>>, e: Elem<K>, s': seq<Elem<K>>)
    requires InsertedInto(s, e, s')
    ensures Keys(s') == Keys(s) + {e.key}
  {
    InsertedMembers(s, e, s');
    hide InsertedInto;
  }

  lemma KeysRemoved<K(!new)>(cmp: (K, K) -> int, s: seq<Elem<K>>, e: Elem<K>, s': seq<Elem<K>>)
    requires Lawful(cmp) && Sorted(cmp, s) && RemovedFrom(s, e, s')
    ensures Keys(s') == Keys(s) - {e.key}
  {
    RemovedMembers(cmp, s, e, s');
    hide RemovedFrom, Sorted;
    assert LawfulAt(cmp, e.key, e.key, e.key);
    forall x | x in s && x.key == e.key
      ensures x == e
    {
      SameKey(cmp, s, x, e);
    }
  }
}
